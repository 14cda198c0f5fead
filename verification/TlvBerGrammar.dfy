/** The language of the parser, written down without it: which octets are a tag, a length
    field and a tree, and that the parser accepts exactly those. */
module TlvBerGrammar {
  import opened Bytes
  import opened TlvBer

  // ---- Tags

  /** How a tag number is written: in the first octet, in one further octet, or in two. */
  datatype TagForm = Short(n: nat) | Medium(n: nat) | Long(high: nat, low: nat)

  /** The ranges of section 5.2.2 of ISO/IEC 7816-4, as the parser takes them: a further octet
      is 1F to 7F, or 80 to FF with a last one of 00 to 7F behind it. */
  predicate InRange(f: TagForm) {
    match f
    case Short(n) => n < 0x1F
    case Medium(n) => 0x1F <= n < 0x80
    case Long(high, low) => high < 0x80 && low < 0x80
  }

  function FirstOctet(c: Class, t: Type, low: nat): byte
    requires c != Invalid && low < 32
  {
    64 * ClassNumber(c) + (if t == Constructed then 32 else 0) + low
  }

  function TagOctets(c: Class, t: Type, f: TagForm): seq<byte>
    requires c != Invalid && InRange(f)
  {
    match f
    case Short(n) => [FirstOctet(c, t, n)]
    case Medium(n) => [FirstOctet(c, t, 31), n]
    case Long(high, low) => [FirstOctet(c, t, 31), 0x80 + high, low]
  }

  function NumberOf(f: TagForm): nat {
    match f
    case Short(n) => n
    case Medium(n) => n
    case Long(high, low) => 256 * high + low
  }

  lemma {:induction false} FirstOctetFields(c: Class, t: Type, low: nat)
    requires c != Invalid && low < 32
    ensures var b := FirstOctet(c, t, low); ClassOf(b) == c && TypeOf(b) == t && b % 32 == low
  {
  }

  /** Every class, every type and every number in range is accepted, with those fields and in
      exactly those octets, whatever follows. */
  lemma {:induction false} TagAccepted(c: Class, t: Type, f: TagForm, more: seq<byte>)
    requires c != Invalid && InRange(f)
    ensures DecodeTag(TagOctets(c, t, f) + more) == Some(Tag(c, t, NumberOf(f), TagOctets(c, t, f)))
  {
    var octets := TagOctets(c, t, f);
    FirstOctetFields(c, t, if f.Short? then f.n else 31);
    assert (octets + more)[..|octets|] == octets;
    hide FirstOctet, ClassOf, TypeOf;
  }

  /** And nothing else is. */
  lemma {:induction false} TagsAreThese(data: seq<byte>) returns (c: Class, t: Type, f: TagForm)
    requires DecodeTag(data).Some?
    ensures c != Invalid && InRange(f)
    ensures TagOctets(c, t, f) <= data && DecodeTag(data) == Some(Tag(c, t, NumberOf(f), TagOctets(c, t, f)))
  {
    var tag := DecodeTag(data).value;
    var b := data[0];
    c, t := tag.cls, tag.typ;
    assert b == 64 * (b / 64) + 32 * (b / 32 % 2) + b % 32;
    assert FirstOctet(c, t, b % 32) == b;
    f := if |tag.octets| == 1 then Short(b % 32)
         else if |tag.octets| == 2 then Medium(data[1]) else Long(data[1] - 0x80, data[2]);
    hide FirstOctet, ClassOf, TypeOf;
    assert TagOctets(c, t, f) == data[..|tag.octets|];
  }

  // ---- Length fields

  /** One octet below 80, or 80 to 84 and behind it as many octets, leading zeros or not. */
  predicate IsLengthField(field: seq<byte>, n: nat) {
    || (field == [n] && n < 0x80)
    || (1 <= |field| <= 5 && field[0] == 0x80 + (|field| - 1) && BigEndian(field[1..]) == n)
  }

  lemma {:induction false} LengthAccepted(field: seq<byte>, n: nat, more: seq<byte>)
    requires IsLengthField(field, n)
    ensures DecodeLength(field + more) == Some(Length(n, |field|))
  {
    if !(field == [n] && n < 0x80) {
      LongLengthRead(field[1..], more);
      assert field == [0x80 + |field[1..]|] + field[1..];
      hide BigEndian, DecodeLength;
    }
  }

  lemma {:induction false} LengthsAreThese(data: seq<byte>)
    requires DecodeLength(data).Some?
    ensures var Length(n, k) := DecodeLength(data).value; IsLengthField(data[..k], n)
  {
    var Length(n, k) := DecodeLength(data).value;
    assert data[..k][1..] == data[1..k];
    hide BigEndian;
  }

  // ---- Trees

  /** The length field chosen for a tree, and those chosen for its children. */
  datatype Spelling = Spelling(lengthField: seq<byte>, children: seq<Spelling>)

  function Spelled(t: Tlv, s: Spelling): seq<byte>
    decreases t, 1
  {
    t.tag + s.lengthField + SpelledContent(t, s)
  }

  function SpelledContent(t: Tlv, s: Spelling): seq<byte>
    decreases t, 0
  {
    if t.typ.Primitive? then t.value else SpelledAll(t.values, s.children)
  }

  function SpelledAll(ts: seq<Tlv>, ss: seq<Spelling>): seq<byte>
    decreases ts
  {
    if ts == [] || ss == [] then [] else Spelled(ts[0], ss[0]) + SpelledAll(ts[1..], ss[1..])
  }

  /** Each length field says the length of what is spelled behind it. */
  predicate Spells(s: Spelling, t: Tlv)
    decreases t, 1
  {
    IsLengthField(s.lengthField, |SpelledContent(t, s)|) && SpellsAll(s.children, t.values)
  }

  predicate SpellsAll(ss: seq<Spelling>, ts: seq<Tlv>)
    decreases ts, 0
  {
    if ts == [] then ss == [] else ss != [] && Spells(ss[0], ts[0]) && SpellsAll(ss[1..], ts[1..])
  }

  /** However a well-formed tree is spelled, and whatever follows it, the parser reads it and
      consumes exactly what was spelled. */
  lemma {:induction false} SpelledIsParsed(t: Tlv, s: Spelling, more: seq<byte>)
    requires WellFormed(t) && Spells(s, t)
    ensures Decode(Spelled(t, s) + more) == Some(Parsed(t, |Spelled(t, s)|))
    decreases t, 1
  {
    var content := SpelledContent(t, s);
    SpelledContentIsParsed(t, s, more);
    LengthAccepted(s.lengthField, |content|, content + more);
    DecodeFields(TagOf(t), |content|, s.lengthField, content + more);
    hide Decode, DecodeTag, DecodeLength, DecodeContent, SpelledContent, IsLengthField;
    Associative(t.tag + s.lengthField, content, more);
  }

  lemma {:induction false} SpelledContentIsParsed(t: Tlv, s: Spelling, more: seq<byte>)
    requires WellFormed(t) && Spells(s, t)
    ensures DecodeContent(TagOf(t), |SpelledContent(t, s)|, SpelledContent(t, s) + more) == Some(t)
    decreases t, 0
  {
    if t.typ.Constructed? {
      SpelledAllAreParsed(t.values, s.children, more);
    } else {
      Dropped(t.value, more);
    }
  }

  lemma {:induction false} SpelledAllAreParsed(ts: seq<Tlv>, ss: seq<Spelling>, more: seq<byte>)
    requires SpellsAll(ss, ts) && forall t <- ts :: WellFormed(t)
    ensures DecodeValues(|SpelledAll(ts, ss)|, SpelledAll(ts, ss) + more) == Some(ts)
    decreases ts
  {
    if ts != [] {
      var first, behind := Spelled(ts[0], ss[0]), SpelledAll(ts[1..], ss[1..]) + more;
      SpelledIsParsed(ts[0], ss[0], behind);
      SpelledAllAreParsed(ts[1..], ss[1..], more);
      assert SpelledAll(ts, ss) == first + SpelledAll(ts[1..], ss[1..]);
      hide Spelled, SpelledAll, Spells, WellFormed, Decode, DecodeValues;
      Associative(first, SpelledAll(ts[1..], ss[1..]), more);
      Dropped(first, behind);
      DecodeValuesStep(|SpelledAll(ts, ss)|, first + behind, Parsed(ts[0], |first|), ts[1..]);
      assert ts == [ts[0]] + ts[1..];
    }
  }

  /** And whatever the parser reads is a well-formed tree, spelled in the octets consumed. */
  lemma {:induction false} ParsedIsSpelled(data: seq<byte>) returns (s: Spelling)
    requires Decode(data).Some?
    ensures var Parsed(t, k) := Decode(data).value;
            WellFormed(t) && Spells(s, t) && Spelled(t, s) == data[..k]
    decreases |data|, 0
  {
    var Parsed(t, size) := Decode(data).value;
    var tag, field, body := DecodeParts(data);
    var n := |tag.octets|;
    DecodedIsWellFormed(data);
    LengthsAreThese(data[n..]);
    var children := ContentIsSpelled(tag, field.length, body);
    s := Spelling(data[n..][..field.size], children);
    assert t.tag == tag.octets == data[..n];
    hide Decode, DecodeTag, DecodeLength, DecodeContent, SpelledContent, IsLengthField, WellFormed, SpellsAll;
    SplitThree(data, n, field.size, size);
  }

  lemma {:induction false} SplitThree(data: seq<byte>, n: nat, k: nat, size: nat)
    requires n + k <= size <= |data|
    ensures data[..n] + data[n..][..k] + data[n + k..][..size - n - k] == data[..size]
  {
  }

  lemma {:induction false} ContentIsSpelled(tag: Tag, length: nat, body: seq<byte>) returns (ss: seq<Spelling>)
    requires DecodeContent(tag, length, body).Some?
    ensures var t := DecodeContent(tag, length, body).value;
            && t.tag == tag.octets && SpellsAll(ss, t.values)
            && forall field :: SpelledContent(t, Spelling(field, ss)) == body[..length]
    decreases |body|, 2
  {
    if tag.typ.Constructed? {
      ss := ValuesAreSpelled(length, body);
    } else {
      ss := [];
    }
  }

  lemma {:induction false} ValuesAreSpelled(length: int, data: seq<byte>) returns (ss: seq<Spelling>)
    requires DecodeValues(length, data).Some?
    ensures var ts := DecodeValues(length, data).value;
            SpellsAll(ss, ts) && SpelledAll(ts, ss) == data[..length]
    decreases |data|, 1
  {
    hide *;
    if length > 0 {
      var first, others := DecodeValuesParts(length, data);
      var s := ParsedIsSpelled(data);
      var rest := ValuesAreSpelled(length - first.size, data[first.size..]);
      ss := [s] + rest;
      OneMoreSpelled(first.tlv, s, others, rest);
      TwoParts(data, first.size, length);
    } else {
      ss := [];
      NoneSpelled(length, data);
    }
  }

  lemma {:induction false} OneMoreSpelled(t: Tlv, s: Spelling, ts: seq<Tlv>, ss: seq<Spelling>)
    ensures SpelledAll([t] + ts, [s] + ss) == Spelled(t, s) + SpelledAll(ts, ss)
    ensures SpellsAll([s] + ss, [t] + ts) == (Spells(s, t) && SpellsAll(ss, ts))
  {
    assert ([t] + ts)[1..] == ts && ([s] + ss)[1..] == ss;
    hide Spelled, Spells;
  }

  lemma {:induction false} NoneSpelled(length: int, data: seq<byte>)
    requires length <= 0 && DecodeValues(length, data).Some?
    ensures length == 0 && DecodeValues(length, data) == Some([])
    ensures SpellsAll([], []) && SpelledAll([], []) == []
  {
  }

  lemma {:induction false} TwoParts(data: seq<byte>, k: nat, n: nat)
    requires k <= n <= |data|
    ensures data[..k] + data[k..][..n - k] == data[..n]
  {
  }

  /** The parser accepts exactly the spellings of well-formed trees: any tags in range, any
      length fields that are true, at every depth, and nothing else. */
  lemma {:induction false} ParseIff(data: seq<byte>, t: Tlv, k: nat)
    ensures Decode(data) == Some(Parsed(t, k))
       <==> k <= |data| && WellFormed(t) && exists s :: Spells(s, t) && Spelled(t, s) == data[..k]
  {
    hide *;
    if Decode(data).Some? {
      var s := ParsedIsSpelled(data);
    }
    if k <= |data| && WellFormed(t) {
      assert data[..k] + data[k..] == data;
      if s :| Spells(s, t) && Spelled(t, s) == data[..k] {
        SpelledIsParsed(t, s, data[k..]);
      }
    }
  }
}
