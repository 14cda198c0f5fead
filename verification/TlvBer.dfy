/** BER-TLV values: identifier octets, length octets, printing and parsing,
    as functions, with the laws that tie the printer to the parser. */
module TlvBer {
  import opened Bytes

  datatype Class = Universal | Application | ContextSpecific | Private | Invalid

  datatype Type = Primitive | Constructed

  /** A tree keeps, besides its tag octets, what was read from them. */
  datatype Tlv = Tlv(cls: Class, typ: Type, number: nat, tag: seq<byte>,
                     value: seq<byte>, values: seq<Tlv>)

  datatype Tag = Tag(cls: Class, typ: Type, number: nat, octets: seq<byte>)

  datatype Length = Length(length: nat, size: nat)

  datatype Parsed = Parsed(tlv: Tlv, size: nat)

  const LENGTH_LIMIT: nat := 0x1_0000_0000
  const SIZE_LIMIT: nat := 0x1_0000_0000_0000_0000

  function ClassOf(b: byte): Class {
    match b / 64
    case 0 => Universal
    case 1 => Application
    case 2 => ContextSpecific
    case _ => Private
  }

  function TypeOf(b: byte): Type {
    if b / 32 % 2 == 1 then Constructed else Primitive
  }

  /** Reads the identifier octets at the front of data. */
  function DecodeTag(data: seq<byte>): (r: Option<Tag>)
    ensures r.Some? ==> 1 <= |r.value.octets| <= |data| && r.value.octets == data[..|r.value.octets|]
    ensures r.Some? ==> |r.value.octets| <= 3 && (|r.value.octets| == 1 <==> data[0] % 32 != 31)
  {
    if data == [] then None
    else
      var b := data[0];
      if b % 32 != 31 then Some(Tag(ClassOf(b), TypeOf(b), b % 32, data[..1]))
      else if |data| < 2 || data[1] < 0x1F then None
      else if data[1] < 0x80 then Some(Tag(ClassOf(b), TypeOf(b), data[1], data[..2]))
      else if |data| < 3 || data[2] >= 0x80 then None
      else Some(Tag(ClassOf(b), TypeOf(b), (data[1] as int - 0x80) * 256 + data[2] as int, data[..3]))
  }

  /** Reads the length octets at the front of data: the length, and how many octets held it. */
  function DecodeLength(data: seq<byte>): (r: Option<Length>)
    ensures r.Some? ==> 1 <= r.value.size <= |data| && r.value.size <= 5
  {
    if data == [] then None
    else if data[0] < 0x80 then Some(Length(data[0], 1))
    else
      var k := data[0] - 0x80;
      if k >= 5 || |data| < 1 + k then None
      else Some(Length(BigEndian(data[1..1 + k]), 1 + k))
  }

  function LengthOctets(n: nat): (s: seq<byte>)
    ensures |s| >= 1
  {
    if n <= 0x7F then [n] else [0x80 + |Digits(n)| % 0x80] + Digits(n)
  }

  function Encode(t: Tlv): (s: seq<byte>)
    decreases t, 1
  {
    t.tag + LengthOctets(|Content(t)|) + Content(t)
  }

  function Content(t: Tlv): seq<byte>
    decreases t, 0
  {
    if t.typ.Primitive? then t.value else EncodeAll(t.values)
  }

  function EncodeAll(ts: seq<Tlv>): seq<byte>
    decreases ts
  {
    if ts == [] then [] else Encode(ts[0]) + EncodeAll(ts[1..])
  }

  function Decode(data: seq<byte>): (r: Option<Parsed>)
    ensures r.Some? ==> 2 <= r.value.size <= |data|
    decreases |data|, 0
  {
    match DecodeTag(data)
    case None => None
    case Some(tag) =>
      match DecodeLength(data[|tag.octets|..])
      case None => None
      case Some(Length(length, k)) =>
        var offset := |tag.octets| + k;
        match DecodeContent(tag, length, data[offset..])
        case None => None
        case Some(tlv) => Some(Parsed(tlv, offset + length))
  }

  function DecodeContent(tag: Tag, length: nat, body: seq<byte>): (r: Option<Tlv>)
    ensures r.Some? ==> length <= |body|
    decreases |body|, 2
  {
    if tag.typ.Constructed? then
      match DecodeValues(length, body)
      case None => None
      case Some(values) => Some(Tlv(tag.cls, tag.typ, tag.number, tag.octets, [], values))
    else if |body| < length then None
    else Some(Tlv(tag.cls, tag.typ, tag.number, tag.octets, body[..length], []))
  }

  /** Reads siblings from data until they fill exactly `length` octets. A child is
      parsed from all of the remaining data, so it may overrun the length: that fails. */
  function DecodeValues(length: int, data: seq<byte>): (r: Option<seq<Tlv>>)
    ensures r.Some? ==> 0 <= length <= |data|
    decreases |data|, 1
  {
    if length <= 0 then
      if length == 0 then Some([]) else None
    else
      match Decode(data)
      case None => None
      case Some(first) =>
        match DecodeValues(length - first.size, data[first.size..])
        case None => None
        case Some(rest) => Some([first.tlv] + rest)
  }

  function TagOf(t: Tlv): Tag {
    Tag(t.cls, t.typ, t.number, t.tag)
  }

  /** A tree whose tag octets are accepted, whose class, type and number are the
      ones they denote, and which holds either a value or children, at every level. */
  ghost predicate WellFormed(t: Tlv)
    decreases t
  {
    && DecodeTag(t.tag) == Some(TagOf(t))
    && (t.typ.Primitive? ==> t.values == [])
    && (t.typ.Constructed? ==> t.value == [])
    && forall c <- t.values :: WellFormed(c)
  }

  // ---- Identifier and length octets

  /** The accepted tag is a prefix code: what follows it does not matter. */
  lemma {:induction false} TagPrefix(data: seq<byte>, more: seq<byte>)
    requires DecodeTag(data).Some?
    ensures DecodeTag(DecodeTag(data).value.octets + more) == DecodeTag(data)
    ensures DecodeTag(data + more) == DecodeTag(data)
  {
    var octets := DecodeTag(data).value.octets;
    var d := octets + more;
    assert d[..|octets|] == octets == data[..|octets|] == (data + more)[..|octets|];
    assert d[0] == data[0] == (data + more)[0];
    if |octets| >= 2 { assert d[1] == data[1] == (data + more)[1]; }
    if |octets| >= 3 { assert d[2] == data[2] == (data + more)[2]; }
  }

  /** The number of a class in the top two bits of an identifier octet. */
  function ClassNumber(c: Class): nat {
    match c case Universal => 0 case Application => 1 case ContextSpecific => 2 case Private => 3 case Invalid => 4
  }

  /** What section 8.1.2.4.2 of X.690 makes of the octets behind the first one: seven bits each. */
  function Base128(octets: seq<byte>): nat {
    if octets == [] then 0 else 128 * Base128(octets[..|octets| - 1]) + octets[|octets| - 1] % 128
  }

  /** The number of an accepted tag is the one X.690 gives it exactly when the tag has fewer
      than three octets or the second of three adds nothing to it. */
  lemma {:induction false} TagNumberIff(data: seq<byte>)
    requires DecodeTag(data).Some? && |DecodeTag(data).value.octets| > 1
    ensures var tag := DecodeTag(data).value;
            tag.number == Base128(tag.octets[1..]) <==> |tag.octets| == 2 || tag.octets[1] == 0x80
  {
    var octets := DecodeTag(data).value.octets;
    var subsequent := octets[1..];
    assert Base128([]) == 0;
    assert subsequent[..1] == [octets[1]] && subsequent[..1][..0] == [];
    assert Base128(subsequent[..1]) == octets[1] % 128;
    if |octets| == 2 {
      assert subsequent == subsequent[..1];
    } else {
      assert Base128(subsequent) == 128 * Base128(subsequent[..1]) + octets[2] % 128;
    }
  }

  /** Number 128 is read as 256. */
  lemma {:induction false} TagNumberOff()
    ensures DecodeTag([0x1F, 0x81, 0x00]) == Some(Tag(Universal, Primitive, 256, [0x1F, 0x81, 0x00]))
    ensures Base128([0x81, 0x00]) == 128
  {
    assert [0x1F, 0x81, 0x00][..3] == [0x1F, 0x81, 0x00];
    assert [0x81, 0x00][..1] == [0x81] && [0x81][..0] == [];
    assert Base128([0x81]) == 1;
  }

  /** The fields of an accepted length: it is its only octet, or the octets behind the first
      are the length in as many octets as the first one says. */
  lemma {:induction false} LengthFields(data: seq<byte>)
    requires DecodeLength(data).Some?
    ensures var Length(n, k) := DecodeLength(data).value;
            if data[0] < 0x80 then k == 1 && n == data[0]
            else data[0] as int == 0x80 + (k - 1) && Octets(n, k - 1) == data[1..k]
  {
    if data[0] >= 0x80 {
      OctetsOfBigEndian(data[1..1 + (data[0] - 0x80)]);
    }
  }

  lemma {:induction false} Pow256Values()
    ensures Pow256(1) == 256 && Pow256(4) == LENGTH_LIMIT && Pow256(8) == SIZE_LIMIT
  {
    assert Pow256(2) == 0x1_0000;
    PowAdd(2, 2);
    PowAdd(4, 4);
  }

  /** A long length is read from its digits unless there are too many of them. */
  lemma {:induction false} LongLengthRead(digits: seq<byte>, more: seq<byte>)
    requires |digits| < 0x80
    ensures DecodeLength([0x80 + |digits|] + digits + more)
         == if |digits| < 5 then Some(Length(BigEndian(digits), 1 + |digits|)) else None
  {
    var data := [0x80 + |digits|] + digits + more;
    assert data[1..1 + |digits|] == digits;
    hide BigEndian;
  }

  /** Writing a length and reading it back gives the length exactly below 2^32;
      a longer length is written in a form that the reader refuses. */
  lemma {:induction false} LengthRoundTrip(n: nat, more: seq<byte>)
    requires n < SIZE_LIMIT
    ensures DecodeLength(LengthOctets(n) + more)
         == if n < LENGTH_LIMIT then Some(Length(n, |LengthOctets(n)|)) else None
  {
    if n > 0x7F {
      LongForm(n);
      hide *;
      LongLengthRead(Digits(n), more);
      BigEndianDigits(n);
    }
  }

  lemma {:induction false} LongForm(n: nat)
    requires 0x7F < n < SIZE_LIMIT
    ensures |Digits(n)| <= 8 && (|Digits(n)| < 5 <==> n < LENGTH_LIMIT)
    ensures LengthOctets(n) == [0x80 + |Digits(n)|] + Digits(n)
  {
    Pow256Values();
    DigitsLength(n, 4);
    DigitsLength(n, 8);
    hide Pow256, Digits;
  }

  /** No accepted length field is shorter than the one the printer writes, and one
      of the same size is the same octets, unless it is the lone octet 80 (a long
      form with no octets, which the reader takes for zero). */
  lemma {:induction false} LengthShortest(data: seq<byte>)
    requires DecodeLength(data).Some?
    ensures var Length(n, k) := DecodeLength(data).value;
            && n < LENGTH_LIMIT
            && |LengthOctets(n)| <= k
            && (data[..k] == LengthOctets(n) <==> k == |LengthOctets(n)| && data[0] != 0x80)
  {
    if data[0] < 0x80 {
      assert data[..1] == [data[0]];
    } else {
      var digits := data[1..1 + (data[0] - 0x80)];
      LongFormShortest(digits);
      assert data[..1 + |digits|] == [data[0]] + digits;
    }
  }

  lemma {:induction false} LongFormShortest(digits: seq<byte>)
    requires |digits| <= 4
    ensures var n, field := BigEndian(digits), [0x80 + |digits|] + digits;
            && n < LENGTH_LIMIT
            && |LengthOctets(n)| <= |field|
            && (field == LengthOctets(n) <==> |field| == |LengthOctets(n)| && digits != [])
  {
    var n := BigEndian(digits);
    Pow256Values();
    BigEndianBound(digits);
    PowMonotone(|digits|, 4);
    if n > 0x7F {
      DigitsLength(n, |digits|);
      BigEndianDigits(n);
      if |Digits(n)| == |digits| {
        BigEndianInjective(Digits(n), digits);
      }
      assert ([0x80 + |digits|] + digits)[1..] == digits;
      assert LengthOctets(n)[1..] == Digits(n);
    } else {
      assert ([0x80 + |digits|] + digits)[0] != LengthOctets(n)[0];
    }
  }

  lemma {:induction false} LengthPrefix(data: seq<byte>, more: seq<byte>)
    requires DecodeLength(data).Some?
    ensures DecodeLength(data + more) == DecodeLength(data)
  {
    assert (data + more)[0] == data[0];
    if data[0] >= 0x80 {
      var k := data[0] - 0x80;
      assert (data + more)[1..1 + k] == data[1..1 + k];
    }
  }

  // ---- Printing then parsing

  lemma {:induction false} Dropped(a: seq<byte>, b: seq<byte>)
    ensures (a + b)[|a|..] == b && (a + b)[..|a|] == a
  {
  }

  /** The three fields of a printed tree, as the parser meets them. */
  lemma {:induction false} DecodeFields(tag: Tag, length: nat, field: seq<byte>, body: seq<byte>)
    requires DecodeTag(tag.octets) == Some(tag)
    requires DecodeLength(field + body) == Some(Length(length, |field|))
    ensures Decode(tag.octets + field + body)
         == match DecodeContent(tag, length, body)
            case None => None
            case Some(tlv) => Some(Parsed(tlv, |tag.octets| + |field| + length))
  {
    TagPrefix(tag.octets, field + body);
    assert tag.octets + field + body == tag.octets + (field + body);
    Dropped(tag.octets, field + body);
    Dropped(tag.octets + field, body);
  }

  lemma {:induction false} DecodeValuesStep(length: nat, data: seq<byte>, first: Parsed, rest: seq<Tlv>)
    requires length > 0 && Decode(data) == Some(first)
    requires DecodeValues(length - first.size, data[first.size..]) == Some(rest)
    ensures DecodeValues(length, data) == Some([first.tlv] + rest)
  {
  }

  lemma {:induction false} Associative(a: seq<byte>, b: seq<byte>, c: seq<byte>)
    ensures a + b + c == a + (b + c)
  {
  }

  /** What a successful read of a non-empty list is made of. */
  lemma {:induction false} DecodeValuesParts(length: int, data: seq<byte>) returns (first: Parsed, others: seq<Tlv>)
    requires length > 0 && DecodeValues(length, data).Some?
    ensures Decode(data) == Some(first) && first.size <= length <= |data|
    ensures DecodeValues(length - first.size, data[first.size..]) == Some(others)
    ensures DecodeValues(length, data) == Some([first.tlv] + others)
  {
    first := Decode(data).value;
    others := DecodeValues(length - first.size, data[first.size..]).value;
  }

  lemma {:induction false} EncodeAllCons(t: Tlv, others: seq<Tlv>)
    ensures EncodeAll([t] + others) == Encode(t) + EncodeAll(others)
  {
    assert ([t] + others)[1..] == others;
  }

  lemma {:induction false} EncodeFields(t: Tlv, more: seq<byte>)
    ensures Encode(t) + more == t.tag + LengthOctets(|Content(t)|) + (Content(t) + more)
    ensures |Content(t)| < |Encode(t)|
  {
    Associative(t.tag + LengthOctets(|Content(t)|), Content(t), more);
  }

  lemma {:induction false} EncodeAllStep(ts: seq<Tlv>, more: seq<byte>)
    requires ts != []
    ensures EncodeAll(ts) + more == Encode(ts[0]) + (EncodeAll(ts[1..]) + more)
    ensures |EncodeAll(ts)| == |Encode(ts[0])| + |EncodeAll(ts[1..])|
    ensures |Content(ts[0])| < |EncodeAll(ts)|
  {
    var first, others := Encode(ts[0]), EncodeAll(ts[1..]);
    assert EncodeAll(ts) == first + others;
    Associative(first, others, more);
    EncodeFields(ts[0], []);
  }

  /** Parsing what the printer wrote, whatever follows it, gives the tree back and
      consumes exactly what was written. */
  lemma {:induction false} RoundTrip(t: Tlv, more: seq<byte>)
    requires WellFormed(t) && |Content(t)| < LENGTH_LIMIT
    ensures Decode(Encode(t) + more) == Some(Parsed(t, |Encode(t)|))
    decreases t, 1
  {
    ContentRoundTrip(t, more);
    FieldsRoundTrip(t, Content(t), more);
    EncodeFields(t, more);
  }

  lemma {:induction false} FieldsRoundTrip(t: Tlv, content: seq<byte>, more: seq<byte>)
    requires DecodeTag(t.tag) == Some(TagOf(t)) && |content| < LENGTH_LIMIT
    requires DecodeContent(TagOf(t), |content|, content + more) == Some(t)
    ensures var field := LengthOctets(|content|);
            Decode(t.tag + field + (content + more)) == Some(Parsed(t, |t.tag| + |field| + |content|))
  {
    LengthRoundTrip(|content|, content + more);
    DecodeFields(TagOf(t), |content|, LengthOctets(|content|), content + more);
  }

  lemma {:induction false} ContentRoundTrip(t: Tlv, more: seq<byte>)
    requires WellFormed(t) && |Content(t)| < LENGTH_LIMIT
    ensures DecodeContent(TagOf(t), |Content(t)|, Content(t) + more) == Some(t)
    decreases t, 0
  {
    if t.typ.Constructed? {
      RoundTripAll(t.values, more);
    } else {
      Dropped(t.value, more);
    }
  }

  lemma {:induction false} RoundTripAll(ts: seq<Tlv>, more: seq<byte>)
    requires forall t <- ts :: WellFormed(t)
    requires |EncodeAll(ts)| < LENGTH_LIMIT
    ensures DecodeValues(|EncodeAll(ts)|, EncodeAll(ts) + more) == Some(ts)
    decreases ts
  {
    if ts != [] {
      var first, behind := Encode(ts[0]), EncodeAll(ts[1..]) + more;
      EncodeAllStep(ts, more);
      RoundTrip(ts[0], behind);
      RoundTripAll(ts[1..], more);
      Dropped(first, behind);
      DecodeValuesStep(|EncodeAll(ts)|, first + behind, Parsed(ts[0], |first|), ts[1..]);
      assert ts == [ts[0]] + ts[1..];
    }
  }

  /** The exact condition of the round trip: the content must be shorter than 2^32. */
  lemma {:induction false} RoundTripIff(t: Tlv, more: seq<byte>)
    requires WellFormed(t) && |Content(t)| < SIZE_LIMIT
    ensures Decode(Encode(t) + more)
         == if |Content(t)| < LENGTH_LIMIT then Some(Parsed(t, |Encode(t)|)) else None
  {
    if |Content(t)| < LENGTH_LIMIT {
      RoundTrip(t, more);
    } else {
      var afterTag := LengthOctets(|Content(t)|) + (Content(t) + more);
      assert Encode(t) + more == t.tag + afterTag;
      TagPrefix(t.tag, afterTag);
      Dropped(t.tag, afterTag);
      LengthRoundTrip(|Content(t)|, Content(t) + more);
    }
  }

  lemma {:induction false} LengthShape(n: nat)
    requires n < SIZE_LIMIT
    ensures var field := LengthOctets(n);
            if n <= 0x7F then field == [n] else field[0] == 0x80 + |Digits(n)| && field[1..] == Digits(n)
  {
    Pow256Values();
    DigitsLength(n, 8);
    hide Pow256, Digits;
  }

  lemma {:induction false} LengthInjective(m: nat, n: nat)
    requires m < SIZE_LIMIT && n < SIZE_LIMIT && LengthOctets(m)[0] == LengthOctets(n)[0]
    ensures |LengthOctets(m)| == |LengthOctets(n)|
    ensures LengthOctets(m) == LengthOctets(n) ==> m == n
  {
    LengthShape(m);
    LengthShape(n);
    BigEndianDigits(m);
    BigEndianDigits(n);
    DigitsLength(m, 0);
    DigitsLength(n, 0);
    hide Digits, LengthOctets, BigEndian;
  }

  /** No length field is the beginning of another, up to the greatest length there is. */
  lemma {:induction false} LengthPrefixFree(m: nat, n: nat, more: seq<byte>, other: seq<byte>)
    requires m < SIZE_LIMIT && n < SIZE_LIMIT
    requires LengthOctets(m) + more == LengthOctets(n) + other
    ensures m == n && more == other
  {
    hide *;
    assert (LengthOctets(m) + more)[0] == LengthOctets(m)[0];
    assert (LengthOctets(n) + other)[0] == LengthOctets(n)[0];
    LengthInjective(m, n);
    Dropped(LengthOctets(m), more);
    Dropped(LengthOctets(n), other);
  }

  lemma {:induction false} SameTag(t: Tlv, u: Tlv, more: seq<byte>, other: seq<byte>)
    requires DecodeTag(t.tag) == Some(TagOf(t)) && DecodeTag(u.tag) == Some(TagOf(u))
    requires t.tag + more == u.tag + other
    ensures TagOf(t) == TagOf(u) && more == other
  {
    TagPrefix(t.tag, more);
    TagPrefix(u.tag, other);
    hide DecodeTag;
    Dropped(t.tag, more);
    Dropped(u.tag, other);
  }

  /** No printed tree is the beginning of another one: whatever follows them, equal octets
      come from equal trees. This needs no parser, and holds for every size there is. */
  lemma {:induction false} PrefixFree(t: Tlv, u: Tlv, more: seq<byte>, other: seq<byte>)
    requires WellFormed(t) && |Content(t)| < SIZE_LIMIT
    requires WellFormed(u) && |Content(u)| < SIZE_LIMIT
    requires Encode(t) + more == Encode(u) + other
    ensures t == u && more == other
    decreases t, 1
  {
    var c, d := Content(t), Content(u);
    SplitFields(t, more);
    SplitFields(u, other);
    SameTag(t, u, LengthOctets(|c|) + (c + more), LengthOctets(|d|) + (d + other));
    LengthPrefixFree(|c|, |d|, c + more, d + other);
    Dropped(c, more);
    Dropped(d, other);
    if t.typ.Constructed? {
      SiblingsUnique(t.values, u.values);
    }
  }

  lemma {:induction false} SplitFields(t: Tlv, more: seq<byte>)
    ensures Encode(t) + more == t.tag + (LengthOctets(|Content(t)|) + (Content(t) + more))
  {
    EncodeFields(t, more);
    Associative(t.tag, LengthOctets(|Content(t)|), Content(t) + more);
  }

  /** Sibling lists are told apart by their octets. */
  lemma {:induction false} SiblingsUnique(ts: seq<Tlv>, us: seq<Tlv>)
    requires forall t <- ts :: WellFormed(t)
    requires forall u <- us :: WellFormed(u)
    requires EncodeAll(ts) == EncodeAll(us) && |EncodeAll(ts)| < SIZE_LIMIT
    ensures ts == us
    decreases ts, 0
  {
    if ts != [] { EncodeAllStep(ts, []); }
    if us != [] { EncodeAllStep(us, []); }
    if ts != [] && us != [] {
      assert EncodeAll(ts) == Encode(ts[0]) + EncodeAll(ts[1..]);
      assert EncodeAll(us) == Encode(us[0]) + EncodeAll(us[1..]);
      hide WellFormed, Encode, EncodeAll, Content;
      PrefixFree(ts[0], us[0], EncodeAll(ts[1..]), EncodeAll(us[1..]));
      SiblingsUnique(ts[1..], us[1..]);
      assert ts == [ts[0]] + ts[1..] && us == [us[0]] + us[1..];
    }
  }

  // ---- Parsing then printing

  /** Whatever octets the parser accepts, the result is well formed and prints into no
      more octets than were consumed; `Reparse` adds that it parses to itself again. */
  lemma {:induction false} DecodedIsWellFormed(data: seq<byte>)
    requires Decode(data).Some?
    ensures var Parsed(t, size) := Decode(data).value;
            WellFormed(t) && |Content(t)| < LENGTH_LIMIT && |Encode(t)| <= size
    decreases |data|, 0
  {
    var Parsed(t, size) := Decode(data).value;
    var tag, field, body := DecodeParts(data);
    TagPrefix(data, []);
    assert tag.octets + [] == tag.octets;
    LengthShortest(data[|tag.octets|..]);
    hide Decode, DecodeTag, DecodeLength, DecodeContent, LengthOctets, Content, WellFormed;
    DecodedContentIsWellFormed(tag, field.length, body);
    LengthOctetsMonotone(|Content(t)|, field.length);
  }

  lemma {:induction false} DecodedContentIsWellFormed(tag: Tag, length: nat, body: seq<byte>)
    requires DecodeContent(tag, length, body).Some? && DecodeTag(tag.octets) == Some(tag)
    ensures var t := DecodeContent(tag, length, body).value;
            t.tag == tag.octets && WellFormed(t) && |Content(t)| <= length
    decreases |body|, 2
  {
    hide DecodeTag;
    if tag.typ.Constructed? {
      DecodedValuesAreWellFormed(length, body);
    }
  }

  lemma {:induction false} DecodedValuesAreWellFormed(length: int, data: seq<byte>)
    requires DecodeValues(length, data).Some?
    ensures var ts := DecodeValues(length, data).value;
            (forall t <- ts :: WellFormed(t)) && |EncodeAll(ts)| <= length
    decreases |data|, 1
  {
    if length > 0 {
      var first, others := DecodeValuesParts(length, data);
      DecodedIsWellFormed(data);
      DecodedValuesAreWellFormed(length - first.size, data[first.size..]);
      EncodeAllCons(first.tlv, others);
    }
  }

  lemma {:induction false} LengthOctetsMonotone(m: nat, n: nat)
    requires m <= n < LENGTH_LIMIT
    ensures |LengthOctets(m)| <= |LengthOctets(n)|
  {
    Pow256Values();
    DigitsLength(n, |Digits(n)|);
    DigitsLength(m, |Digits(n)|);
    if n > 0x7F { DigitsLength(n, 0); }
  }

  /** Parsing, printing and parsing again gives the first result, in whatever follows. */
  lemma {:induction false} Reparse(data: seq<byte>, more: seq<byte>)
    requires Decode(data).Some?
    ensures var Parsed(t, size) := Decode(data).value;
            && Decode(Encode(t) + more) == Some(Parsed(t, |Encode(t)|))
            && 2 <= |Encode(t)| <= size <= |data|
  {
    DecodedIsWellFormed(data);
    RoundTrip(Decode(data).value.tlv, more);
  }

  // ---- Which part of the input the parser looks at

  /** Success depends only on the octets consumed: more input behind them changes nothing. */
  lemma {:induction false} DecodePrefix(data: seq<byte>, more: seq<byte>)
    requires Decode(data).Some?
    ensures Decode(data + more) == Decode(data)
    decreases |data|, 0
  {
    hide DecodeTag, DecodeLength, DecodeContent, DecodeValues;
    var tag, field, body := DecodeParts(data);
    var n := |tag.octets|;
    TagPrefix(data, more);
    LengthPrefix(data[n..], more);
    assert (data + more)[n..] == data[n..] + more;
    assert (data + more)[n + field.size..] == body + more;
    DecodeContentPrefix(tag, field.length, body, more);
  }

  /** What a successful read of a tree is made of. */
  lemma {:induction false} DecodeParts(data: seq<byte>) returns (tag: Tag, field: Length, body: seq<byte>)
    requires Decode(data).Some?
    ensures DecodeTag(data) == Some(tag)
    ensures DecodeLength(data[|tag.octets|..]) == Some(field)
    ensures body == data[|tag.octets| + field.size..]
    ensures var Parsed(t, size) := Decode(data).value;
            && DecodeContent(tag, field.length, body) == Some(t)
            && size == |tag.octets| + field.size + field.length
  {
    tag := DecodeTag(data).value;
    field := DecodeLength(data[|tag.octets|..]).value;
    body := data[|tag.octets| + field.size..];
  }

  lemma {:induction false} DecodeContentPrefix(tag: Tag, length: nat, body: seq<byte>, more: seq<byte>)
    requires DecodeContent(tag, length, body).Some?
    ensures DecodeContent(tag, length, body + more) == DecodeContent(tag, length, body)
    decreases |body|, 2
  {
    if tag.typ.Constructed? {
      DecodeValuesPrefix(length, body, more);
    } else {
      assert (body + more)[..length] == body[..length];
    }
  }

  lemma {:induction false} DecodeValuesPrefix(length: int, data: seq<byte>, more: seq<byte>)
    requires DecodeValues(length, data).Some?
    ensures DecodeValues(length, data + more) == DecodeValues(length, data)
    decreases |data|, 1
  {
    if length > 0 {
      var first, others := DecodeValuesParts(length, data);
      DecodePrefix(data, more);
      DecodeValuesPrefix(length - first.size, data[first.size..], more);
      assert (data + more)[first.size..] == data[first.size..] + more;
      DecodeValuesStep(length, data + more, first, others);
    }
  }

  /** Every truncation of a printed tree is refused. */
  lemma {:induction false} TruncationRefused(t: Tlv, k: nat)
    requires WellFormed(t) && |Content(t)| < LENGTH_LIMIT
    requires k < |Encode(t)|
    ensures Decode(Encode(t)[..k]) == None
  {
    var s := Encode(t);
    if Decode(s[..k]).Some? {
      DecodePrefix(s[..k], s[k..]);
      assert s[..k] + s[k..] == s == s + [];
      RoundTrip(t, []);
    }
  }

  // ---- When parsing then printing reproduces the octets

  /** Every length field the parser reads in data is the one the printer writes. */
  ghost predicate Canonical(data: seq<byte>)
    decreases |data|, 0
  {
    match DecodeTag(data)
    case None => false
    case Some(tag) =>
      var rest := data[|tag.octets|..];
      match DecodeLength(rest)
      case None => false
      case Some(Length(length, k)) =>
        && k == |LengthOctets(length)| && rest[0] != 0x80
        && (tag.typ.Constructed? ==> CanonicalValues(length, rest[k..]))
  }

  ghost predicate CanonicalValues(length: int, data: seq<byte>)
    decreases |data|, 1
  {
    length > 0 ==>
      && Canonical(data)
      && Decode(data).Some?
      && CanonicalValues(length - Decode(data).value.size, data[Decode(data).value.size..])
  }

  /** Printing a parsed tree reproduces the octets it came from exactly when every
      length field was minimal and none was the lone octet 80. */
  lemma {:induction false} CanonicalIff(data: seq<byte>)
    requires Decode(data).Some?
    ensures var Parsed(t, size) := Decode(data).value;
            Encode(t) == data[..size] <==> Canonical(data)
    decreases |data|, 0
  {
    var Parsed(t, size) := Decode(data).value;
    var n := |t.tag|;
    var rest := data[n..];
    var Length(length, k) := DecodeLength(rest).value;
    var body := rest[k..];
    LengthShortest(rest);
    assert data[n + k..] == body;
    ContentSize(t, length, body);
    if t.typ.Constructed? { CanonicalValuesIff(length, body); }
    LengthOctetsMonotone(|Content(t)|, length);
    FieldsAgree(data, n, k, size, t.tag, LengthOctets(|Content(t)|), Content(t));
  }

  lemma {:induction false} FieldsAgree(data: seq<byte>, n: nat, k: nat, size: nat, tag: seq<byte>, field: seq<byte>,
                                       content: seq<byte>)
    requires n + k <= size <= |data| && tag == data[..n] && |field| <= k && |content| <= size - n - k
    ensures tag + field + content == data[..size]
       <==> field == data[n..][..k] && content == data[n..][k..][..size - n - k]
  {
    var field', content' := data[n..][..k], data[n..][k..][..size - n - k];
    assert data[..size] == tag + (field' + content');
    Associative(tag, field, content);
    SameFields(tag, field, content, field', content');
  }

  lemma {:induction false} ContentSize(t: Tlv, length: nat, body: seq<byte>)
    requires DecodeContent(TagOf(t), length, body) == Some(t)
    ensures if t.typ.Constructed? then DecodeValues(length, body) == Some(t.values) && |Content(t)| <= length
            else Content(t) == body[..length]
  {
    if t.typ.Constructed? { DecodedValuesAreWellFormed(length, body); }
  }

  /** Two concatenations agree part by part when no part of the first is longer. */
  lemma {:induction false} SameFields(a: seq<byte>, b: seq<byte>, c: seq<byte>, b': seq<byte>, c': seq<byte>)
    requires |b| <= |b'| && |c| <= |c'|
    ensures a + (b + c) == a + (b' + c') <==> b == b' && c == c'
  {
    if a + (b + c) == a + (b' + c') {
      Dropped(a, b + c);
      Dropped(a, b' + c');
      Dropped(b, c);
      Dropped(b', c');
      assert |b| + |c| == |b'| + |c'|;
    }
  }

  lemma {:induction false} CanonicalValuesIff(length: int, data: seq<byte>)
    requires DecodeValues(length, data).Some?
    ensures EncodeAll(DecodeValues(length, data).value) == data[..length] <==> CanonicalValues(length, data)
    decreases |data|, 1
  {
    if length > 0 {
      var first, others := DecodeValuesParts(length, data);
      var Parsed(t, size) := first;
      var behind := data[size..];
      CanonicalIff(data);
      CanonicalValuesIff(length - size, behind);
      DecodedIsWellFormed(data);
      DecodedValuesAreWellFormed(length - size, behind);
      SiblingsAgree(t, others, data, size, length);
    }
  }

  lemma {:induction false} SiblingsAgree(t: Tlv, others: seq<Tlv>, data: seq<byte>, size: nat, length: nat)
    requires |Encode(t)| <= size <= length <= |data| && |EncodeAll(others)| <= length - size
    ensures EncodeAll([t] + others) == data[..length]
       <==> Encode(t) == data[..size] && EncodeAll(others) == data[size..][..length - size]
  {
    var first, rest := Encode(t), EncodeAll(others);
    EncodeAllCons(t, others);
    assert data[..length] == data[..size] + data[size..][..length - size];
    SameFields([], first, rest, data[..size], data[size..][..length - size]);
    assert [] + (first + rest) == first + rest;
    assert [] + (data[..size] + data[size..][..length - size]) == data[..size] + data[size..][..length - size];
  }

  /** A length field of the one octet 80 is accepted as zero and printed as 00. */
  lemma {:induction false} LoneLengthOctet()
    ensures Decode([0x84, 0x80]) == Some(Parsed(Tlv(ContextSpecific, Primitive, 4, [0x84], [], []), 2))
    ensures Encode(Tlv(ContextSpecific, Primitive, 4, [0x84], [], [])) == [0x84, 0x00]
  {
    var data: seq<byte> := [0x84, 0x80];
    assert data[..1] == [0x84] && data[1..] == [0x80];
    assert data[2..] == [];
    assert BigEndian([]) == 0;
    assert [0x80][1..1] == [];
  }
}
