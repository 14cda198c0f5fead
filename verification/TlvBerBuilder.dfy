/** The builder that fills in a tree field by field. */
module TlvBerBuilder {
  import opened Bytes
  import opened TlvBer
  import opened TlvBerCodec

  /** Reading identifier octets into fields that may already be in use: octets are
      appended to the tag as they are read, and a malformed tag leaves what was read. */
  function TagRead(t: Tlv, octets: seq<byte>): Tlv {
    if octets == [] then t
    else
      var b := octets[0];
      var first := t.(cls := ClassOf(b), typ := TypeOf(b), tag := t.tag + [b]);
      if b % 32 != 31 then first.(number := b % 32)
      else if |octets| < 2 || octets[1] < 0x1F then first
      else
        var second := first.(number := octets[1] % 0x80, tag := first.tag + [octets[1]]);
        if octets[1] < 0x80 || |octets| < 3 || octets[2] >= 0x80 then second
        else second.(number := second.number * 256 + octets[2], tag := second.tag + [octets[2]])
  }

  /** The builder refuses a constructed tag with data, and a primitive one with children. */
  predicate Mismatched(t: Tlv) {
    || (t.typ.Constructed? && t.value != [])
    || (t.typ.Primitive? && t.values != [])
  }

  /** None stands for the exception thrown on a mismatched tag. */
  function Built(t: Tlv): Option<Tlv> {
    if Mismatched(t) then None else Some(t)
  }

  function AfterBuild(t: Tlv): Tlv {
    if Mismatched(t) || t.typ.Primitive? then t else t.(values := [])
  }

  class Builder {
    var cls: Class
    var typ: Type
    var number: nat
    var tag: seq<byte>
    var data: seq<byte>
    var values: seq<Tlv>

    ghost function Fields(): Tlv
      reads this
    {
      Tlv(cls, typ, number, tag, data, values)
    }

    constructor ()
      ensures Fields() == EMPTY_TLV
    {
      cls, typ, number, tag, data, values := Invalid, Primitive, 0, [], [], [];
    }

    method SetTag(octets: seq<byte>)
      modifies this
      ensures Fields() == TagRead(old(Fields()), octets)
    {
      if octets == [] {
        return;
      }
      cls, typ := ClassOf(octets[0]), TypeOf(octets[0]);
      tag := tag + [octets[0]];
      if octets[0] % 32 != 31 {
        number := octets[0] % 32;
        return;
      }
      if |octets| < 2 || octets[1] < 0x1F {
        return;
      }
      number := octets[1] % 0x80;
      tag := tag + [octets[1]];
      if octets[1] >= 0x80 && |octets| >= 3 && octets[2] < 0x80 {
        number := number * 256 + octets[2];
        tag := tag + [octets[2]];
      }
    }

    method SetValue(value: seq<byte>)
      modifies this
      ensures Fields() == old(Fields()).(value := value)
    {
      data := value;
    }

    method AddTlv(t: Tlv)
      modifies this
      ensures Fields() == old(Fields()).(values := old(values) + [t])
    {
      values := values + [t];
    }

    method SetAsCopyOfTlv(t: Tlv)
      modifies this
      ensures Fields() == t
    {
      cls, typ, number, tag, data, values := t.cls, t.typ, t.number, t.tag, t.value, t.values;
    }

    method Reset()
      modifies this
      ensures Fields() == EMPTY_TLV
    {
      cls, typ, number, tag, data, values := Invalid, Primitive, 0, [], [], [];
    }

    /** The children of a constructed tree are moved into it, out of the builder. */
    method Build() returns (r: Option<Tlv>)
      modifies this`values
      ensures r == Built(old(Fields())) && Fields() == AfterBuild(old(Fields()))
    {
      if (typ == Constructed && data != []) || (typ == Primitive && values != []) {
        return None;
      }
      if typ == Primitive {
        return Some(Tlv(cls, typ, number, tag, data, []));
      }
      var children := values;
      values := [];
      return Some(Tlv(cls, typ, number, tag, [], children));
    }
  }

  /** A tag set once on a fresh builder is well formed exactly when the parser accepts
      the octets given, and then class, type and number are the ones they denote. */
  lemma {:induction false} SetTagOnce(t: Tlv, octets: seq<byte>)
    requires t.tag == []
    ensures var u := TagRead(t, octets);
            && (DecodeTag(u.tag) == Some(TagOf(u)) <==> DecodeTag(octets).Some?)
            && (DecodeTag(octets).Some? ==> DecodeTag(octets) == Some(TagOf(u)))
  {
    var u := TagRead(t, octets);
    if DecodeTag(octets).Some? {
      assert u.tag == DecodeTag(octets).value.octets;
      assert DecodeTag(octets) == Some(TagOf(u));
      hide TagRead, DecodeTag;
      TagPrefix(octets, []);
      assert u.tag + [] == u.tag;
    }
  }

  /** Setting a tag on top of one that is already complete never gives a well-formed tree. */
  lemma {:induction false} SetTagTwice(t: Tlv, octets: seq<byte>)
    requires DecodeTag(t.tag) == Some(TagOf(t)) && octets != []
    ensures !WellFormed(TagRead(t, octets))
  {
    var u := TagRead(t, octets);
    var more := u.tag[|t.tag|..];
    assert more != [] && u.tag == t.tag + more;
    TagPrefix(t.tag, more);
  }

  /** An accepted tag becomes the builder's tag exactly when no octet of an earlier one, be
      it accepted or refused, is left in it. */
  lemma {:induction false} SetTagIff(t: Tlv, octets: seq<byte>)
    requires DecodeTag(octets).Some?
    ensures DecodeTag(octets) == Some(TagOf(TagRead(t, octets))) <==> t.tag == []
  {
    var u := TagRead(t, octets);
    assert u.tag == t.tag + DecodeTag(octets).value.octets;
    if t.tag == [] {
      SetTagOnce(t, octets);
    }
    hide TagRead, DecodeTag;
  }

  ghost predicate NoTagBegins(front: seq<byte>) {
    forall rest :: DecodeTag(front + rest).None?
  }

  /** What refused octets leave behind: as many of them as some accepted tag begins with and
      is longer than, and class and type of the first. */
  lemma {:induction false} RefusedLeaves(t: Tlv, octets: seq<byte>) returns (k: nat, more: seq<byte>)
    requires DecodeTag(octets).None?
    ensures k <= |octets| && TagRead(t, octets).tag == t.tag + octets[..k]
    ensures octets != [] ==> k > 0 && DecodeTag(octets[..k] + more).Some? && |DecodeTag(octets[..k] + more).value.octets| > k
    ensures k < |octets| ==> NoTagBegins(octets[..k + 1])
    ensures octets != [] ==> TagRead(t, octets).cls == ClassOf(octets[0]) && TagRead(t, octets).typ == TypeOf(octets[0])
    ensures TagRead(t, octets).value == t.value && TagRead(t, octets).values == t.values
  {
    k := if octets == [] then 0 else if |octets| < 2 || octets[1] < 0x1F then 1 else 2;
    more := [0x7F];
    assert t.tag + octets[..0] == t.tag;
    if k > 0 {
      assert octets[..k] + more == if k == 1 then [octets[0], 0x7F] else [octets[0], octets[1], 0x7F];
      if k < |octets| {
        var front := octets[..k + 1];
        forall rest ensures DecodeTag(front + rest).None? {
          assert (front + rest)[k] == octets[k] && (front + rest)[0] == octets[0] && (front + rest)[1] == octets[1];
        }
      }
    }
    hide ClassOf, TypeOf;
  }

  /** A refused tag can make the next one well formed, and another than was asked for. */
  lemma {:induction false} RefusedTagStays()
    ensures var t := TagRead(TagRead(EMPTY_TLV, [0x1F, 0x80]), [0x05]);
            && DecodeTag([0x1F, 0x80]) == None
            && t.tag == [0x1F, 0x80, 0x05]
            && DecodeTag(t.tag).Some? && DecodeTag(t.tag).value.octets == t.tag
  {
    assert [0x1F, 0x80, 0x05][..3] == [0x1F, 0x80, 0x05];
  }

  /** A build is refused exactly for a constructed tag with a value and a primitive one with
      children; otherwise it is what was set, and only children of a constructed tag leave. */
  lemma {:induction false} BuiltIff(t: Tlv)
    ensures Built(t) == Some(t) || Built(t) == None
    ensures Built(t) == None
       <==> (t.typ == Constructed && t.value != []) || (t.typ == Primitive && t.values != [])
    ensures AfterBuild(t) == t.(values := AfterBuild(t).values)
    ensures AfterBuild(t).values == if Built(t).Some? && t.typ == Constructed then [] else t.values
  {
  }

  /** Building again without adding to the builder gives the same tree exactly when there
      were no children to move out of it. */
  lemma {:induction false} BuildTwiceIff(t: Tlv)
    ensures Built(AfterBuild(t)) == Built(t) <==> Mismatched(t) || t.typ.Primitive? || t.values == []
  {
  }

  /** The builder's own example: set a tag, add children, build, print, parse. */
  lemma {:induction false} BuildPrintParse(octets: seq<byte>, children: seq<Tlv>, more: seq<byte>)
    requires DecodeTag(octets).Some? && DecodeTag(octets).value.typ.Constructed?
    requires forall c <- children :: WellFormed(c)
    requires |EncodeAll(children)| < LENGTH_LIMIT
    ensures var t := TagRead(EMPTY_TLV, octets).(values := children);
            && !Mismatched(t) && WellFormed(t)
            && Decode(Encode(t) + more) == Some(Parsed(t, |Encode(t)|))
  {
    var t := TagRead(EMPTY_TLV, octets).(values := children);
    SetTagOnce(EMPTY_TLV, octets);
    RoundTrip(t, more);
  }

  lemma {:induction false} BuildPrintParseValue(octets: seq<byte>, value: seq<byte>, more: seq<byte>)
    requires DecodeTag(octets).Some? && DecodeTag(octets).value.typ.Primitive?
    requires |value| < LENGTH_LIMIT
    ensures var t := TagRead(EMPTY_TLV, octets).(value := value);
            && !Mismatched(t) && WellFormed(t)
            && Decode(Encode(t) + more) == Some(Parsed(t, |Encode(t)|))
  {
    var t := TagRead(EMPTY_TLV, octets).(value := value);
    SetTagOnce(EMPTY_TLV, octets);
    RoundTrip(t, more);
  }
}
