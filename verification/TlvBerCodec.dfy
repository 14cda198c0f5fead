/** The imperative codec: growing buffers, advancing offsets, and the builder. */
module TlvBerCodec {
  import opened Bytes
  import opened TlvBer

  datatype ParseResult = Succeeded | Failed

  const EMPTY_TLV: Tlv := Tlv(Invalid, Primitive, 0, [], [], [])

  /** Pushes the octets of the length least significant first, then the count, then reverses. */
  method GetLengthEncoding(length: nat) returns (encoding: seq<byte>)
    ensures encoding == LengthOctets(length)
  {
    if length <= 0x7F {
      return [length];
    }
    var numBytes: int, octets: seq<byte>, rest := 0, [], length;
    while rest > 0
      invariant numBytes == |octets|
      invariant Digits(length) == Digits(rest) + Reversed(octets)
    {
      ReversedSnoc(octets, rest % 256);
      octets := octets + [rest % 256];
      rest := rest / 256;
      numBytes := numBytes + 1;
    }
    ReversedSnoc(octets, 0x80 + numBytes % 0x80);
    encoding := Reversed(octets + [0x80 + numBytes % 0x80]);
  }

  lemma {:induction false} EncodeAllSnoc(ts: seq<Tlv>, t: Tlv)
    ensures EncodeAll(ts + [t]) == EncodeAll(ts) + Encode(t)
  {
    if ts == [] {
      assert [] + [t] == [t] + [];
      EncodeAllCons(t, []);
    } else {
      var first, others := ts[0], ts[1..];
      EncodeAllSnoc(others, t);
      assert ts + [t] == [first] + (others + [t]);
      EncodeAllCons(first, others + [t]);
      Associative(Encode(first), EncodeAll(others), Encode(t));
    }
  }

  method ToBytes(t: Tlv) returns (bytes: seq<byte>)
    ensures bytes == Encode(t)
    decreases t
  {
    var value: seq<byte> := [];
    if t.typ.Primitive? {
      value := t.value;
    } else {
      for i := 0 to |t.values|
        invariant value == EncodeAll(t.values[..i])
      {
        var data := ToBytes(t.values[i]);
        EncodeAllSnoc(t.values[..i], t.values[i]);
        assert t.values[..i + 1] == t.values[..i] + [t.values[i]];
        value := value + data;
      }
      assert t.values[..|t.values|] == t.values;
    }
    var lengthEncoding := GetLengthEncoding(|value|);
    bytes := t.tag;
    bytes := bytes + lengthEncoding;
    bytes := bytes + value;
  }

  method ParseLength(data: seq<byte>) returns (result: ParseResult, length: nat, size: nat)
    ensures match DecodeLength(data)
            case None => result == Failed
            case Some(field) => result == Succeeded && length == field.length && size == field.size
  {
    length, size := 0, 0;
    if data == [] {
      return Failed, length, size;
    }
    if data[0] < 0x80 {
      return Succeeded, data[0], 1;
    }
    var following := data[0] - 0x80;
    if following >= 5 {
      return Failed, length, size;
    }
    for i := 0 to following
      invariant 1 + i <= |data|
      invariant length == BigEndian(data[1..1 + i])
    {
      if 1 + i == |data| {
        return Failed, length, size;
      }
      assert data[1..2 + i][..i] == data[1..1 + i];
      length := length * 256 + data[1 + i];
    }
    return Succeeded, length, 1 + following;
  }

  method Parse(data: seq<byte>) returns (result: ParseResult, tlv: Tlv, size: nat)
    ensures match Decode(data)
            case None => result == Failed
            case Some(parsed) => result == Succeeded && tlv == parsed.tlv && size == parsed.size
    decreases |data|, 0
  {
    hide DecodeTag, DecodeLength, DecodeValues;
    tlv, size := EMPTY_TLV, 0;
    var tag := DecodeTag(data);
    if tag.None? {
      return Failed, tlv, size;
    }
    var Tag(cls, typ, number, octets) := tag.value;
    var offset := |octets|;
    var r, length, bytesParsed := ParseLength(data[offset..]);
    if r == Failed {
      return Failed, tlv, size;
    }
    assert data[offset..][bytesParsed..] == data[offset + bytesParsed..];
    offset := offset + bytesParsed;
    var subspan := data[offset..];
    assert Decode(data) == match DecodeContent(tag.value, length, subspan)
                           case None => None
                           case Some(t) => Some(Parsed(t, offset + length));
    if typ == Constructed {
      var values;
      r, values, bytesParsed := ParseConstructedValue(length, subspan);
      if r == Failed {
        return Failed, tlv, size;
      }
      tlv := Tlv(cls, typ, number, octets, [], values);
    } else {
      if |subspan| < length {
        return Failed, tlv, size;
      }
      bytesParsed := length;
      tlv := Tlv(cls, typ, number, octets, subspan[..length], []);
    }
    return Succeeded, tlv, offset + bytesParsed;
  }

  function Prepend(front: seq<Tlv>, r: Option<seq<Tlv>>): Option<seq<Tlv>> {
    match r
    case None => None
    case Some(others) => Some(front + others)
  }

  lemma {:induction false} PrependNothing(r: Option<seq<Tlv>>)
    ensures Prepend([], r) == r
  {
    if r.Some? { assert [] + r.value == r.value; }
  }

  lemma {:induction false} PrependTwice(front: seq<Tlv>, t: Tlv, r: Option<seq<Tlv>>)
    ensures Prepend(front, Prepend([t], r)) == Prepend(front + [t], r)
  {
    if r.Some? { assert front + ([t] + r.value) == front + [t] + r.value; }
  }

  /** One child, then the rest: how the list parser resumes. */
  lemma {:induction false} DecodeValuesUnfolded(length: nat, data: seq<byte>)
    requires length > 0
    ensures DecodeValues(length, data)
         == match Decode(data)
            case None => None
            case Some(first) => Prepend([first.tlv], DecodeValues(length - first.size, data[first.size..]))
  {
  }

  lemma {:induction false} DecodeValuesEnd(length: int, data: seq<byte>)
    requires length <= 0
    ensures DecodeValues(length, data) == if length == 0 then Some([]) else None
  {
  }

  /** The list parser, having read `front` from the first `done` octets, reads one more child. */
  lemma {:induction false} ResumeStep(length: nat, data: seq<byte>, front: seq<Tlv>, done: nat)
    requires done <= |data| && done < length
    ensures match Decode(data[done..])
            case None => DecodeValues(length - done, data[done..]) == None
            case Some(child) =>
              && done + child.size <= |data|
              && Prepend(front, DecodeValues(length - done, data[done..]))
                 == Prepend(front + [child.tlv], DecodeValues(length - (done + child.size), data[done + child.size..]))
  {
    hide Decode, DecodeValues;
    var rest := data[done..];
    DecodeValuesUnfolded(length - done, rest);
    if Decode(rest).Some? {
      var Parsed(child, n) := Decode(rest).value;
      assert rest[n..] == data[done + n..];
      PrependTwice(front, child, DecodeValues(length - done - n, rest[n..]));
    }
  }

  method ParseConstructedValue(length: nat, data: seq<byte>) returns (result: ParseResult, values: seq<Tlv>, size: nat)
    ensures match DecodeValues(length, data)
            case None => result == Failed
            case Some(children) => result == Succeeded && values == children && size == length
    decreases |data|, 1
  {
    hide DecodeValues, Decode;
    values, size := [], 0;
    ghost var outcome := DecodeValues(length, data);
    assert data[0..] == data;
    PrependNothing(outcome);
    while size < length
      invariant size <= |data|
      invariant outcome == Prepend(values, DecodeValues(length - size, data[size..]))
      decreases |data| - size
    {
      ResumeStep(length, data, values, size);
      var r, child, bytesParsed := Parse(data[size..]);
      if r == Failed {
        return Failed, values, size;
      }
      size := size + bytesParsed;
      values := values + [child];
    }
    DecodeValuesEnd(length - size, data[size..]);
    if size == length {
      assert values + [] == values;
      result := Succeeded;
    } else {
      result := Failed;
    }
  }
}
