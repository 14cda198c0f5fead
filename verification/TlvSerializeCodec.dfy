/** The loops of the bit-map serializer. */
module TlvSerializeCodec {
  import opened Bytes
  import opened TlvSerialize

  /** None stands for the exception: the mask is not one bit of a word. */
  method GetBitIndexFromBitMask(mask: nat) returns (index: Option<nat>)
    ensures index.Some? ==> index.value < WORD_BITS && BitMask(index.value) == mask
    ensures index.None? ==> forall i :: 0 <= i < WORD_BITS ==> BitMask(i) != mask
    ensures forall i :: 0 <= i < WORD_BITS && mask == BitMask(i) ==> index == Some(i)
  {
    forall i, j | 0 <= i < WORD_BITS && 0 <= j < WORD_BITS && BitMask(i) == BitMask(j) ensures i == j {
      MasksDiffer(i, j);
    }
    for i := 0 to WORD_BITS
      invariant forall j :: 0 <= j < i ==> BitMask(j) != mask
    {
      if mask == BitMask(i) {
        return Some(i);
      }
    }
    return None;
  }

  method ReadSizeTFromBytesBigEndian(octets: seq<byte>) returns (n: nat)
    ensures n == ReadSizeT(octets)
  {
    n := 0;
    if |octets| >= WORD_OCTETS {
      return;
    }
    for i := 0 to |octets|
      invariant n == BigEndian(octets[..i])
    {
      assert octets[..i + 1][..i] == octets[..i];
      n := n * 0x100;
      n := n + octets[i];
    }
    assert octets[..|octets|] == octets;
  }

  /** Big-endian octets of a bit map, or none when more than eight are asked for. */
  method GetBytesBigEndianFromBitMap(value: nat, desiredLength: nat) returns (bytes: Option<seq<byte>>)
    ensures bytes == BitMapOctets(value, desiredLength)
  {
    if desiredLength > WORD_OCTETS {
      return None;
    }
    var octets: seq<byte>, rest := [], value;
    for i := 0 to desiredLength
      invariant |octets| == i
      invariant Octets(value, desiredLength) == Octets(rest, desiredLength - i) + Reversed(octets)
    {
      ReversedSnoc(octets, rest % 256);
      octets := octets + [rest % 256];
      rest := rest / 256;
    }
    assert Octets(value, desiredLength) == Reversed(octets);
    bytes := Some(Reversed(octets));
  }

  /** None stands for the exceptions of a value without a bit, and of too many octets. */
  method EncodeValuesAsBytes<T(==)>(values: seq<T>, m: seq<Entry<T>>, length: nat) returns (octets: Option<seq<byte>>)
    ensures octets == EncodedValues(values, m, length)
  {
    var encoded := 0;
    for i := 0 to |values|
      invariant MaskOf(values[..i], m) == Some(encoded)
    {
      assert values[..i + 1][..i] == values[..i];
      var bit := BitOf(m, values[i]);
      if bit.None? {
        MaskExists(values[..i + 1], m);
        MaskExists(values, m);
        return None;
      }
      encoded := WithBit(encoded, bit.value);
    }
    assert values[..|values|] == values;
    octets := GetBytesBigEndianFromBitMap(encoded, length);
  }

  method AssignValuesFromBytes<T>(m: seq<Entry<T>>, octets: seq<byte>) returns (assignee: seq<T>)
    ensures assignee == DecodedValues(m, octets)
  {
    var bits := ReadSizeTFromBytesBigEndian(octets);
    assignee := [];
    for i := 0 to |m|
      invariant assignee == KeysIn(bits, m[..i])
    {
      assert m[..i + 1][..i] == m[..i];
      if TestBit(bits, m[i].bit) {
        assignee := assignee + [m[i].key];
      }
    }
    assert m[..|m|] == m;
  }
}
