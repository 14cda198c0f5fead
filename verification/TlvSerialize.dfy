/** Sets of enumerators as bit maps, and the octets they are written in. */
module TlvSerialize {
  import opened Bytes

  /** Bits of a 64-bit size_t. */
  const WORD_BITS: nat := 64

  /** Octets of one; a number this long is not read at all. */
  const WORD_OCTETS: nat := 8

  function Pow2(k: nat): (p: nat)
    ensures p >= 1
  {
    if k == 0 then 1 else 2 * Pow2(k - 1)
  }

  /** n & (1 << i) is not zero. */
  predicate TestBit(n: nat, i: nat) {
    if i == 0 then n % 2 == 1 else TestBit(n / 2, i - 1)
  }

  /** n | (1 << i). */
  function WithBit(n: nat, i: nat): nat {
    if i == 0 then n / 2 * 2 + 1 else 2 * WithBit(n / 2, i - 1) + n % 2
  }

  function BitMask(i: nat): nat {
    if i >= WORD_BITS then 0 else Pow2(i)
  }

  lemma {:induction false} TestWithBit(n: nat, i: nat, j: nat)
    ensures TestBit(WithBit(n, i), j) <==> i == j || TestBit(n, j)
  {
    if i > 0 && j > 0 {
      TestWithBit(n / 2, i - 1, j - 1);
    }
  }

  lemma {:induction false} WithBitBound(n: nat, i: nat, k: nat)
    requires n < Pow2(k) && i < k
    ensures WithBit(n, i) < Pow2(k)
  {
    assert Pow2(k) == 2 * Pow2(k - 1);
    hide Pow2;
    Halves(n, Pow2(k - 1));
    if i > 0 {
      WithBitBound(n / 2, i - 1, k - 1);
      assert WithBit(n, i) == 2 * WithBit(n / 2, i - 1) + n % 2;
      hide WithBit;
    }
  }

  lemma {:induction false} Halves(n: nat, p: nat)
    requires n < 2 * p
    ensures n / 2 < p && n == 2 * (n / 2) + n % 2
  {
  }

  lemma {:induction false} ZeroHasNoBit(j: nat)
    ensures !TestBit(0, j)
  {
    if j > 0 {
      ZeroHasNoBit(j - 1);
    }
  }

  lemma {:induction false} MaskIsWithBit(i: nat)
    ensures WithBit(0, i) == Pow2(i)
  {
    if i > 0 {
      MaskIsWithBit(i - 1);
    }
  }

  /** The mask of a bit has that bit and no other. */
  lemma {:induction false} MaskHasOneBit(i: nat, j: nat)
    ensures TestBit(Pow2(i), j) <==> i == j
  {
    MaskIsWithBit(i);
    TestWithBit(0, i, j);
    ZeroHasNoBit(j);
  }

  /** Past the last bit of a word there is no mask. */
  lemma {:induction false} NoMaskPast(i: nat)
    ensures BitMask(i) == 0 <==> i >= 64
  {
  }

  /** Different bits have different masks, so a mask gives its index back. */
  lemma {:induction false} MasksDiffer(i: nat, j: nat)
    requires i < WORD_BITS && j < WORD_BITS && BitMask(i) == BitMask(j)
    ensures i == j
  {
    MaskHasOneBit(i, i);
    MaskHasOneBit(j, i);
  }

  lemma {:induction false} BitsOfOctets(k: nat)
    ensures Pow2(8 * k) == Pow256(k)
  {
    if k > 0 {
      BitsOfOctets(k - 1);
      var m := 8 * k;
      assert Pow2(m) == 2 * Pow2(m - 1) && Pow2(m - 1) == 2 * Pow2(m - 2);
      assert Pow2(m - 2) == 2 * Pow2(m - 3) && Pow2(m - 3) == 2 * Pow2(m - 4);
      assert Pow2(m - 4) == 2 * Pow2(m - 5) && Pow2(m - 5) == 2 * Pow2(m - 6);
      assert Pow2(m - 6) == 2 * Pow2(m - 7) && Pow2(m - 7) == 2 * Pow2(m - 8);
    }
  }

  /** Cutting a number off at k bits keeps the bits below k. */
  lemma {:induction false} TestCutOff(n: nat, k: nat, i: nat)
    ensures TestBit(n % Pow2(k), i) <==> i < k && TestBit(n, i)
  {
    if k == 0 {
      ZeroHasNoBit(i);
    } else {
      HalfOfCutOff(n, Pow2(k - 1));
      if i > 0 {
        TestCutOff(n / 2, k - 1, i - 1);
      }
    }
  }

  lemma {:induction false} HalfOfCutOff(n: nat, p: nat)
    requires p >= 1
    ensures n % (2 * p) / 2 == n / 2 % p && n % (2 * p) % 2 == n % 2
  {
    var q, r := n / 2 / p, n / 2 % p;
    assert n / 2 == p * q + r;
    assert n == (2 * p) * q + (2 * r + n % 2) by {
      assert (2 * p) * q == 2 * (p * q);
    }
    RemainderIs(n, 2 * p, q, 2 * r + n % 2);
  }

  lemma {:induction false} NoHigherBit(n: nat, i: nat)
    requires n < Pow2(i)
    ensures !TestBit(n, i)
  {
    if i > 0 {
      NoHigherBit(n / 2, i - 1);
    }
  }

  /** Big-endian octets, most significant ones cut off; no more than a word has. */
  function BitMapOctets(n: nat, length: nat): Option<seq<byte>> {
    if length > WORD_OCTETS then None else Some(Octets(n, length))
  }

  /** Reads a number of fewer octets than a word has; a longer one reads as 0. */
  function ReadSizeT(octets: seq<byte>): nat {
    if |octets| >= WORD_OCTETS then 0 else BigEndian(octets)
  }

  lemma {:induction false} ReadBack(n: nat, k: nat)
    requires k < WORD_OCTETS && n < Pow256(k)
    ensures ReadSizeT(Octets(n, k)) == n
  {
    BigEndianOctets(n, k);
    SmallRemainder(n, Pow256(k));
  }

  // ---- Bit maps

  type BitIndex = i: nat | i < WORD_BITS

  datatype Entry<T> = Entry(key: T, bit: BitIndex)

  /** A map from keys to bit indexes, in the order in which it is iterated. */
  ghost predicate IsBitMap<T(!new)>(m: seq<Entry<T>>) {
    forall i, j :: 0 <= i < j < |m| ==> m[i].key != m[j].key && m[i].bit != m[j].bit
  }

  function BitOf<T(==)>(m: seq<Entry<T>>, key: T): (r: Option<nat>)
    ensures r.Some? ==> r.value < WORD_BITS
  {
    if m == [] then None
    else
      var k := |m| - 1;
      if m[k].key == key then Some(m[k].bit) else BitOf(m[..k], key)
  }

  /** The bits of the values, in any order and any number of times; none if one has no bit. */
  function MaskOf<T(==)>(values: seq<T>, m: seq<Entry<T>>): Option<nat> {
    if values == [] then Some(0)
    else
      var k := |values| - 1;
      match (MaskOf(values[..k], m), BitOf(m, values[k]))
      case (Some(n), Some(bit)) => Some(WithBit(n, bit))
      case _ => None
  }

  /** The low octets of the mask: bits that do not fit are cut off. None stands for the
      exceptions of a value without a bit, and of more octets than a word has. */
  function EncodedValues<T(==)>(values: seq<T>, m: seq<Entry<T>>, length: nat): Option<seq<byte>> {
    match MaskOf(values, m)
    case None => None
    case Some(n) => BitMapOctets(n, length)
  }

  /** The keys whose bit is set, in the order of the map. */
  function KeysIn<T>(n: nat, m: seq<Entry<T>>): seq<T> {
    if m == [] then []
    else
      var k := |m| - 1;
      KeysIn(n, m[..k]) + (if TestBit(n, m[k].bit) then [m[k].key] else [])
  }

  function DecodedValues<T>(m: seq<Entry<T>>, octets: seq<byte>): seq<T> {
    KeysIn(ReadSizeT(octets), m)
  }

  /** Equal as sets: each is a subset of the other. */
  predicate UnorderedEquals<T(==)>(xs: seq<T>, ys: seq<T>) {
    (forall x <- xs :: x in ys) && (forall y <- ys :: y in xs)
  }

  predicate HasKeys<T(==)>(values: seq<T>, m: seq<Entry<T>>) {
    forall v <- values :: BitOf(m, v).Some?
  }

  predicate BitsBelow<T(==)>(m: seq<Entry<T>>, k: nat) {
    forall e <- m :: e.bit < k
  }

  lemma {:induction false} BitOfIsEntry<T>(m: seq<Entry<T>>, key: T)
    ensures BitOf(m, key).Some? ==> Entry(key, BitOf(m, key).value) in m
    ensures BitOf(m, key).None? ==> forall e <- m :: e.key != key
  {
    if m != [] {
      var k := |m| - 1;
      BitOfIsEntry(m[..k], key);
      assert m == m[..k] + [m[k]];
    }
  }

  lemma {:induction false} SameEntry<T(!new)>(m: seq<Entry<T>>, a: Entry<T>, b: Entry<T>)
    requires IsBitMap(m) && a in m && b in m && (a.key == b.key || a.bit == b.bit)
    ensures a == b
  {
    var i :| 0 <= i < |m| && m[i] == a;
    var j :| 0 <= j < |m| && m[j] == b;
    assert i == j;
  }

  /** There is a mask exactly when every value has a bit. */
  lemma {:induction false} MaskExists<T>(values: seq<T>, m: seq<Entry<T>>)
    ensures MaskOf(values, m).Some? <==> HasKeys(values, m)
  {
    if values != [] {
      var k := |values| - 1;
      MaskExists(values[..k], m);
      assert values == values[..k] + [values[k]];
    }
  }

  predicate SomeHasBit<T(==)>(values: seq<T>, m: seq<Entry<T>>, i: nat) {
    exists v <- values :: BitOf(m, v) == Some(i)
  }

  lemma {:induction false} OneMoreHasBit<T>(values: seq<T>, m: seq<Entry<T>>, i: nat)
    requires values != []
    ensures SomeHasBit(values, m, i)
       <==> SomeHasBit(values[..|values| - 1], m, i) || BitOf(m, values[|values| - 1]) == Some(i)
  {
    hide BitOf;
    var k := |values| - 1;
    assert values == values[..k] + [values[k]];
    if SomeHasBit(values, m, i) {
      var v :| v in values && BitOf(m, v) == Some(i);
      assert v in values[..k] || v == values[k];
    }
    if BitOf(m, values[k]) == Some(i) {
      assert values[k] in values;
    }
  }

  /** A bit of the mask is set exactly when one of the values has it. */
  lemma {:induction false} MaskBits<T>(values: seq<T>, m: seq<Entry<T>>, i: nat)
    requires MaskOf(values, m).Some?
    ensures TestBit(MaskOf(values, m).value, i) <==> SomeHasBit(values, m, i)
  {
    if values == [] {
      ZeroHasNoBit(i);
    } else {
      var k := |values| - 1;
      MaskBits(values[..k], m, i);
      OneMoreHasBit(values, m, i);
      TestWithBit(MaskOf(values[..k], m).value, BitOf(m, values[k]).value, i);
      hide TestBit, WithBit, SomeHasBit, BitOf;
    }
  }

  lemma {:induction false} MaskBound<T>(values: seq<T>, m: seq<Entry<T>>, k: nat)
    requires MaskOf(values, m).Some? && BitsBelow(m, k)
    ensures MaskOf(values, m).value < Pow2(k)
  {
    if values != [] {
      var j := |values| - 1;
      MaskBound(values[..j], m, k);
      BitOfIsEntry(m, values[j]);
      WithBitBound(MaskOf(values[..j], m).value, BitOf(m, values[j]).value, k);
    }
  }

  lemma {:induction false} KeysInExactly<T>(n: nat, m: seq<Entry<T>>, v: T)
    ensures v in KeysIn(n, m) <==> exists e <- m :: e.key == v && TestBit(n, e.bit)
  {
    if m != [] {
      var k := |m| - 1;
      KeysInExactly(n, m[..k], v);
      assert m == m[..k] + [m[k]];
      hide TestBit;
    }
  }

  /** The keys that a mask of values decodes to are the values, whatever their order and
      number, and whatever the order of the map. */
  lemma {:induction false} KeysOfMask<T(!new)>(values: seq<T>, m: seq<Entry<T>>)
    requires IsBitMap(m) && MaskOf(values, m).Some?
    ensures UnorderedEquals(values, KeysIn(MaskOf(values, m).value, m))
  {
    var n := MaskOf(values, m).value;
    MaskExists(values, m);
    hide MaskOf, KeysIn, TestBit, IsBitMap, BitOf;
    forall v <- values ensures v in KeysIn(n, m) {
      BitOfIsEntry(m, v);
      MaskBits(values, m, BitOf(m, v).value);
      KeysInExactly(n, m, v);
    }
    forall v <- KeysIn(n, m) ensures v in values {
      KeyHasValue(values, m, v);
    }
  }

  lemma {:induction false} KeyHasValue<T(!new)>(values: seq<T>, m: seq<Entry<T>>, v: T)
    requires IsBitMap(m) && MaskOf(values, m).Some? && v in KeysIn(MaskOf(values, m).value, m)
    ensures v in values
  {
    var n := MaskOf(values, m).value;
    KeysInExactly(n, m, v);
    var e :| e in m && e.key == v && TestBit(n, e.bit);
    MaskBits(values, m, e.bit);
    assert SomeHasBit(values, m, e.bit);
    var u :| u in values && BitOf(m, u) == Some(e.bit);
    BitOfIsEntry(m, u);
    SameEntry(m, e, Entry(u, e.bit));
  }

  lemma {:induction false} NoKeysInZero<T>(m: seq<Entry<T>>)
    ensures KeysIn(0, m) == []
  {
    if m != [] {
      NoKeysInZero(m[..|m| - 1]);
      ZeroHasNoBit(m[|m| - 1].bit);
    }
  }

  /** What reading the encoded octets gives: the mask, cut off at the octets there are. */
  lemma {:induction false} ReadCutOff(n: nat, length: nat)
    ensures ReadSizeT(Octets(n, length)) == if length < WORD_OCTETS then n % Pow2(8 * length) else 0
  {
    BitsOfOctets(length);
    BigEndianOctets(n, length);
  }

  /** Whether every value has its bit within the octets. */
  predicate Fit<T(==)>(values: seq<T>, m: seq<Entry<T>>, length: nat)
    requires HasKeys(values, m)
  {
    forall v <- values :: BitOf(m, v).value < 8 * length
  }

  /** A key is decoded when some value has its bit and the bit fits. */
  lemma {:induction false} DecodedCutOff<T(!new)>(values: seq<T>, m: seq<Entry<T>>, k: nat, v: T)
    requires IsBitMap(m) && HasKeys(values, m)
    ensures MaskOf(values, m).Some?
    ensures v in KeysIn(MaskOf(values, m).value % Pow2(k), m) <==> v in values && BitOf(m, v).value < k
  {
    MaskExists(values, m);
    var n := MaskOf(values, m).value;
    KeysInExactly(n % Pow2(k), m, v);
    if v in values {
      BitOfIsEntry(m, v);
      var e := Entry(v, BitOf(m, v).value);
      MaskBits(values, m, e.bit);
      TestCutOff(n, k, e.bit);
      hide TestBit, IsBitMap, MaskOf, BitOf;
      forall f <- m | f.key == v ensures f == e {
        SameEntry(m, e, f);
      }
    } else {
      CutOffKeyHasValue(values, m, k, v);
    }
  }

  lemma {:induction false} CutOffKeyHasValue<T(!new)>(values: seq<T>, m: seq<Entry<T>>, k: nat, v: T)
    requires IsBitMap(m) && MaskOf(values, m).Some? && v !in values
    ensures v !in KeysIn(MaskOf(values, m).value % Pow2(k), m)
  {
    var n := MaskOf(values, m).value;
    hide *;
    KeysInExactly(n % Pow2(k), m, v);
    if v in KeysIn(n % Pow2(k), m) {
      var e :| e in m && e.key == v && TestBit(n % Pow2(k), e.bit);
      TestCutOff(n, k, e.bit);
      KeysInExactly(n, m, v);
      KeyHasValue(values, m, v);
    }
  }

  /** Encoding values and decoding the octets gives the same values, as a set, exactly when
      there are none, or there are fewer octets than a word has and the bit of every value
      fits: other bits are cut off, and a number as long as a word is not read at all. */
  lemma {:induction false} ValuesRoundTripIff<T(!new)>(values: seq<T>, m: seq<Entry<T>>, length: nat)
    requires IsBitMap(m)
    ensures EncodedValues(values, m, length).Some? <==> HasKeys(values, m) && length <= WORD_OCTETS
    ensures EncodedValues(values, m, length).Some? ==>
              (UnorderedEquals(values, DecodedValues(m, EncodedValues(values, m, length).value))
               <==> values == [] || (length < WORD_OCTETS && Fit(values, m, length)))
  {
    MaskExists(values, m);
    if HasKeys(values, m) && length <= WORD_OCTETS {
      var n := MaskOf(values, m).value;
      ReadCutOff(n, length);
      NoKeysInZero(m);
      if values == [] { ZeroCutOff(8 * length); }
      hide IsBitMap, MaskOf, KeysIn, BitOf, Octets, ReadSizeT;
      if values != [] {
        assert values[0] in values;
        if length < WORD_OCTETS {
          forall v ensures v in KeysIn(n % Pow2(8 * length), m) <==> v in values && BitOf(m, v).value < 8 * length {
            DecodedCutOff(values, m, 8 * length, v);
          }
        }
      }
    }
  }

  /** A value whose bit is cut off is lost. */
  lemma {:induction false} CutOffLoses()
    ensures var m := [Entry('a', 0), Entry('b', 9)];
            && EncodedValues(['b'], m, 1) == Some([0])
            && DecodedValues(m, [0]) == []
  {
    var m := [Entry('a', 0), Entry('b', 9)];
    assert BitOf(m, 'b') == Some(9);
    assert ['b'][..0] == [];
    assert MaskOf(['b'], m) == Some(WithBit(0, 9));
    MaskIsWithBit(9);
    assert Pow2(9) == 512 by { assert Pow2(4) == 16; assert Pow2(8) == 256; }
    assert Octets(512, 1) == [0] by { assert Octets(2, 0) == []; }
    assert BigEndian([0]) == 0 by { assert [0][..0] == []; }
    NoKeysInZero(m);
  }

  lemma {:induction false} ZeroCutOff(k: nat)
    ensures 0 % Pow2(k) == 0
  {
    SmallRemainder(0, Pow2(k));
  }

  /** A bit that no key has makes no difference. */
  lemma {:induction false} OtherBitIgnored<T>(n: nat, b: nat, m: seq<Entry<T>>)
    requires BitsBelow(m, b)
    ensures KeysIn(WithBit(n, b), m) == KeysIn(n, m)
  {
    if m != [] {
      var k := |m| - 1;
      assert m[k] in m;
      OtherBitIgnored(n, b, m[..k]);
      TestWithBit(n, b, m[k].bit);
      hide TestBit, WithBit;
    }
  }

  /** Each key once. */
  lemma {:induction false} DecodedDistinct<T(!new)>(n: nat, m: seq<Entry<T>>)
    requires IsBitMap(m)
    ensures var r := KeysIn(n, m); forall i, j :: 0 <= i < j < |r| ==> r[i] != r[j]
  {
    if m != [] {
      var k := |m| - 1;
      var front := KeysIn(n, m[..k]);
      DecodedDistinct(n, m[..k]);
      forall i | 0 <= i < |front| ensures front[i] != m[k].key {
        KeysInExactly(n, m[..k], front[i]);
        var e :| e in m[..k] && e.key == front[i];
        var j :| 0 <= j < k && m[..k][j] == e;
      }
    }
  }
}
