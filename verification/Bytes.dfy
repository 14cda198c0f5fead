/** Octets, and unsigned numbers written with them in either byte order. */
module Bytes {
  type byte = b: int | 0 <= b < 256

  const UINT16_LIMIT: nat := 0x1_0000
  const UINT32_LIMIT: nat := 0x1_0000_0000

  datatype Option<T> = None | Some(value: T)

  function Pow256(k: nat): (p: nat)
    ensures p >= 1
  {
    if k == 0 then 1 else 256 * Pow256(k - 1)
  }

  /** The number that a string of octets denotes, most significant octet first. */
  function BigEndian(s: seq<byte>): (n: nat)
  {
    if s == [] then 0 else 256 * BigEndian(s[..|s| - 1]) + s[|s| - 1]
  }

  /** The k least significant octets of n, most significant first. */
  function Octets(n: nat, k: nat): (s: seq<byte>)
    ensures |s| == k
  {
    if k == 0 then [] else Octets(n / 256, k - 1) + [n % 256]
  }

  /** The octets of n without leading zeros, most significant first; none for 0. */
  function Digits(n: nat): (s: seq<byte>)
  {
    if n == 0 then [] else Digits(n / 256) + [n % 256]
  }

  function Reversed<T>(s: seq<T>): (r: seq<T>)
    ensures |r| == |s|
    ensures forall i :: 0 <= i < |s| ==> r[i] == s[|s| - 1 - i]
  {
    if s == [] then [] else Reversed(s[1..]) + [s[0]]
  }

  lemma {:induction false} ReversedSnoc<T>(s: seq<T>, x: T)
    ensures Reversed(s + [x]) == [x] + Reversed(s)
  {
  }

  lemma {:induction false} PowAdd(j: nat, k: nat)
    ensures Pow256(j + k) == Pow256(j) * Pow256(k)
  {
    if j > 0 {
      PowAdd(j - 1, k);
      calc {
        Pow256(j + k);
        256 * Pow256(j - 1 + k);
        256 * (Pow256(j - 1) * Pow256(k));
        Pow256(j) * Pow256(k);
      }
    }
  }

  lemma {:induction false} PowMonotone(j: nat, k: nat)
    requires j <= k
    ensures Pow256(j) <= Pow256(k)
    decreases k - j
  {
    if j < k { PowMonotone(j, k - 1); }
  }

  /** A string of k octets denotes a number below 256^k. */
  lemma {:induction false} BigEndianBound(s: seq<byte>)
    ensures BigEndian(s) < Pow256(|s|)
  {
    if s != [] { BigEndianBound(s[..|s| - 1]); }
  }

  /** Writing n in k octets keeps n modulo 256^k. */
  lemma {:induction false} BigEndianOctets(n: nat, k: nat)
    ensures BigEndian(Octets(n, k)) == n % Pow256(k)
  {
    if k > 0 {
      var s := Octets(n, k);
      assert s[..k - 1] == Octets(n / 256, k - 1);
      BigEndianOctets(n / 256, k - 1);
      ModStep(n, Pow256(k - 1));
    }
  }

  lemma {:induction false} ModStep(n: nat, p: nat)
    requires p >= 1
    ensures 256 * ((n / 256) % p) + n % 256 == n % (256 * p)
  {
    var q, r := n / 256, n % 256;
    var a, b := q / p, q % p;
    assert q == p * a + b;
    assert n == (256 * p) * a + (256 * b + r) by {
      assert 256 * (p * a) == (256 * p) * a;
    }
    assert 0 <= 256 * b + r < 256 * p;
    RemainderIs(n, 256 * p, a, 256 * b + r);
  }

  lemma {:induction false} RemainderIs(n: nat, d: nat, q: nat, r: nat)
    requires d >= 1 && r < d && n == d * q + r
    ensures n % d == r && n / d == q
  {
    var q', r' := n / d, n % d;
    assert n == d * q' + r';
    if q < q' {
      MulMonotone(d, q + 1, q');
    } else if q' < q {
      MulMonotone(d, q' + 1, q);
    }
  }

  lemma {:induction false} MulMonotone(d: nat, a: nat, b: nat)
    requires a <= b
    ensures d * a <= d * b
    decreases b - a
  {
    if a < b {
      MulMonotone(d, a, b - 1);
      assert d * b == d * (b - 1) + d;
    }
  }

  /** Octet strings of equal length that denote the same number are equal. */
  lemma {:induction false} BigEndianInjective(s: seq<byte>, t: seq<byte>)
    requires |s| == |t| && BigEndian(s) == BigEndian(t)
    ensures s == t
  {
    if s != [] {
      var k := |s| - 1;
      BigEndianInjective(s[..k], t[..k]);
      assert s == s[..k] + [s[k]] && t == t[..k] + [t[k]];
    }
  }

  lemma {:induction false} OctetsOfBigEndian(s: seq<byte>)
    ensures Octets(BigEndian(s), |s|) == s
  {
    BigEndianOctets(BigEndian(s), |s|);
    BigEndianBound(s);
    SmallRemainder(BigEndian(s), Pow256(|s|));
    BigEndianInjective(Octets(BigEndian(s), |s|), s);
  }

  lemma {:induction false} SmallRemainder(n: nat, d: nat)
    requires n < d
    ensures n % d == n
  {
    RemainderIs(n, d, 0, n);
  }

  lemma {:induction false} BigEndianDigits(n: nat)
    ensures BigEndian(Digits(n)) == n
  {
    if n > 0 {
      BigEndianDigits(n / 256);
      assert Digits(n)[..|Digits(n)| - 1] == Digits(n / 256);
    }
  }

  /** Digits is the shortest: n fits in k octets exactly when it has at most k digits. */
  lemma {:induction false} DigitsLength(n: nat, k: nat)
    ensures |Digits(n)| <= k <==> n < Pow256(k)
  {
    if n > 0 && k > 0 {
      DigitsLength(n / 256, k - 1);
    }
  }

  /** The k least significant octets of n in host order, least significant first. */
  function LittleOctets(n: nat, k: nat): (s: seq<byte>)
    ensures |s| == k
  {
    if k == 0 then [] else [n % 256] + LittleOctets(n / 256, k - 1)
  }

  /** The number that a string of octets denotes, least significant octet first. */
  function LittleEndian(s: seq<byte>): nat {
    if s == [] then 0 else s[0] + 256 * LittleEndian(s[1..])
  }

  lemma {:induction false} LittleEndianOctets(n: nat, k: nat)
    ensures LittleEndian(LittleOctets(n, k)) == n % Pow256(k)
  {
    if k > 0 {
      assert LittleOctets(n, k)[1..] == LittleOctets(n / 256, k - 1);
      LittleEndianOctets(n / 256, k - 1);
      ModStep(n, Pow256(k - 1));
    }
  }
}
