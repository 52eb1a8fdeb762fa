/** Byte strings, Go's `bytes.Compare`, and fixed-width big-endian numbers. */
module Bytes {
  import opened Common

  type byte = x: int | 0 <= x < 256
  type bytes = seq<byte>

  type int64 = x: int | -TWO_63 <= x < TWO_63
  type uint64 = x: int | 0 <= x < TWO_64

  function Sign(x: int): (s: int)
  {
    if x < 0 then -1 else if x > 0 then 1 else 0
  }

  /** `bytes.Compare`: lexicographic order, a proper prefix sorts first. */
  function Compare(a: bytes, b: bytes): (c: int)
    ensures -1 <= c <= 1
    ensures c == 0 <==> a == b
  {
    if a == [] then (if b == [] then 0 else -1)
    else if b == [] then 1
    else if a[0] < b[0] then -1
    else if a[0] > b[0] then 1
    else
      assert a == [a[0]] + a[1..] && b == [b[0]] + b[1..];
      Compare(a[1..], b[1..])
  }

  lemma {:induction false} CompareFlip(a: bytes, b: bytes)
    ensures Compare(b, a) == -Compare(a, b)
  {
    if a != [] && b != [] && a[0] == b[0] {
      CompareFlip(a[1..], b[1..]);
    }
  }

  lemma {:induction false} CompareTransitive(a: bytes, b: bytes, c: bytes)
    requires Compare(a, b) <= 0 && Compare(b, c) <= 0
    ensures Compare(a, c) <= 0
    ensures Compare(a, b) < 0 || Compare(b, c) < 0 ==> Compare(a, c) < 0
  {
    if a != [] && b != [] && c != [] && a[0] == b[0] == c[0] {
      CompareTransitive(a[1..], b[1..], c[1..]);
    }
  }

  /** A common prefix does not matter. */
  lemma {:induction false} CompareCommonPrefix(p: bytes, a: bytes, b: bytes)
    ensures Compare(p + a, p + b) == Compare(a, b)
  {
    if p == [] {
      assert p + a == a && p + b == b;
    } else {
      assert (p + a)[1..] == p[1..] + a && (p + b)[1..] == p[1..] + b;
      CompareCommonPrefix(p[1..], a, b);
    }
  }

  /** Between different blocks of one length, what follows the blocks does not matter. */
  lemma {:induction false} CompareEqualLength(x: bytes, y: bytes, s: bytes, t: bytes)
    requires |x| == |y|
    ensures Compare(x + s, y + t) == if x == y then Compare(s, t) else Compare(x, y)
  {
    if x == [] {
      assert x + s == s && y + t == t;
    } else {
      assert (x + s)[1..] == x[1..] + s && (y + t)[1..] == y[1..] + t;
      assert x == [x[0]] + x[1..] && y == [y[0]] + y[1..];
      CompareEqualLength(x[1..], y[1..], s, t);
    }
  }

  function Pow256(k: nat): (p: nat)
    ensures p > 0
  {
    if k == 0 then 1 else 256 * Pow256(k - 1)
  }

  /** The `k`-byte big-endian form of `n`. */
  function BigEndian(n: nat, k: nat): (b: bytes)
    requires n < Pow256(k)
    ensures |b| == k
  {
    if k == 0 then [] else BigEndian(n / 256, k - 1) + [n % 256]
  }

  function FromBigEndian(b: bytes): (n: nat)
    ensures n < Pow256(|b|)
  {
    if b == [] then 0 else 256 * FromBigEndian(b[..|b| - 1]) + b[|b| - 1]
  }

  lemma {:induction false} BigEndianRoundTrip(n: nat, k: nat)
    requires n < Pow256(k)
    ensures FromBigEndian(BigEndian(n, k)) == n
  {
    if k > 0 {
      BigEndianRoundTrip(n / 256, k - 1);
      assert BigEndian(n, k)[..k - 1] == BigEndian(n / 256, k - 1);
    }
  }

  /** Big-endian byte order is numeric order. */
  lemma {:induction false} BigEndianOrder(m: nat, n: nat, k: nat)
    requires m < Pow256(k) && n < Pow256(k)
    ensures Compare(BigEndian(m, k), BigEndian(n, k)) == Sign(m - n)
  {
    if k > 0 {
      BigEndianOrder(m / 256, n / 256, k - 1);
      CompareEqualLength(BigEndian(m / 256, k - 1), BigEndian(n / 256, k - 1), [m % 256], [n % 256]);
    }
  }

  lemma Pow256Eight()
    ensures Pow256(8) == TWO_64
    ensures Pow256(4) == 0x1_0000_0000
  {
    assert Pow256(1) == 256;
    assert Pow256(2) == 0x1_0000;
    assert Pow256(3) == 0x100_0000;
    assert Pow256(4) == 0x1_0000_0000;
    assert Pow256(5) == 0x100_0000_0000;
    assert Pow256(6) == 0x1_0000_0000_0000;
    assert Pow256(7) == 0x100_0000_0000_0000;
  }

  /** `binary.BigEndian.PutUint64`. */
  function PutUint64(u: uint64): (b: bytes)
    ensures |b| == 8
  {
    Pow256Eight();
    BigEndian(u, 8)
  }

  /** `binary.BigEndian.Uint64`. */
  function Uint64(b: bytes): (u: uint64)
    requires |b| == 8
  {
    Pow256Eight();
    FromBigEndian(b)
  }
}
