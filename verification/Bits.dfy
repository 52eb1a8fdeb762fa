/** Bytes as bit vectors, and byte strings as bit arrays with the most significant bit first. */
module Bits {
  /** Bit `k` counted from the least significant one. */
  function Test(b: bv8, k: nat): bool
    requires k < 8
  {
    b & Mask(k) != 0
  }

  /** One bit shifted into place. */
  function Mask(k: nat): bv8
    requires k < 8
  {
    match k
    case 0 => 0x01
    case 1 => 0x02
    case 2 => 0x04
    case 3 => 0x08
    case 4 => 0x10
    case 5 => 0x20
    case 6 => 0x40
    case 7 => 0x80
  }

  function Flip(b: bv8, k: nat): bv8
    requires k < 8
  {
    b ^ Mask(k)
  }

  function Raise(b: bv8, k: nat): bv8
    requires k < 8
  {
    b | Mask(k)
  }

  function Lower(b: bv8, k: nat): bv8
    requires k < 8
  {
    b & !Mask(k)
  }

  /** A mask holds one bit. */
  predicate OneBit(m: bv8)
  {
    m == 1 || m == 2 || m == 4 || m == 8 || m == 16 || m == 32 || m == 64 || m == 128
  }

  lemma MaskIsOneBit(k: nat)
    requires k < 8
    ensures OneBit(Mask(k))
  {
  }

  lemma MasksDiffer(k: nat, j: nat)
    requires k < 8 && j < 8
    ensures Mask(k) & Mask(j) == if j == k then Mask(j) else 0
  {
  }

  lemma XorMask(a: bv8, b: bv8, m: bv8)
    requires OneBit(m)
    ensures ((a ^ b) & m != 0) <==> ((a & m != 0) != (b & m != 0))
  {
  }

  lemma OrMask(a: bv8, b: bv8, m: bv8)
    ensures ((a | b) & m != 0) <==> (a & m != 0 || b & m != 0)
  {
  }

  lemma AndNotMask(a: bv8, b: bv8, m: bv8)
    requires OneBit(m)
    ensures ((a & !b) & m != 0) <==> (a & m != 0 && b & m == 0)
  {
  }

  lemma FlipTest(b: bv8, k: nat, j: nat)
    requires k < 8 && j < 8
    ensures Test(Flip(b, k), j) == if j == k then !Test(b, j) else Test(b, j)
  {
    MaskIsOneBit(j);
    MasksDiffer(k, j);
    XorMask(b, Mask(k), Mask(j));
  }

  lemma RaiseTest(b: bv8, k: nat, j: nat)
    requires k < 8 && j < 8
    ensures Test(Raise(b, k), j) == (j == k || Test(b, j))
  {
    MaskIsOneBit(j);
    MasksDiffer(k, j);
    OrMask(b, Mask(k), Mask(j));
  }

  lemma LowerTest(b: bv8, k: nat, j: nat)
    requires k < 8 && j < 8
    ensures Test(Lower(b, k), j) == (j != k && Test(b, j))
  {
    MaskIsOneBit(j);
    MasksDiffer(k, j);
    AndNotMask(b, Mask(k), Mask(j));
  }

  lemma XorTest(a: bv8, b: bv8, j: nat)
    requires j < 8
    ensures Test(a ^ b, j) == (Test(a, j) != Test(b, j))
  {
    MaskIsOneBit(j);
    XorMask(a, b, Mask(j));
  }

  lemma ZeroTest(b: bv8)
    ensures b == 0 <==> forall j :: 0 <= j < 8 ==> !Test(b, j)
  {
    if b != 0 {
      assert Test(b, 0) || Test(b, 1) || Test(b, 2) || Test(b, 3) || Test(b, 4) || Test(b, 5) || Test(b, 6) || Test(b, 7);
    }
  }

  /** `getScalarBit`: zero past the end. */
  function BitAt(data: seq<bv8>, off: nat): bool
  {
    off / 8 < |data| && Test(data[off / 8], 7 - off % 8)
  }

  lemma FlipAt(data: seq<bv8>, off: nat, o: nat)
    requires off / 8 < |data|
    ensures BitAt(data[off / 8 := Flip(data[off / 8], 7 - off % 8)], o) == if o == off then !BitAt(data, o) else BitAt(data, o)
  {
    hide Flip, Test, Mask;
    FlipTest(data[off / 8], 7 - off % 8, 7 - o % 8);
    assert o / 8 == off / 8 && o % 8 == off % 8 ==> o == off;
  }

  lemma RaiseAt(data: seq<bv8>, off: nat, o: nat)
    requires off / 8 < |data|
    ensures BitAt(data[off / 8 := Raise(data[off / 8], 7 - off % 8)], o) == (o == off || BitAt(data, o))
  {
    hide Raise, Test, Mask;
    RaiseTest(data[off / 8], 7 - off % 8, 7 - o % 8);
    assert o / 8 == off / 8 && o % 8 == off % 8 ==> o == off;
  }

  lemma LowerAt(data: seq<bv8>, off: nat, o: nat)
    requires off / 8 < |data|
    ensures BitAt(data[off / 8 := Lower(data[off / 8], 7 - off % 8)], o) == (o != off && BitAt(data, o))
  {
    hide Lower, Test, Mask;
    LowerTest(data[off / 8], 7 - off % 8, 7 - o % 8);
    assert o / 8 == off / 8 && o % 8 == off % 8 ==> o == off;
  }

  lemma ZeroBytes(n: nat, o: nat)
    ensures !BitAt(seq(n, _ => 0 as bv8), o)
  {
    hide Test, Mask;
    ZeroTest(0);
  }

  /** Bytes of zeros at the end do not change any bit. */
  lemma PaddedBits(data: seq<bv8>, n: nat, o: nat)
    ensures BitAt(data + seq(n, _ => 0 as bv8), o) == BitAt(data, o)
  {
    hide Test, Mask;
    ZeroTest(0);
  }
}
