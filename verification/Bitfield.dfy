/** BITFIELD's integers: 64-bit arithmetic, overflow policies, and fields inside a byte string (redis/bitmap/core.go). */
module Bitfield {
  import opened Common
  import opened Bits
  import opened Numbers
  import Bitmap

  // ---- Powers of two and 64-bit wrap-around ----

  predicate Int64(x: int) { -TWO_63 <= x < TWO_63 }

  /** Go's int64 result of an exact value. */
  function Wrap64(x: int): (r: int)
    ensures Int64(r) && (Int64(x) ==> r == x)
  {
    (x + TWO_63) % TWO_64 - TWO_63
  }

  /** Go's remainder, which takes the sign of the dividend. */
  function GoRem(a: int, b: int): int
    requires b != 0
  {
    var m := if b < 0 then -b else b;
    if a >= 0 then a % m else -((-a) % m)
  }

  /** `int64(1) << n`. */
  function Shl1(n: nat): int { Wrap64(Pow2(n)) }

  lemma Pow2Word()
    ensures Pow2(62) == TWO_63 / 2 && Pow2(63) == TWO_63 && Pow2(64) == TWO_64
  {
    assert Pow2(8) == 256;
    Pow2Add(8, 8);
    Pow2Add(16, 16);
    Pow2Add(32, 30);
    Pow2Add(16, 14);
    assert Pow2(14) == 64 * Pow2(8) by {
      Pow2Add(6, 8);
      assert Pow2(6) == 64;
    }
  }

  // ---- Congruence ----

  predicate Congruent(a: int, b: int, m: nat)
    requires m > 0
  {
    (a - b) % m == 0
  }

  lemma CongruentBy(a: int, b: int, m: nat, k: int)
    requires m > 0 && a - b == k * m
    ensures Congruent(a, b, m)
  {
    MulMod(k, m);
  }

  lemma MulMod(k: int, m: nat)
    requires m > 0
    ensures (k * m) % m == 0
  {
    var q, r := (k * m) / m, (k * m) % m;
    assert k * m == q * m + r;
    assert (k - q) * m == r;
    if k > q { MulLe(m, 1, k - q); }
    if k < q { MulLe(m, 1, q - k); }
  }

  lemma CongruentFactor(a: int, b: int, m: nat) returns (k: int)
    requires m > 0 && Congruent(a, b, m)
    ensures a - b == k * m
  {
    k := (a - b) / m;
  }

  lemma CongruentTrans(a: int, b: int, c: int, m: nat)
    requires m > 0 && Congruent(a, b, m) && Congruent(b, c, m)
    ensures Congruent(a, c, m)
  {
    var j := CongruentFactor(a, b, m);
    var k := CongruentFactor(b, c, m);
    assert (j + k) * m == j * m + k * m;
    CongruentBy(a, c, m, j + k);
  }

  lemma CongruentShift(a: int, b: int, d: int, m: nat)
    requires m > 0 && Congruent(a, b, m)
    ensures Congruent(a + d, b + d, m)
  {
    assert a + d - (b + d) == a - b;
  }

  /** In a window of `m` values there is one of each class. */
  lemma CongruentUnique(a: int, b: int, lo: int, m: nat)
    requires m > 0 && Congruent(a, b, m) && lo <= a < lo + m && lo <= b < lo + m
    ensures a == b
  {
    var k := CongruentFactor(a, b, m);
    if k > 0 { MulLe(m, 1, k); }
  }

  lemma WrapCongruent(x: int, n: nat)
    requires n <= 64
    ensures Congruent(Wrap64(x), x, Pow2(n))
  {
    Pow2Word();
    Pow2Add(64 - n, n);
    var a, m := Pow2(64 - n), Pow2(n);
    var q := -((x + TWO_63) / TWO_64);
    assert 64 - n + n == 64 && a * m == TWO_64 && m > 0;
    assert Wrap64(x) - x == q * TWO_64;
    hide *;
    MulAssoc(q, a, m);
    CongruentBy(Wrap64(x), x, m, q * a);
  }

  lemma ModCongruent(x: int, m: nat)
    requires m > 0
    ensures Congruent(x % m, x, m) && 0 <= x % m < m
  {
    assert x % m - x == -(x / m) * m;
    CongruentBy(x % m, x, m, -(x / m));
  }

  // ---- Integer types and overflow policies ----

  datatype IntType = IntType(signed: bool, bits: nat)
  datatype Policy = Wrap | Sat | Fail

  /** i1 to i64 and u1 to u63. */
  predicate ValidType(t: IntType) { 1 <= t.bits <= 64 && (t.signed || t.bits < 64) }

  function Min(t: IntType): int
    requires ValidType(t)
  {
    if t.signed then -Pow2(t.bits - 1) else 0
  }

  function Max(t: IntType): int
    requires ValidType(t)
  {
    (if t.signed then Pow2(t.bits - 1) else Pow2(t.bits)) - 1
  }

  predicate Fits(x: int, t: IntType)
    requires ValidType(t)
  {
    Min(t) <= x <= Max(t)
  }

  function Clamp(x: int, t: IntType): int
    requires ValidType(t)
  {
    if x < Min(t) then Min(t) else if x > Max(t) then Max(t) else x
  }

  /** `checkBitfieldOverflow`. */
  function Overflows(value: int, t: IntType): bool
    requires ValidType(t)
  {
    if t.signed then
      if t.bits == 64 then false
      else value < Wrap64(-Shl1(t.bits - 1)) || value > Wrap64(Shl1(t.bits - 1) - 1)
    else value < 0 || value > Wrap64(Shl1(t.bits) - 1)
  }

  /** `checkAdditionOverflow`. */
  function AdditionOverflows(a: int, b: int): bool
  {
    (b > 0 && a > TWO_63 - 1 - b) || (b < 0 && a < -TWO_63 - b)
  }

  lemma ShlNonZero(n: nat)
    requires n <= 63
    ensures Shl1(n) != 0
  {
    Pow2Word();
    Pow2Below(n, 63);
  }

  /** `applyOverflow`; masking with 2^n - 1 keeps the remainder modulo 2^n. */
  function ApplyOverflow(value: int, t: IntType, policy: Policy): int
    requires ValidType(t)
  {
    var minVal := if t.signed && t.bits == 64 then -TWO_63 else if t.signed then Wrap64(-Shl1(t.bits - 1)) else 0;
    var maxVal := if t.signed && t.bits == 64 then TWO_63 - 1
                  else if t.signed then Wrap64(Shl1(t.bits - 1) - 1) else Wrap64(Shl1(t.bits) - 1);
    if policy.Wrap? then
      if t.signed then
        if t.bits == 64 then value
        else
          var range := Shl1(t.bits);
          ShlNonZero(t.bits);
          var rem := GoRem(Wrap64(value - minVal), range);
          Wrap64((if rem < 0 then Wrap64(rem + range) else rem) + minVal)
      else value % Pow2(t.bits)
    else if value < minVal then minVal
    else if value > maxVal then maxVal
    else value
  }

  lemma TypeBounds(t: IntType)
    requires ValidType(t)
    ensures -TWO_63 <= Min(t) <= 0 <= Max(t) < TWO_63 && Max(t) - Min(t) == Pow2(t.bits) - 1
    ensures Pow2(t.bits) == 2 * Pow2(t.bits - 1) && Pow2(t.bits - 1) <= TWO_63
    ensures !(t.signed && t.bits == 64) && t.bits < 64 ==> Pow2(t.bits) <= TWO_63
    ensures Wrap64(-Shl1(t.bits - 1)) == -Pow2(t.bits - 1)
    ensures t.bits < 64 ==> Wrap64(Shl1(t.bits - 1) - 1) == Pow2(t.bits - 1) - 1 && Wrap64(Shl1(t.bits) - 1) == Pow2(t.bits) - 1
  {
    Pow2Word();
    Pow2Below(t.bits - 1, 63);
    if t.bits < 64 {
      Pow2Below(t.bits, 63);
      Pow2Below(t.bits - 1, 62);
    }
  }

  /** The type check refuses exactly the values outside the type, at every width. */
  lemma OverflowsExactly(value: int, t: IntType)
    requires ValidType(t) && Int64(value)
    ensures Overflows(value, t) <==> !Fits(value, t)
  {
    TypeBounds(t);
    Pow2Word();
  }

  lemma SaturateExactly(value: int, t: IntType, policy: Policy)
    requires ValidType(t) && Int64(value) && !policy.Wrap?
    ensures ApplyOverflow(value, t, policy) == Clamp(value, t)
  {
    TypeBounds(t);
    Pow2Word();
  }

  /** Truncated remainder and one correction give the remainder proper, even where 1 << 63 is negative. */
  lemma RemainderStep(x: int, n: nat)
    requires 1 <= n <= 63 && Int64(x)
    ensures Shl1(n) != 0
    ensures var rem := GoRem(x, Shl1(n)); (if rem < 0 then Wrap64(rem + Shl1(n)) else rem) == x % Pow2(n)
  {
    Pow2Word();
    if n == 63 {
      WideRemainder(x);
    } else {
      Pow2Below(n, 62);
      var m := Pow2(n);
      assert Shl1(n) == m && 0 < m <= TWO_63 / 2;
      if x < 0 {
        NegativeRemainder(x, m);
        assert -m < GoRem(x, m) <= 0;
      }
    }
  }

  lemma WideRemainder(x: int)
    requires Int64(x)
    ensures Shl1(63) == -TWO_63
    ensures var rem := GoRem(x, -TWO_63); (if rem < 0 then Wrap64(rem - TWO_63) else rem) == x % Pow2(63)
  {
    Pow2Word();
    hide Pow2;
  }

  lemma NegativeRemainder(x: int, m: nat)
    requires x < 0 && m > 0
    ensures x % m == if (-x) % m == 0 then 0 else m - (-x) % m
  {
    var r := if (-x) % m == 0 then 0 else m - (-x) % m;
    var q := (-x) / m;
    assert -x == q * m + (-x) % m;
    ModCongruent(x, m);
    if (-x) % m == 0 {
      assert r - x == q * m;
      CongruentBy(r, x, m, q);
    } else {
      assert r - x == (q + 1) * m;
      CongruentBy(r, x, m, q + 1);
    }
    CongruentBy(x, x % m, m, x / m);
    CongruentTrans(r, x, x % m, m);
    CongruentUnique(r, x % m, 0, m);
  }

  /** WRAP gives the value of the type that is congruent modulo 2^bits, whatever wraps on the way. */
  lemma WrapExactly(value: int, t: IntType)
    requires ValidType(t) && Int64(value)
    ensures var r := ApplyOverflow(value, t, Wrap); Fits(r, t) && Congruent(r, value, Pow2(t.bits))
  {
    hide Pow2, GoRem, Congruent;
    var m := Pow2(t.bits);
    TypeBounds(t);
    if !t.signed {
      ModCongruent(value, m);
    } else if t.bits == 64 {
      CongruentBy(value, value, m, 0);
      Pow2Word();
    } else {
      var x := Wrap64(value - Min(t));
      RemainderStep(x, t.bits);
      ModCongruent(x, m);
      WrapCongruent(value - Min(t), t.bits);
      CongruentTrans(x % m, x, value - Min(t), m);
      assert ApplyOverflow(value, t, Wrap) == x % m + Min(t);
      CongruentShift(x % m, value - Min(t), Min(t), m);
    }
  }

  // ---- SET and INCRBY ----

  /** What SET stores, or None when FAIL refuses it. */
  function SetValue(value: int, t: IntType, policy: Policy): Option<int>
    requires ValidType(t)
  {
    if Overflows(value, t) && policy.Fail? then None else Some(ApplyOverflow(value, t, policy))
  }

  /** What INCRBY stores, or None when FAIL refuses it. */
  function Incremented(prior: int, step: int, t: IntType, policy: Policy): Option<int>
    requires ValidType(t)
  {
    if policy.Fail? && AdditionOverflows(prior, step) then None
    else
      var sum := Wrap64(prior + step);
      if Overflows(sum, t) && policy.Fail? then None else Some(ApplyOverflow(sum, t, policy))
  }

  lemma SetExactly(value: int, t: IntType, policy: Policy)
    requires ValidType(t) && Int64(value)
    ensures SetValue(value, t, policy).None? <==> policy.Fail? && !Fits(value, t)
    ensures SetValue(value, t, policy).Some? ==>
              var r := SetValue(value, t, policy).value;
              Fits(r, t) && if policy.Wrap? then Congruent(r, value, Pow2(t.bits)) else r == Clamp(value, t)
  {
    OverflowsExactly(value, t);
    TypeBounds(t);
    if policy.Wrap? {
      WrapExactly(value, t);
    } else {
      SaturateExactly(value, t, policy);
    }
  }

  /**
    INCRBY against the true sum. FAIL refuses exactly the sums outside the type; WRAP stores the one value of the
    type congruent to the true sum; SAT stores the clamped sum if and only if the sum itself is a 64-bit value.
  */
  lemma IncrementExactly(prior: int, step: int, t: IntType, policy: Policy)
    requires ValidType(t) && Fits(prior, t) && Int64(step)
    ensures var r, sum := Incremented(prior, step, t, policy), prior + step;
            && (r.None? <==> policy.Fail? && !Fits(sum, t))
            && (r.Some? ==> Fits(r.value, t))
            && (policy.Fail? && r.Some? ==> r.value == sum)
            && (policy.Wrap? ==> Congruent(r.value, sum, Pow2(t.bits)))
            && (policy.Sat? ==> (r.value == Clamp(sum, t) <==> Int64(sum)))
  {
    hide Pow2, Overflows, ApplyOverflow;
    var sum := prior + step;
    var w := Wrap64(sum);
    TypeBounds(t);
    OverflowsExactly(w, t);
    assert AdditionOverflows(prior, step) <==> !Int64(sum);
    if policy.Wrap? {
      WrapExactly(w, t);
      WrapCongruent(sum, t.bits);
      CongruentTrans(ApplyOverflow(w, t, Wrap), w, sum, Pow2(t.bits));
    } else {
      SaturateExactly(w, t, policy);
      assert sum >= TWO_63 ==> w == sum - TWO_64;
      assert sum < -TWO_63 ==> w == sum + TWO_64;
    }
  }

  /** SAT misses the clamp where the sum leaves 64 bits: the largest i64 plus one is stored as the smallest. */
  lemma SatWrapsFirst()
    ensures Incremented(TWO_63 - 1, 1, IntType(true, 64), Sat) == Some(-TWO_63)
    ensures Clamp(TWO_63, IntType(true, 64)) == TWO_63 - 1
  {
    var t := IntType(true, 64);
    TypeBounds(t);
    OverflowsExactly(-TWO_63, t);
    assert Wrap64(TWO_63) == -TWO_63;
    SaturateExactly(-TWO_63, t, Sat);
    Pow2Word();
  }

  // ---- Fields inside a byte string ----

  /** The unsigned value of `n` bits from `off` on, most significant first. */
  function UInt(data: seq<bv8>, off: nat, n: nat): (u: int)
    ensures 0 <= u < Pow2(n)
  {
    if n == 0 then 0 else 2 * UInt(data, off, n - 1) + if BitAt(data, off + n - 1) then 1 else 0
  }

  /** The same bits as a value of the type, in two's complement when it is signed. */
  function Field(data: seq<bv8>, off: nat, t: IntType): (v: int)
    requires ValidType(t)
    ensures Fits(v, t) && Congruent(v, UInt(data, off, t.bits), Pow2(t.bits))
  {
    var u := UInt(data, off, t.bits);
    assert Pow2(t.bits) == 2 * Pow2(t.bits - 1);
    CongruentBy(u, u, Pow2(t.bits), 0);
    CongruentBy(u - Pow2(t.bits), u, Pow2(t.bits), -1);
    if t.signed && u >= Pow2(t.bits - 1) then u - Pow2(t.bits) else u
  }

  lemma {:induction false} NoBytes(off: nat, n: nat)
    ensures UInt([], off, n) == 0
  {
    if n > 0 {
      NoBytes(off, n - 1);
    }
  }

  /** One more bit shifted into the accumulator; only the 64th can reach its sign. */
  lemma ShiftIn(data: seq<bv8>, off: nat, i: nat)
    requires i <= 63
    ensures Wrap64(UInt(data, off, i)) == UInt(data, off, i)
    ensures Wrap64(2 * UInt(data, off, i) + if BitAt(data, off + i) then 1 else 0) == Wrap64(UInt(data, off, i + 1))
  {
    Pow2Word();
    Pow2Below(i, 63);
    hide Pow2, BitAt;
  }

  lemma SignBit(u: int, h: int)
    requires h > 0 && 0 <= u < 2 * h
    ensures (u / h) % 2 == 1 <==> u >= h
  {
    if u < h {
      assert u / h == 0;
    } else {
      assert u / h == 1 by {
        assert u == 1 * h + (u - h);
        DivIs(u, h, 1, u - h);
      }
    }
  }

  lemma SignExtended(data: seq<bv8>, off: nat, t: IntType)
    requires ValidType(t)
    ensures var v := Wrap64(UInt(data, off, t.bits));
            (if t.signed && t.bits < 64 && Shl1(t.bits - 1) != 0 && (v / Shl1(t.bits - 1)) % 2 == 1 then Wrap64(v - Shl1(t.bits)) else v)
              == Field(data, off, t)
    ensures Shl1(t.bits - 1) != 0
  {
    var u, n := UInt(data, off, t.bits), t.bits;
    ShlNonZero(n - 1);
    TypeBounds(t);
    Pow2Word();
    if n < 64 {
      Pow2Below(n, 63);
      Pow2Below(n - 1, 62);
      assert Shl1(n - 1) == Pow2(n - 1) && Wrap64(u) == u;
      SignBit(u, Pow2(n - 1));
      if u >= Pow2(n - 1) {
        WrapShift(u, n);
      }
    }
    assert Field(data, off, t) == if t.signed && u >= Pow2(n - 1) then u - Pow2(n) else u;
    hide Pow2, UInt, Field, Shl1, Min, Max, Fits, Congruent;
  }

  lemma WrapShift(u: int, n: nat)
    requires 1 <= n <= 63 && Pow2(n - 1) <= u < Pow2(n)
    ensures Wrap64(u - Shl1(n)) == u - Pow2(n)
  {
    Pow2Word();
    Pow2Below(n, 63);
  }

  /** `getBitfieldInt`: the field, also where it runs past the end and where 64 bits fill the accumulator. */
  method GetBitfieldInt(data: seq<bv8>, off: nat, t: IntType) returns (v: int)
    requires ValidType(t)
    ensures v == Field(data, off, t)
  {
    if |data| == 0 {
      NoBytes(off, t.bits);
      return 0;
    }
    v := 0;
    SignExtended(data, off, t);
    hide UInt, Wrap64, Pow2, Field, Test;
    assert Wrap64(UInt(data, off, 0)) == 0 by {
      ShiftIn(data, off, 0);
    }
    for i := 0 to t.bits
      invariant v == Wrap64(UInt(data, off, i))
    {
      var o := off + i;
      ShiftIn(data, off, i);
      if o / 8 < |data| {
        v := Wrap64(2 * v + if Test(data[o / 8], 7 - o % 8) then 1 else 0);
      } else {
        v := Wrap64(2 * v);
      }
    }
    if t.signed && t.bits < 64 {
      if (v / Shl1(t.bits - 1)) % 2 == 1 {
        v := Wrap64(v - Shl1(t.bits));
      }
    }
  }

  // ---- Writing a field ----

  /** Bit `k` of an integer in two's complement. */
  predicate IntBit(x: int, k: nat) { (x / Pow2(k)) % 2 == 1 }

  lemma HalfQuotient(x: int, a: int)
    requires a > 0
    ensures x / (2 * a) == (x / a) / 2
  {
    var q, r := x / a, x % a;
    var h, s := q / 2, q % 2;
    assert x == q * a + r;
    MulSum(2 * h, s, a);
    MulAssoc(h, 2, a);
    var low := if s == 0 then r else a + r;
    assert x == h * (2 * a) + low;
    DivIs(x, 2 * a, h, low);
  }

  lemma LowerBits(x: int, p: int, c: int)
    requires p > 0 && c > 0
    ensures p * (2 * c) > 0 && ((x % (p * (2 * c))) / p) % 2 == (x / p) % 2
  {
    MulLe(p, 1, 2 * c);
    var m, d := p * (2 * c), 2 * c;
    var q, r := x / m, x % m;
    var s, rem := r / p, r % p;
    assert x == q * m + r && r == s * p + rem;
    assert m == d * p;
    MulAssoc(q, d, p);
    MulSum(q * d, s, p);
    DivIs(x, p, q * d + s, rem);
    MulAssoc(q, c, 2);
    assert q * d == (q * c) * 2;
    TwiceMore(q * c, s);
  }

  lemma TwiceMore(a: int, s: int)
    ensures (a * 2 + s) % 2 == s % 2
  {
  }

  /** Masking to `n` bits keeps the bits below `n`. */
  lemma MaskedBit(x: int, n: nat, k: nat)
    requires k < n
    ensures IntBit(x % Pow2(n), k) == IntBit(x, k)
  {
    Pow2Add(k, n - k);
    assert Pow2(n - k) == 2 * Pow2(n - k - 1);
    assert k + (n - k) == n;
    LowerBits(x, Pow2(k), Pow2(n - k - 1));
  }

  /** The window holds the lowest `n` bits of `x`. */
  ghost predicate Spells(data: seq<bv8>, off: nat, n: nat, x: int)
  {
    forall o: nat :: off <= o < off + n ==> BitAt(data, o) == IntBit(x, n - 1 - (o - off))
  }

  lemma HalfAgain(x: int, k: nat)
    ensures x / Pow2(k + 1) == (x / Pow2(k)) / 2
  {
    var p := Pow2(k);
    assert Pow2(k + 1) == 2 * p;
    HalfQuotient(x, p);
  }

  /** Reading `j` bits off the top of the lowest `n` bits of `x`. */
  lemma {:induction false} FieldOfBits(data: seq<bv8>, off: nat, n: nat, x: int, j: nat)
    requires j <= n && Spells(data, off, n, x)
    ensures UInt(data, off, j) == (x / Pow2(n - j)) % Pow2(j)
    decreases j
  {
    if j > 0 {
      FieldOfBits(data, off, n, x, j - 1);
      HalfAgain(x, n - j);
      var w := x / Pow2(n - j);
      assert BitAt(data, off + j - 1) == IntBit(x, n - j);
      assert UInt(data, off, j) == 2 * UInt(data, off, j - 1) + w % 2;
      assert n - (j - 1) == n - j + 1;
      SplitLow(w, Pow2(j - 1));
      assert Pow2(j) == 2 * Pow2(j - 1);
      hide *;
      assert UInt(data, off, j) == 2 * ((w / 2) % Pow2(j - 1)) + w % 2;
    } else {
      assert Pow2(0) == 1;
    }
  }

  lemma SplitLow(w: int, m: int)
    requires m > 0
    ensures 2 * ((w / 2) % m) + w % 2 == w % (2 * m)
  {
    var h := w / 2;
    var q, r := h / m, h % m;
    assert w == 2 * h + w % 2 && h == q * m + r;
    assert w == q * (2 * m) + (2 * r + w % 2);
    DivIs(w, 2 * m, q, 2 * r + w % 2);
  }

  /** `setBitfieldInt`: the window gets the value's bits, every other bit stays. */
  method SetBitfieldInt(data: array<bv8>, off: nat, n: nat, value: int)
    requires 1 <= n <= 64
    modifies data
    ensures forall o: nat :: BitAt(data[..], o) ==
              if off <= o < off + n && o / 8 < data.Length then IntBit(value, n - 1 - (o - off)) else BitAt(old(data[..]), o)
  {
    var masked := if n == 64 then value else value % Pow2(n);
    ghost var was := data[..];
    for i := 0 to n
      invariant forall o: nat :: BitAt(data[..], o) ==
                  if off <= o < off + i && o / 8 < data.Length then IntBit(value, n - 1 - (o - off)) else BitAt(was, o)
    {
      var p := off + i;
      if p / 8 >= data.Length {
        continue;
      }
      MaskedBit(value, n, n - 1 - i);
      ghost var before := data[..];
      if IntBit(masked, n - 1 - i) {
        data[p / 8] := Raise(data[p / 8], 7 - p % 8);
        forall o: nat ensures BitAt(data[..], o) == if o == p then true else BitAt(before, o) {
          RaiseAt(before, p, o);
          assert data[..] == before[p / 8 := Raise(before[p / 8], 7 - p % 8)];
        }
      } else {
        data[p / 8] := Lower(data[p / 8], 7 - p % 8);
        forall o: nat ensures BitAt(data[..], o) == if o == p then false else BitAt(before, o) {
          LowerAt(before, p, o);
          assert data[..] == before[p / 8 := Lower(before[p / 8], 7 - p % 8)];
        }
      }
    }
  }

  /** An integer of the type, written anywhere it fits, is read back. */
  lemma WrittenField(data: seq<bv8>, off: nat, t: IntType, value: int)
    requires ValidType(t) && Fits(value, t)
    requires Spells(data, off, t.bits, value)
    ensures Field(data, off, t) == value
  {
    var m, v := Pow2(t.bits), Field(data, off, t);
    FieldOfBits(data, off, t.bits, value, t.bits);
    assert Pow2(0) == 1;
    TypeBounds(t);
    assert UInt(data, off, t.bits) == value % m;
    assert Fits(v, t) && Congruent(v, value % m, m) && Min(t) <= v < Min(t) + m && Min(t) <= value < Min(t) + m;
    hide *;
    ModCongruent(value, m);
    CongruentTrans(v, value % m, value, m);
    CongruentUnique(v, value, Min(t), m);
  }

  // ---- The BITFIELD command ----

  datatype Sub =
    | Get(t: IntType, off: nat)
    | Set(t: IntType, off: nat, value: int, policy: Policy)
    | IncrBy(t: IntType, off: nat, value: int, policy: Policy)

  predicate ValidSub(c: Sub) { ValidType(c.t) && (!c.Get? ==> Int64(c.value)) }

  function Bytes(c: Sub): nat { (c.off + c.t.bits + 7) / 8 }

  /** `now` is `was` with the field set to `v`, grown as far as the field needs, and no other bit changed. */
  ghost predicate Stored(was: seq<bv8>, now: seq<bv8>, c: Sub, v: int)
    requires ValidSub(c)
  {
    && |now| == (if |was| < Bytes(c) then Bytes(c) else |was|)
    && Field(now, c.off, c.t) == v
    && forall o: nat :: !(c.off <= o < c.off + c.t.bits) ==> BitAt(now, o) == BitAt(was, o)
  }

  /** What a subcommand stores, if it stores anything. */
  function Stores(c: Sub, prior: int): Option<int>
    requires ValidSub(c)
  {
    match c
    case Get(_, _) => None
    case Set(t, _, v, p) => SetValue(v, t, p)
    case IncrBy(t, _, v, p) => Incremented(prior, v, t, p)
  }

  function StoresOn(data: seq<bv8>, c: Sub): Option<int>
    requires ValidSub(c)
  {
    Stores(c, Field(data, c.off, c.t))
  }

  /** One subcommand: what happens to the buffer, and the reply. */
  ghost predicate Step(was: seq<bv8>, c: Sub, now: seq<bv8>, reply: Option<int>)
    requires ValidSub(c)
  {
    var prior := Field(was, c.off, c.t);
    var next := Stores(c, prior);
    && (if next.None? then now == was else Stored(was, now, c, next.value))
    && reply == (if c.Get? then Some(prior) else if next.None? then None else if c.Set? then Some(prior) else next)
  }

  lemma StoresFit(c: Sub, prior: int)
    requires ValidSub(c) && Fits(prior, c.t)
    ensures Stores(c, prior).Some? ==> Fits(Stores(c, prior).value, c.t)
  {
    match c
    case Get(_, _) =>
    case Set(t, _, v, p) => SetExactly(v, t, p);
    case IncrBy(t, _, v, p) => IncrementExactly(prior, v, t, p);
  }

  /** Grows the buffer if the field needs it, and writes. */
  method Store(data: array<bv8>, c: Sub, v: int) returns (now: array<bv8>)
    requires ValidSub(c) && Fits(v, c.t)
    modifies data
    ensures now == data || fresh(now)
    ensures Stored(old(data[..]), now[..], c, v)
  {
    hide BitAt, IntBit, Field, Fits, Test;
    var was := data[..];
    now := data;
    if data.Length < Bytes(c) {
      now := new bv8[Bytes(c)](i => if 0 <= i < |was| then was[i] else 0);
      assert now[..] == was + seq(Bytes(c) - |was|, _ => 0 as bv8);
      forall o: nat ensures BitAt(now[..], o) == BitAt(was, o) {
        PaddedBits(was, Bytes(c) - |was|, o);
      }
    }
    assert Bytes(c) <= now.Length;
    SetBitfieldInt(now, c.off, c.t.bits, v);
    assert forall o: nat :: c.off <= o < c.off + c.t.bits ==> o / 8 < now.Length;
    assert Spells(now[..], c.off, c.t.bits, v);
    WrittenField(now[..], c.off, c.t, v);
  }

  method RunSub(data: array<bv8>, c: Sub) returns (now: array<bv8>, reply: Option<int>, changed: bool)
    requires ValidSub(c)
    modifies data
    ensures now == data || fresh(now)
    ensures Step(old(data[..]), c, now[..], reply)
    ensures changed <==> StoresOn(old(data[..]), c).Some?
  {
    var prior := GetBitfieldInt(data[..], c.off, c.t);
    StoresFit(c, prior);
    hide Stores, Stored, Field, Fits;
    var next := Stores(c, prior);
    now := data;
    if next.None? {
      return now, if c.Get? then Some(prior) else None, false;
    }
    now := Store(data, c, next.value);
    reply := if c.Get? || c.Set? then Some(prior) else next;
    changed := true;
  }

  /** The subcommands so far, the buffer after each, and the replies. */
  ghost predicate Traced(cs: seq<Sub>, trace: seq<seq<bv8>>, replies: seq<Option<int>>)
    requires forall i :: 0 <= i < |cs| ==> ValidSub(cs[i])
  {
    && |trace| == |replies| + 1 && |replies| <= |cs|
    && forall i :: 0 <= i < |replies| ==> Step(trace[i], cs[i], trace[i + 1], replies[i])
  }

  /** Some subcommand so far stored a value. */
  ghost predicate Touched(cs: seq<Sub>, trace: seq<seq<bv8>>, n: nat)
    requires n <= |cs| && n <= |trace| && forall i :: 0 <= i < |cs| ==> ValidSub(cs[i])
  {
    exists i :: 0 <= i < n && StoresOn(trace[i], cs[i]).Some?
  }

  lemma TraceMore(cs: seq<Sub>, trace: seq<seq<bv8>>, replies: seq<Option<int>>, now: seq<bv8>, reply: Option<int>)
    requires forall i :: 0 <= i < |cs| ==> ValidSub(cs[i])
    requires Traced(cs, trace, replies) && |replies| < |cs| && Step(trace[|replies|], cs[|replies|], now, reply)
    ensures Traced(cs, trace + [now], replies + [reply])
    ensures Touched(cs, trace + [now], |replies| + 1) <==>
            Touched(cs, trace, |replies|) || StoresOn(trace[|replies|], cs[|replies|]).Some?
    ensures StoresOn(trace[|replies|], cs[|replies|]).None? ==> now == trace[|replies|]
  {
    var n, t := |replies|, trace + [now];
    assert StoresOn(trace[n], cs[n]).None? ==> now == trace[n];
    hide Step, StoresOn;
    assert forall i :: 0 <= i <= n ==> t[i] == trace[i];
    if Touched(cs, trace, n) {
      var i :| 0 <= i < n && StoresOn(trace[i], cs[i]).Some?;
      assert StoresOn(t[i], cs[i]).Some?;
    }
    if StoresOn(trace[n], cs[n]).Some? {
      assert StoresOn(t[n], cs[n]).Some?;
    }
  }

  lemma StepGrows(was: seq<bv8>, c: Sub, now: seq<bv8>, reply: Option<int>)
    requires ValidSub(c) && Step(was, c, now, reply)
    ensures |was| <= |now|
  {
  }

  /**
    BITFIELD on a key: the subcommands run one after the other on the string's bytes, each exactly as `Step` says;
    afterwards every bit of the key is the final buffer's, and nothing is written when nothing was stored. The key
    keeps the buffer's length exactly when the buffer did not outgrow the string below the bits, or ends in a byte
    that is not zero.
  */
  method Run(k: Bitmap.Key, cs: seq<Sub>) returns (replies: seq<Option<int>>, ghost trace: seq<seq<bv8>>)
    requires forall i :: 0 <= i < |cs| ==> ValidSub(cs[i])
    modifies k
    ensures |replies| == |cs| && Traced(cs, trace, replies)
    ensures |trace[0]| == Bitmap.Length(old(k.snap)) && forall o: nat :: BitAt(trace[0], o) == Bitmap.GetBit(old(k.snap), o)
    ensures forall o: nat :: Bitmap.GetBit(k.snap, o) == BitAt(trace[|cs|], o)
    ensures !Touched(cs, trace, |cs|) ==> k.snap == old(k.snap)
    ensures var end, base := trace[|cs|], Bitmap.Base(old(k.snap));
            |base| <= |trace[0]| <= |end|
            && (Touched(cs, trace, |cs|) ==> (Bitmap.Length(k.snap) == |end| <==> |end| == |base| || end[|end| - 1] != 0))
  {
    var raw := Bitmap.Reconstruct(k.snap);
    var data := new bv8[|raw|](i requires 0 <= i < |raw| => raw[i]);
    assert data[..] == raw;
    trace, replies := [raw], [];
    var modified := false;
    assert Traced(cs, trace, replies) && !Touched(cs, trace, 0);
    assert |Bitmap.Base(k.snap)| <= |raw|;
    hide *;
    for i := 0 to |cs|
      invariant fresh(data) && k.snap == old(k.snap)
      invariant |replies| == i && |trace| == i + 1 && Traced(cs, trace, replies)
      invariant trace[0] == raw && trace[i] == data[..] && (!modified ==> trace[i] == raw) && |raw| <= |data[..]|
      invariant modified <==> Touched(cs, trace, i)
    {
      var reply, changed;
      data, reply, changed := RunSub(data, cs[i]);
      TraceMore(cs, trace, replies, data[..], reply);
      StepGrows(trace[i], cs[i], data[..], reply);
      replies, trace := replies + [reply], trace + [data[..]];
      modified := modified || changed;
    }
    if modified {
      k.EmitBulk(data[..]);
    }
  }
}
