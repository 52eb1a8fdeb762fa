/** Observation predicates and their three-valued evaluation (sql/predicate.go). */
module Predicate {
  import opened Common
  import opened Bytes
  import opened Encoding
  import opened Numbers

  datatype Tri = False | True | Unknown

  datatype CmpOp = Eq | Lt | Le | Gt | Ge

  datatype Predicate =
    | PBool(value: bool)
    | PAnd(children: seq<Predicate>)
    | POr(children: seq<Predicate>)
    | PNot(child: Predicate)
    | PCmp(col: int, op: CmpOp, literal: Value)
    | PColCmp(col: int, op: CmpOp, col2: int)
    | PIsNull(col: int)

  function FromBool(b: bool): Tri { if b then True else False }

  /** `fromCmp` */
  function FromCmp(cmp: int, op: CmpOp): (r: Tri)
    ensures r != Unknown
  {
    FromBool(match op
             case Eq => cmp == 0
             case Lt => cmp < 0
             case Le => cmp <= 0
             case Gt => cmp > 0
             case Ge => cmp >= 0)
  }

  const INFINITY_BITS: int := 0x7FF0_0000_0000_0000

  function Magnitude(bits: uint64): uint64 { if bits >= TWO_63 then bits - TWO_63 else bits }

  predicate IsNaN(bits: uint64) { Magnitude(bits) > INFINITY_BITS }

  /** `cmpFloat` on bit patterns: the zeros are equal, and a NaN compares as equal to everything. */
  function CompareFloat(a: uint64, b: uint64): (c: int)
  {
    if IsNaN(a) || IsNaN(b) || (Magnitude(a) == 0 && Magnitude(b) == 0) then 0
    else Sign(RealRank(a) - RealRank(b))
  }

  // ---- Integers as floats ----

  const TWO_52: int := 0x10_0000_0000_0000

  /** The exponent of the highest bit. */
  function Log2(m: int): (e: nat)
    requires m > 0
    ensures Pow2(e) <= m < 2 * Pow2(e)
  {
    if m == 1 then 0 else Log2(m / 2) + 1
  }

  /** The 53-bit significand of a magnitude with top bit `e`, rounded half to even. */
  function Significand(m: int, e: nat): int
    requires m > 0
  {
    if e <= 52 then m * Pow2(52 - e)
    else
      var d := Pow2(e - 52);
      var q, r := m / d, m % d;
      if 2 * r > d || (2 * r == d && q % 2 == 1) then q + 1 else q
  }

  /** Bits of `float64(m)`; a significand that rounds up to 2^53 carries into the exponent by itself. */
  function FloatBits(m: int): int
    requires m > 0
  {
    (Log2(m) + 1022) * TWO_52 + Significand(m, Log2(m))
  }

  lemma SignificandBounds(m: int, e: nat)
    requires m > 0 && Pow2(e) <= m < 2 * Pow2(e)
    ensures TWO_52 <= Significand(m, e) <= 2 * TWO_52
    ensures e <= 52 ==> Significand(m, e) < 2 * TWO_52
  {
    Pow2Of52();
    if e <= 52 {
      Pow2Add(e, 52 - e);
      assert e + (52 - e) == 52;
      ScaledBounds(m, Pow2(e), Pow2(52 - e));
    } else {
      var d := Pow2(e - 52);
      Pow2Add(52, e - 52);
      assert 52 + (e - 52) == e;
      QuotientBounds(m, d, TWO_52);
    }
  }

  lemma ScaledBounds(m: int, a: int, p: int)
    requires a > 0 && p > 0 && a <= m < 2 * a
    ensures a * p <= m * p < 2 * (a * p)
  {
    MulLe(p, a, m);
    MulLe(p, m + 1, 2 * a);
    MulSum(m, 1, p);
    MulAssoc(2, a, p);
  }

  lemma QuotientBounds(m: int, d: int, k: int)
    requires d > 0 && k > 0 && k * d <= m < 2 * (k * d)
    ensures k <= m / d < 2 * k
  {
    var q := m / d;
    assert m == q * d + m % d;
    MulSum(q, 1, d);
    MulAssoc(2, k, d);
    if q >= 2 * k { MulLe(d, 2 * k, q); }
  }

  lemma Pow2Of52()
    ensures Pow2(52) == TWO_52
  {
    assert Pow2(13) == 8192;
    Pow2Add(13, 13);
    Pow2Add(26, 26);
  }

  /** Rounding never turns an order around, and loses no difference up to 2^53. */
  lemma FloatOrder(m: int, n: int)
    requires 0 < m <= n
    ensures FloatBits(m) <= FloatBits(n)
    ensures m < n <= 2 * TWO_52 ==> FloatBits(m) < FloatBits(n)
  {
    var e, f := Log2(m), Log2(n);
    SignificandBounds(m, e);
    SignificandBounds(n, f);
    Pow2Of52();
    if e == f {
      SignificandOrder(m, n, e);
      if e > 52 {
        Pow2Below(53, e);
        assert Pow2(53) == 2 * TWO_52;
      }
    } else {
      if f < e {
        Pow2Below(f + 1, e);
        assert false;
      }
      if e > 52 {
        Pow2Below(54, f);
        assert Pow2(54) == 2 * (2 * TWO_52);
      }
    }
  }

  lemma SignificandOrder(m: int, n: int, e: nat)
    requires 0 < m <= n
    ensures Significand(m, e) <= Significand(n, e)
    ensures e <= 52 && m < n ==> Significand(m, e) < Significand(n, e)
  {
    if e <= 52 {
      var p := Pow2(52 - e);
      MulLe(p, m, n);
      if m < n {
        MulLe(p, m + 1, n);
        assert p * (m + 1) == m * p + p && p * n == n * p;
      }
      assert p * m == m * p && p * n == n * p;
    } else {
      QuotientOrder(m, n, Pow2(e - 52));
    }
  }

  lemma QuotientOrder(m: int, n: int, d: int)
    requires d > 0 && m <= n
    ensures m / d <= n / d && (m / d == n / d ==> m % d <= n % d)
  {
    var q, p := m / d, n / d;
    assert m == q * d + m % d && n == p * d + n % d;
    assert q * d - p * d == (q - p) * d;
    if q > p {
      MulLe(d, 1, q - p);
    }
  }

  function Abs(i: int): int { if i < 0 then -i else i }

  /** `float64(i)` as a bit pattern. */
  function ToFloat(i: int64): (bits: uint64)
    ensures !IsNaN(bits) && (i == 0 <==> Magnitude(bits) == 0)
    ensures i != 0 ==> bits == FloatBits(Abs(i)) + if i < 0 then TWO_63 else 0
  {
    if i == 0 then 0
    else
      FloatBelowInfinity(Abs(i));
      FloatBits(Abs(i)) + if i < 0 then TWO_63 else 0
  }

  lemma FloatBelowInfinity(m: int)
    requires 0 < m <= TWO_63
    ensures 0 < FloatBits(m) < INFINITY_BITS
  {
    SignificandBounds(m, Log2(m));
    assert Pow2(12) == 4096;
    Pow2Add(12, 52);
    Pow2Of52();
    if Log2(m) > 63 {
      Pow2Below(64, Log2(m));
    }
  }

  /** Integers compared as floats never come out the wrong way round, and come out exactly right up to 2^53. */
  lemma PromotedOrder(i: int64, j: int64)
    requires i <= j
    ensures CompareFloat(ToFloat(i), ToFloat(j)) <= 0
    ensures -2 * TWO_52 <= i < j <= 2 * TWO_52 ==> CompareFloat(ToFloat(i), ToFloat(j)) < 0
  {
    hide FloatBits;
    if i > 0 {
      FloatOrder(Abs(i), Abs(j));
    } else if j < 0 {
      FloatOrder(Abs(j), Abs(i));
    }
    if i < 0 {
      FloatBelowInfinity(Abs(i));
    }
    if j > 0 {
      FloatBelowInfinity(Abs(j));
    }
  }

  /** `compareTyped`: operands of one kind, or two numbers compared as floats; other mixtures are UNKNOWN. */
  function CompareTyped(a: Value, op: CmpOp, b: Value): (r: Tri)
  {
    if a.Integer? && b.Integer? then FromCmp(Sign(a.i as int - b.i as int), op)
    else if a.Real? && b.Real? then FromCmp(CompareFloat(a.bits, b.bits), op)
    else if a.Integer? && b.Real? then FromCmp(CompareFloat(ToFloat(a.i), b.bits), op)
    else if a.Real? && b.Integer? then FromCmp(CompareFloat(a.bits, ToFloat(b.i)), op)
    else if a.Text? && b.Text? then FromCmp(Compare(a.t, b.t), op)
    else if a.Blob? && b.Blob? then FromCmp(Compare(a.b, b.b), op)
    else Unknown
  }

  function ColumnOf(row: seq<Value>, col: int): (r: Option<Value>)
  {
    if 0 <= col < |row| then Some(row[col]) else None
  }

  function EvalCmp(col: int, op: CmpOp, lit: Value, row: seq<Value>): (r: Tri)
  {
    match ColumnOf(row, col)
    case None => Unknown
    case Some(left) => if left.Null? || lit.Null? then Unknown else CompareTyped(left, op, lit)
  }

  function EvalColCmp(col: int, op: CmpOp, col2: int, row: seq<Value>): (r: Tri)
  {
    match (ColumnOf(row, col), ColumnOf(row, col2))
    case (Some(left), Some(right)) => if left.Null? || right.Null? then Unknown else CompareTyped(left, op, right)
    case _ => Unknown
  }

  /** Kleene's strong three-valued logic, the meaning `evalTri` is to compute. */
  function Meaning(p: Predicate, row: seq<Value>): (r: Tri)
  {
    match p
    case PBool(b) => FromBool(b)
    case PAnd(cs) =>
      if exists i :: 0 <= i < |cs| && Meaning(cs[i], row) == False then False
      else if exists i :: 0 <= i < |cs| && Meaning(cs[i], row) == Unknown then Unknown
      else True
    case POr(cs) =>
      if exists i :: 0 <= i < |cs| && Meaning(cs[i], row) == True then True
      else if exists i :: 0 <= i < |cs| && Meaning(cs[i], row) == Unknown then Unknown
      else False
    case PNot(c) =>
      (match Meaning(c, row) case True => False case False => True case Unknown => Unknown)
    case PCmp(col, op, lit) => EvalCmp(col, op, lit, row)
    case PColCmp(col, op, col2) => EvalColCmp(col, op, col2, row)
    case PIsNull(col) =>
      (match ColumnOf(row, col)
       case None => Unknown
       case Some(v) => FromBool(v.Null?))
  }

  /** `evalTri`, with its accumulator loops and early exits. */
  method EvalTri(p: Predicate, row: seq<Value>) returns (r: Tri)
    ensures r == Meaning(p, row)
    decreases p
  {
    match p {
      case PBool(b) =>
        r := if b then True else False;
      case PAnd(cs) =>
        r := True;
        for i := 0 to |cs|
          invariant r != False
          invariant forall k :: 0 <= k < i ==> Meaning(cs[k], row) != False
          invariant r == Unknown <==> exists k :: 0 <= k < i && Meaning(cs[k], row) == Unknown
        {
          var c := EvalTri(cs[i], row);
          if c == False {
            return False;
          }
          if c == Unknown {
            r := Unknown;
          }
        }
      case POr(cs) =>
        r := False;
        for i := 0 to |cs|
          invariant r != True
          invariant forall k :: 0 <= k < i ==> Meaning(cs[k], row) != True
          invariant r == Unknown <==> exists k :: 0 <= k < i && Meaning(cs[k], row) == Unknown
        {
          var c := EvalTri(cs[i], row);
          if c == True {
            return True;
          }
          if c == Unknown {
            r := Unknown;
          }
        }
      case PNot(c) =>
        r := EvalTri(c, row);
        r := match r case True => False case False => True case Unknown => Unknown;
      case PCmp(col, op, lit) =>
        r := EvalCmp(col, op, lit, row);
      case PColCmp(col, op, col2) =>
        r := EvalColCmp(col, op, col2, row);
      case PIsNull(col) =>
        if col < 0 || col >= |row| {
          return Unknown;
        }
        r := if row[col].Null? then True else False;
    }
  }

  /** De Morgan holds in the three-valued reading, NULLs included. */
  lemma DeMorgan(cs: seq<Predicate>, row: seq<Value>)
    ensures Meaning(PNot(PAnd(cs)), row) == Meaning(POr(seq(|cs|, i requires 0 <= i < |cs| => PNot(cs[i]))), row)
  {
    var ns := seq(|cs|, i requires 0 <= i < |cs| => PNot(cs[i]));
    assert forall i :: 0 <= i < |cs| ==> Meaning(ns[i], row) == Meaning(PNot(cs[i]), row);
    forall i | 0 <= i < |cs|
      ensures Meaning(cs[i], row) == False <==> Meaning(ns[i], row) == True
      ensures Meaning(cs[i], row) == Unknown <==> Meaning(ns[i], row) == Unknown
    {
    }
  }

  /** `Evaluate`: UNKNOWN counts as not observed. */
  predicate Evaluate(p: Predicate, row: seq<Value>)
  {
    Meaning(p, row) == True
  }

  /** Neither a zero nor a NaN: for the other values the typed comparison is the order of the encodings. */
  predicate Plain(v: Value)
  {
    v.Real? ==> Magnitude(v.bits) != 0 && !IsNaN(v.bits)
  }

  lemma TypedIsValueOrder(a: Value, op: CmpOp, b: Value, aff: Affinity)
    requires Fits(a, aff) && Fits(b, aff) && Plain(a) && Plain(b)
    ensures CompareTyped(a, op, b) == FromCmp(ValueCompare(a, b), op)
    ensures ValueCompare(a, b) == 0 <==> a == b
  {
  }
}
