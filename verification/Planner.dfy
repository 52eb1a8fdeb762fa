/** Query planning over a table and its indexes (`BestIndex` of sql/vtab.go). */
module Planner {
  import opened Common
  import opened Bytes
  import opened Schema
  import opened Predicate

  /** One `column op value` conjunct SQLite offers; a column of -1 is the rowid, `Other` any other operator. */
  datatype Constraint = Constraint(col: int, op: ConstraintOp, usable: bool)
  datatype ConstraintOp = Is(op: CmpOp) | Other

  datatype Bound = Absent | Inclusive | Exclusive

  /** The plan handed from planner to executor. */
  datatype Plan =
    | FullScan
    | PKEquality
    | IndexEquality(name: bytes)
    | IndexRange(name: bytes, lower: Bound, upper: Bound)

  datatype Usage = Usage(argvIndex: nat, omit: bool)

  datatype Term = Term(col: nat, op: CmpOp)

  function FindIndex(indexes: seq<Index>, name: bytes): (r: int)
    ensures -1 <= r < |indexes|
    ensures r >= 0 ==> indexes[r].name == name
    ensures r == -1 ==> forall j :: 0 <= j < |indexes| ==> indexes[j].name != name
  {
    FindFirst(indexes, (i: Index) => i.name == name)
  }

  /** The plan names an index of the table, and a range has at least one bound. */
  ghost predicate PlanFits(tbl: Table, plan: Plan)
  {
    match plan
    case FullScan => true
    case PKEquality => true
    case IndexEquality(name) => FindIndex(tbl.indexes, name) >= 0
    case IndexRange(name, lower, upper) => FindIndex(tbl.indexes, name) >= 0 && (lower.Absent? ==> !upper.Absent?)
  }

  function PlanIndex(tbl: Table, plan: Plan): (idx: Index)
    requires PlanFits(tbl, plan) && (plan.IndexEquality? || plan.IndexRange?)
  {
    tbl.indexes[FindIndex(tbl.indexes, plan.name)]
  }

  function EqTerms(cols: seq<nat>): (r: seq<Term>)
    ensures |r| == |cols| && forall k :: 0 <= k < |cols| ==> r[k] == Term(cols[k], Eq)
  {
    seq(|cols|, i requires 0 <= i < |cols| => Term(cols[i], Eq))
  }

  function IndexOrds(tbl: Table, idx: Index): (r: seq<nat>)
    requires ValidIndex(tbl, idx)
    ensures |r| == |idx.columns| && forall k :: 0 <= k < |r| ==> r[k] == IndexOrd(tbl, idx, k)
  {
    seq(|idx.columns|, i requires 0 <= i < |idx.columns| => IndexOrd(tbl, idx, i))
  }

  function LowerTerms(col: nat, lower: Bound): (r: seq<Term>)
  {
    match lower
    case Absent => []
    case Inclusive => [Term(col, Ge)]
    case Exclusive => [Term(col, Gt)]
  }

  function UpperTerms(col: nat, upper: Bound): (r: seq<Term>)
  {
    match upper
    case Absent => []
    case Inclusive => [Term(col, Le)]
    case Exclusive => [Term(col, Lt)]
  }

  function RangeTerms(ords: seq<nat>, lower: Bound, upper: Bound): (r: seq<Term>)
    requires ords != []
  {
    var last := ords[|ords| - 1];
    EqTerms(ords[..|ords| - 1]) + LowerTerms(last, lower) + UpperTerms(last, upper)
  }

  /** The conjuncts a plan navigates by, in argument order. */
  function Terms(tbl: Table, plan: Plan): (r: seq<Term>)
    requires ValidTable(tbl) && PlanFits(tbl, plan)
  {
    match plan
    case FullScan => []
    case PKEquality => EqTerms(tbl.pkCols)
    case IndexEquality(_) => EqTerms(IndexOrds(tbl, PlanIndex(tbl, plan)))
    case IndexRange(_, lower, upper) =>
      RangeTerms(IndexOrds(tbl, PlanIndex(tbl, plan)), lower, upper)
  }

  // ---- The planner ----

  ghost predicate Distinct(s: seq<nat>)
  {
    forall i, j :: 0 <= i < j < |s| ==> s[i] != s[j]
  }

  /** Slot `k` is the constraint that supplies term `k`. */
  ghost predicate SlotsSupply(cs: seq<Constraint>, terms: seq<Term>, slots: seq<nat>)
  {
    |slots| == |terms| && Distinct(slots)
    && forall k :: 0 <= k < |terms| ==>
         slots[k] < |cs| && cs[slots[k]] == Constraint(terms[k].col, Is(terms[k].op), true)
  }

  predicate UsableEq(c: Constraint, col: nat)
  {
    c == Constraint(col, Is(Eq), true)
  }

  /** Every column has a usable equality. */
  ghost predicate Covered(cols: seq<nat>, cs: seq<Constraint>)
  {
    forall p :: 0 <= p < |cols| ==> HasEq(cs, cols[p])
  }

  ghost predicate HasEq(cs: seq<Constraint>, col: nat)
  {
    exists i :: 0 <= i < |cs| && UsableEq(cs[i], col)
  }

  /** State of the matching loop after the first `n` constraints. */
  ghost predicate Matching(cols: seq<nat>, cs: seq<Constraint>, slots: seq<int>, n: nat)
    requires n <= |cs|
  {
    && |slots| == |cols|
    && (forall p :: 0 <= p < |cols| ==>
          if slots[p] == -1 then forall i :: 0 <= i < n ==> !UsableEq(cs[i], cols[p])
          else 0 <= slots[p] < n && UsableEq(cs[slots[p]], cols[p]))
  }

  lemma MatchingSkips(cols: seq<nat>, cs: seq<Constraint>, slots: seq<int>, n: nat)
    requires n < |cs| && Matching(cols, cs, slots, n)
    requires forall p :: 0 <= p < |cols| && slots[p] == -1 ==> !UsableEq(cs[n], cols[p])
    ensures Matching(cols, cs, slots, n + 1)
  {
  }

  lemma MatchingMissed(cols: seq<nat>, cs: seq<Constraint>, slots: seq<int>, p: nat)
    requires Matching(cols, cs, slots, |cs|) && p < |slots| && slots[p] == -1
    ensures !Covered(cols, cs)
  {
    assert !HasEq(cs, cols[p]);
  }

  lemma MatchingDone(cols: seq<nat>, cs: seq<Constraint>, slots: seq<int>)
    requires Matching(cols, cs, slots, |cs|) && forall p :: 0 <= p < |slots| ==> slots[p] != -1
    ensures Covered(cols, cs)
  {
    forall p | 0 <= p < |cols| ensures HasEq(cs, cols[p]) {
      assert 0 <= slots[p] < |cs| && UsableEq(cs[slots[p]], cols[p]);
    }
  }

  /** `matchPKEquality` and `matchIndexEquality`: one usable equality per column, or nothing. */
  method MatchEquality(cols: seq<nat>, cs: seq<Constraint>) returns (r: Option<seq<nat>>)
    requires Distinct(cols)
    ensures r.Some? ==> SlotsSupply(cs, EqTerms(cols), r.value)
    ensures r.Some? <==> Covered(cols, cs)
  {
    var slots: seq<int> := seq(|cols|, _ => -1);
    for i := 0 to |cs|
      invariant Matching(cols, cs, slots, i)
    {
      var c := cs[i];
      var pos := 0;
      var hit := false;
      while pos < |cols| && !hit
        invariant 0 <= pos <= |cols|
        invariant !hit ==> Matching(cols, cs, slots, i)
                           && forall p :: 0 <= p < pos && slots[p] == -1 ==> !UsableEq(c, cols[p])
        invariant hit ==> Matching(cols, cs, slots, i + 1)
        decreases |cols| - pos, !hit
      {
        if c.usable && c.op == Is(Eq) && c.col == cols[pos] && slots[pos] == -1 {
          assert forall p :: 0 <= p < |cols| && p != pos ==> cols[p] != cols[pos];
          slots := slots[pos := i];
          hit := true;
        } else {
          pos := pos + 1;
        }
      }
      if !hit {
        MatchingSkips(cols, cs, slots, i);
      }
    }
    if exists p :: 0 <= p < |slots| && slots[p] == -1 {
      ghost var p :| 0 <= p < |slots| && slots[p] == -1;
      MatchingMissed(cols, cs, slots, p);
      return None;
    }
    var chosen: seq<nat> := seq(|slots|, p requires 0 <= p < |slots| => slots[p]);
    MatchingDone(cols, cs, slots);
    return Some(chosen);
  }

  /** The first usable constraint on `col` whose operator is one of the two given, or -1. */
  function FirstBound(cs: seq<Constraint>, col: nat, strict: CmpOp, loose: CmpOp): (r: int)
    ensures -1 <= r < |cs|
    ensures r >= 0 ==> cs[r] == Constraint(col, Is(strict), true) || cs[r] == Constraint(col, Is(loose), true)
    ensures r == -1 ==> forall i :: 0 <= i < |cs| ==>
              cs[i] != Constraint(col, Is(strict), true) && cs[i] != Constraint(col, Is(loose), true)
  {
    if cs == [] then -1
    else if cs[0] == Constraint(col, Is(strict), true) || cs[0] == Constraint(col, Is(loose), true) then 0
    else
      var r := FirstBound(cs[1..], col, strict, loose);
      assert forall i :: 0 < i < |cs| ==> cs[i] == cs[1..][i - 1];
      if r < 0 then -1 else r + 1
  }

  /** Some usable constraint on the column has one of the two operators. */
  ghost predicate HasOp(cs: seq<Constraint>, col: nat, strict: CmpOp, loose: CmpOp)
  {
    exists i :: 0 <= i < |cs| && UsableOp(cs[i], col, strict, loose)
  }

  predicate UsableOp(c: Constraint, col: nat, strict: CmpOp, loose: CmpOp)
  {
    c == Constraint(col, Is(strict), true) || c == Constraint(col, Is(loose), true)
  }

  lemma FirstBoundIs(cs: seq<Constraint>, col: nat, strict: CmpOp, loose: CmpOp)
    ensures FirstBound(cs, col, strict, loose) >= 0 <==> HasOp(cs, col, strict, loose)
  {
    var r := FirstBound(cs, col, strict, loose);
    hide FirstBound;
    assert r >= 0 ==> UsableOp(cs[r], col, strict, loose);
  }

  /** A range plan fits: equality on all columns but the last, and a bound on the last. */
  ghost predicate Ranged(ords: seq<nat>, cs: seq<Constraint>)
    requires ords != []
  {
    var last := ords[|ords| - 1];
    Covered(ords[..|ords| - 1], cs) && (HasOp(cs, last, Gt, Ge) || HasOp(cs, last, Lt, Le))
  }

  lemma RangeStart(ords: seq<nat>, cs: seq<Constraint>)
    ensures Covered(ords[..0], cs) && SlotsSupply(cs, EqTerms(ords[..0]), [])
  {
  }

  lemma CoveredNext(ords: seq<nat>, cs: seq<Constraint>, p: nat, slot: int)
    requires p < |ords| && Covered(ords[..p], cs) && slot == FirstBound(cs, ords[p], Eq, Eq)
    ensures slot >= 0 ==> Covered(ords[..p + 1], cs)
    ensures slot < 0 && p < |ords| - 1 ==> !Ranged(ords, cs)
  {
    hide FirstBound;
    if slot >= 0 {
      assert UsableEq(cs[slot], ords[p]) && HasEq(cs, ords[p]);
      var next := ords[..p + 1];
      forall q | 0 <= q < |next| ensures HasEq(cs, next[q]) {
        assert q < p ==> ords[..p][q] == next[q];
      }
    } else if p < |ords| - 1 {
      assert !HasEq(cs, ords[p]) && ords[..|ords| - 1][p] == ords[p];
    }
  }

  function BoundFor(cs: seq<Constraint>, slot: int, loose: CmpOp): (b: Bound)
    requires -1 <= slot < |cs|
  {
    if slot < 0 then Absent else if cs[slot].op == Is(loose) then Inclusive else Exclusive
  }

  /** A supplied list of terms grows by a term it does not yet have. */
  lemma SlotsAppend(cs: seq<Constraint>, terms: seq<Term>, slots: seq<nat>, t: Term, slot: nat)
    requires SlotsSupply(cs, terms, slots) && t !in terms
    requires slot < |cs| && cs[slot] == Constraint(t.col, Is(t.op), true)
    ensures SlotsSupply(cs, terms + [t], slots + [slot])
  {
    forall k | 0 <= k < |slots|
      ensures slots[k] != slot
    {
      assert terms[k] in terms;
    }
  }

  /** Equality on all but the last column of an index plus a bound on the last. */
  method MatchRange(ords: seq<nat>, cs: seq<Constraint>) returns (r: Option<(seq<nat>, Bound, Bound)>)
    requires ords != [] && Distinct(ords)
    ensures r.Some? <==> Ranged(ords, cs)
    ensures r.Some? ==> SlotsSupply(cs, RangeTerms(ords, r.value.1, r.value.2), r.value.0)
    ensures r.Some? ==> (r.value.1.Absent? <==> !HasOp(cs, ords[|ords| - 1], Gt, Ge))
                        && (r.value.2.Absent? <==> !HasOp(cs, ords[|ords| - 1], Lt, Le))
  {
    hide FirstBound, Covered, HasOp, SlotsSupply;
    var last := ords[|ords| - 1];
    var slots: seq<nat> := [];
    RangeStart(ords, cs);
    for p := 0 to |ords| - 1
      invariant SlotsSupply(cs, EqTerms(ords[..p]), slots) && Covered(ords[..p], cs)
    {
      var slot := FirstBound(cs, ords[p], Eq, Eq);
      CoveredNext(ords, cs, p, slot);
      if slot < 0 {
        return None;
      }
      SlotsAppend(cs, EqTerms(ords[..p]), slots, Term(ords[p], Eq), slot);
      assert EqTerms(ords[..p + 1]) == EqTerms(ords[..p]) + [Term(ords[p], Eq)];
      slots := slots + [slot];
    }
    var lowerI := FirstBound(cs, last, Gt, Ge);
    var upperI := FirstBound(cs, last, Lt, Le);
    FirstBoundIs(cs, last, Gt, Ge);
    FirstBoundIs(cs, last, Lt, Le);
    if lowerI < 0 && upperI < 0 {
      return None;
    }
    var lower, upper := BoundFor(cs, lowerI, Ge), BoundFor(cs, upperI, Le);
    var terms := EqTerms(ords[..|ords| - 1]);
    if lowerI >= 0 {
      SlotsAppend(cs, terms, slots, LowerTerms(last, lower)[0], lowerI);
      slots := slots + [lowerI];
    }
    assert lowerI < 0 ==> terms + LowerTerms(last, lower) == terms;
    terms := terms + LowerTerms(last, lower);
    assert upperI < 0 ==> terms + UpperTerms(last, upper) == terms;
    if upperI >= 0 {
      SlotsAppend(cs, terms, slots, UpperTerms(last, upper)[0], upperI);
      slots := slots + [upperI];
    }
    return Some((slots, lower, upper));
  }

  /** `ConstraintUsage` as the planner fills it: slot `k` feeds argument `k + 1`, equalities need no recheck. */
  ghost predicate UsageIs(usage: seq<Usage>, terms: seq<Term>, slots: seq<nat>)
  {
    && |slots| == |terms|
    && (forall k :: 0 <= k < |slots| ==> slots[k] < |usage| && usage[slots[k]] == Usage(k + 1, terms[k].op == Eq))
    && (forall i :: 0 <= i < |usage| && i !in slots ==> usage[i] == Usage(0, false))
  }

  method FillUsage(cs: seq<Constraint>, terms: seq<Term>, slots: seq<nat>) returns (usage: seq<Usage>)
    requires SlotsSupply(cs, terms, slots)
    ensures |usage| == |cs| && UsageIs(usage, terms, slots)
  {
    usage := seq(|cs|, _ => Usage(0, false));
    for k := 0 to |slots|
      invariant |usage| == |cs|
      invariant forall j :: 0 <= j < k ==> usage[slots[j]] == Usage(j + 1, terms[j].op == Eq)
      invariant forall i :: 0 <= i < |usage| && i !in slots ==> usage[i] == Usage(0, false)
    {
      usage := usage[slots[k] := Usage(k + 1, terms[k].op == Eq)];
    }
  }

  lemma OrdsDistinct(tbl: Table, idx: Index)
    requires ValidTable(tbl) && ValidIndex(tbl, idx)
    ensures Distinct(IndexOrds(tbl, idx))
  {
    forall i, j | 0 <= i < j < |idx.columns|
      ensures IndexOrds(tbl, idx)[i] != IndexOrds(tbl, idx)[j]
    {
      assert tbl.columns[IndexOrd(tbl, idx, i)].name != tbl.columns[IndexOrd(tbl, idx, j)].name;
    }
  }

  lemma FindOwnIndex(tbl: Table, j: nat)
    requires ValidTable(tbl) && j < |tbl.indexes|
    ensures FindIndex(tbl.indexes, tbl.indexes[j].name) == j
  {
  }

  /** Index `j` can serve the constraints, by equality on all its columns or by a range on the last. */
  ghost predicate Serves(tbl: Table, cs: seq<Constraint>, j: nat, range: bool)
    requires ValidTable(tbl) && j < |tbl.indexes|
  {
    var ords := IndexOrds(tbl, tbl.indexes[j]);
    if range then ords != [] && Ranged(ords, cs) else Covered(ords, cs)
  }

  /** None of the first `n` indexes can. */
  ghost predicate NoneServes(tbl: Table, cs: seq<Constraint>, n: nat, range: bool)
    requires ValidTable(tbl) && n <= |tbl.indexes|
  {
    forall k :: 0 <= k < n ==> !Serves(tbl, cs, k, range)
  }

  /** Index `j` is the first that can. */
  ghost predicate First(tbl: Table, cs: seq<Constraint>, j: nat, range: bool)
    requires ValidTable(tbl)
  {
    j < |tbl.indexes| && Serves(tbl, cs, j, range) && NoneServes(tbl, cs, j, range)
  }

  /** `BestIndex`: primary key first, then the first fully constrained index, then a range, else a full scan. */
  method BestIndex(tbl: Table, cs: seq<Constraint>) returns (plan: Plan, usage: seq<Usage>, ghost slots: seq<nat>)
    requires ValidTable(tbl)
    ensures PlanFits(tbl, plan) && SlotsSupply(cs, Terms(tbl, plan), slots)
    ensures |usage| == |cs| && UsageIs(usage, Terms(tbl, plan), slots)
    ensures plan.PKEquality? <==> Covered(tbl.pkCols, cs)
    ensures plan.IndexEquality? ==> exists j: nat :: First(tbl, cs, j, false) && plan.name == tbl.indexes[j].name
    ensures plan.IndexRange? ==> NoneServes(tbl, cs, |tbl.indexes|, false) && exists j: nat :: First(tbl, cs, j, true) && plan.name == tbl.indexes[j].name
    ensures plan.FullScan? ==> NoneServes(tbl, cs, |tbl.indexes|, false) && NoneServes(tbl, cs, |tbl.indexes|, true)
  {
    var pk := MatchEquality(tbl.pkCols, cs);
    if pk.Some? {
      plan, slots := PKEquality, pk.value;
      usage := FillUsage(cs, Terms(tbl, plan), pk.value);
      return;
    }
    for j := 0 to |tbl.indexes|
      invariant NoneServes(tbl, cs, j, false)
    {
      var idx := tbl.indexes[j];
      OrdsDistinct(tbl, idx);
      var m := MatchEquality(IndexOrds(tbl, idx), cs);
      if m.Some? {
        assert First(tbl, cs, j, false);
        FindOwnIndex(tbl, j);
        plan, slots := IndexEquality(idx.name), m.value;
        usage := FillUsage(cs, Terms(tbl, plan), m.value);
        return;
      }
    }
    for j := 0 to |tbl.indexes|
      invariant NoneServes(tbl, cs, j, true)
    {
      var idx := tbl.indexes[j];
      OrdsDistinct(tbl, idx);
      var m := MatchRange(IndexOrds(tbl, idx), cs);
      if m.Some? {
        assert First(tbl, cs, j, true);
        FindOwnIndex(tbl, j);
        plan, slots := IndexRange(idx.name, m.value.1, m.value.2), m.value.0;
        usage := FillUsage(cs, Terms(tbl, plan), m.value.0);
        return;
      }
    }
    plan, slots := FullScan, [];
    usage := FillUsage(cs, [], []);
  }
}
