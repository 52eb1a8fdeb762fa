/** Path resolution: every match, with the concrete path that addresses it (redis/json/path.go). */
module JsonMatch {
  import opened Common
  import opened JsonTree
  import opened JsonPath

  datatype Match = Match(val: Value, path: Path)

  // ---- Slices, against section 2.3.4 of RFC 9535 ----

  function Min(a: int, b: int): int { if a < b then a else b }
  function Max(a: int, b: int): int { if a > b then a else b }

  function Normalize(i: int, n: nat): int { if i >= 0 then i else n + i }

  function Step(s: SliceSpec): int { if s.step.Some? then s.step.value else 1 }

  /** The RFC's bounds: where the iteration starts and the index it must not reach. */
  function SliceFrom(s: SliceSpec, n: nat): int
  {
    if Step(s) >= 0 then Min(Max(Normalize(if s.start.Some? then s.start.value else 0, n), 0), n)
    else Min(Max(Normalize(if s.start.Some? then s.start.value else n - 1, n), -1), n - 1)
  }

  function SliceTo(s: SliceSpec, n: nat): int
  {
    if Step(s) >= 0 then Min(Max(Normalize(if s.end.Some? then s.end.value else n, n), 0), n)
    else Min(Max(Normalize(if s.end.Some? then s.end.value else -1 - n, n), -1), n - 1)
  }

  /** The indices the RFC selects, in its order. */
  function Selects(from: int, to: int, step: int): (r: seq<int>)
    requires step != 0
    ensures step > 0 ==> forall i :: 0 <= i < |r| ==> from <= r[i] < to
    ensures step < 0 ==> forall i :: 0 <= i < |r| ==> to < r[i] <= from
    ensures forall i, j :: 0 <= i < j < |r| ==> r[i] != r[j]
    decreases if step > 0 then to - from else from - to
  {
    if (step > 0 && from < to) || (step < 0 && to < from) then
      var rest := Selects(from + step, to, step);
      assert from !in rest;
      [from] + rest
    else []
  }

  function Clamp(v: int, lo: int, hi: int): int { if v < lo then lo else if v > hi then hi else v }

  method CountUp(start: int, end: int, step: int) returns (out: seq<int>)
    requires step > 0
    ensures out == Selects(start, end, step)
  {
    out := [];
    var i := start;
    while i < end
      invariant out + Selects(i, end, step) == Selects(start, end, step)
    {
      assert out + ([i] + Selects(i + step, end, step)) == (out + [i]) + Selects(i + step, end, step);
      out := out + [i];
      i := i + step;
    }
  }

  method CountDown(start: int, end: int, step: int, n: nat) returns (out: seq<int>)
    requires step < 0 && -1 <= end && start < n
    ensures out == Selects(start, end, step)
  {
    out := [];
    var i := start;
    while i > end
      invariant i < n && out + Selects(i, end, step) == Selects(start, end, step)
    {
      if i >= 0 && i < n {
        assert out + ([i] + Selects(i + step, end, step)) == (out + [i]) + Selects(i + step, end, step);
        out := out + [i];
      }
      i := i + step;
    }
  }

  /** `sliceIndices` */
  method SliceIndices(s: SliceSpec, n: nat) returns (out: seq<int>)
    ensures out == if Step(s) == 0 then [] else Selects(SliceFrom(s, n), SliceTo(s, n), Step(s))
  {
    var step := if s.step.Some? then s.step.value else 1;
    if step == 0 {
      return [];
    }
    if step > 0 {
      var start, end := 0, n;
      if s.start.Some? {
        start := Clamp(if s.start.value < 0 then s.start.value + n else s.start.value, 0, n);
      }
      if s.end.Some? {
        end := Clamp(if s.end.value < 0 then s.end.value + n else s.end.value, 0, n);
      }
      out := CountUp(start, end, step);
      return;
    }
    var start, end := n - 1, -1;
    if s.start.Some? {
      start := Clamp(if s.start.value < 0 then s.start.value + n else s.start.value, -1, n - 1);
    }
    if s.end.Some? {
      end := Clamp(if s.end.value < 0 then s.end.value + n else s.end.value, -1, n - 1);
    }
    out := CountDown(start, end, step, n);
  }

  // ---- Resolution ----

  function AllFrom(i: nat, n: nat): (r: seq<nat>)
    requires i <= n
    ensures |r| == n - i && forall k :: 0 <= k < |r| ==> r[k] == i + k
  {
    seq(n - i, k => i + k)
  }

  function Passing(v: Value, test: Value -> bool, i: nat): (r: seq<nat>)
    requires i <= |Children(v)|
    ensures forall k :: 0 <= k < |r| ==> i <= r[k] < |Children(v)| && test(Children(v)[r[k]])
    ensures forall j, k :: 0 <= j < k < |r| ==> r[j] < r[k]
    decreases |Children(v)| - i
  {
    if i == |Children(v)| then []
    else (if test(Children(v)[i]) then [i] else []) + Passing(v, test, i + 1)
  }

  function BySelectors(v: Value, sels: seq<Selector>): (r: seq<nat>)
    ensures forall k :: 0 <= k < |r| ==> r[k] < |Children(v)|
  {
    if sels == [] then []
    else
      var k := ChildIndex(v, if sels[0].ByKey? then SKey(sels[0].key) else SIndex(sels[0].index));
      (if k < 0 then [] else [k]) + BySelectors(v, sels[1..])
  }

  /** The children a segment other than a descent selects, in order. */
  function Picks(v: Value, s: Seg): (r: seq<nat>)
    requires !s.SRecursive?
    ensures forall k :: 0 <= k < |r| ==> r[k] < |Children(v)|
  {
    match s
    case SKey(_) => if ChildIndex(v, s) < 0 then [] else [ChildIndex(v, s)]
    case SIndex(_) => if ChildIndex(v, s) < 0 then [] else [ChildIndex(v, s)]
    case SWildcard => AllFrom(0, |Children(v)|)
    case SSlice(sl) =>
      if v.Arr? && Step(sl) != 0 then
        var ix := Selects(SliceFrom(sl, |v.elems|), SliceTo(sl, |v.elems|), Step(sl));
        seq(|ix|, k requires 0 <= k < |ix| => ix[k])
      else []
    case SUnion(sels) => BySelectors(v, sels)
    case SFilter(test) => Passing(v, test, 0)
  }

  /** `resolveMatches`: pre-order, the concrete path growing by one step per level. */
  function Resolve(v: Value, at: Path, segs: Path): (r: seq<Match>)
    decreases |segs|, 2, v, 0
  {
    if segs == [] then [Match(v, at)]
    else if segs[0].SRecursive? then Descend(v, at, segs[1..])
    else ResolveAll(v, at, Picks(v, segs[0]), segs[1..])
  }

  function ResolveAll(v: Value, at: Path, picks: seq<nat>, rest: Path): (r: seq<Match>)
    requires forall k :: 0 <= k < |picks| ==> picks[k] < |Children(v)|
    decreases |rest|, 3, v, |picks|
  {
    if picks == [] then []
    else Resolve(Children(v)[picks[0]], at + [StepTo(v, picks[0])], rest) + ResolveAll(v, at, picks[1..], rest)
  }

  function Descend(v: Value, at: Path, rest: Path): (r: seq<Match>)
    decreases |rest|, 3, v, |Children(v)| + 1
  {
    Resolve(v, at, rest) + DescendAll(v, at, rest, 0)
  }

  function DescendAll(v: Value, at: Path, rest: Path, i: nat): (r: seq<Match>)
    requires i <= |Children(v)|
    decreases |rest|, 3, v, |Children(v)| - i
  {
    if i == |Children(v)| then []
    else Descend(Children(v)[i], at + [StepTo(v, i)], rest) + DescendAll(v, at, rest, i + 1)
  }

  // ---- Every match is where its path says ----

  /** The path steps through existing children, each named the one canonical way. */
  ghost predicate Canonical(v: Value, path: Path)
    decreases |path|
  {
    path == [] || exists i :: 0 <= i < |Children(v)| && path[0] == StepTo(v, i) && Canonical(Children(v)[i], path[1..])
  }

  lemma StepIsChild(v: Value, i: nat)
    requires ValidValue(v) && i < |Children(v)|
    ensures ChildIndex(v, StepTo(v, i)) == i && ValidValue(Children(v)[i])
  {
  }

  ghost predicate Located(v: Value, at: Path, m: Match)
  {
    at <= m.path && Canonical(v, m.path[|at|..]) && ValueAt(v, m.path[|at|..]) == Some(m.val)
  }

  ghost predicate AllLocated(v: Value, at: Path, ms: seq<Match>)
  {
    forall k :: 0 <= k < |ms| ==> Located(v, at, ms[k])
  }

  lemma LocatedAbove(v: Value, at: Path, i: nat, ms: seq<Match>)
    requires ValidValue(v) && i < |Children(v)| && AllLocated(Children(v)[i], at + [StepTo(v, i)], ms)
    ensures AllLocated(v, at, ms)
  {
    StepIsChild(v, i);
    var step := StepTo(v, i);
    forall k | 0 <= k < |ms|
      ensures Located(v, at, ms[k])
    {
      assert Located(Children(v)[i], at + [step], ms[k]);
      var rel := ms[k].path[|at|..];
      assert rel[0] == step && rel[1..] == ms[k].path[|at + [step]|..];
      assert Canonical(v, rel);
    }
  }

  lemma {:induction false} ResolveLocated(v: Value, at: Path, segs: Path)
    requires ValidValue(v)
    ensures AllLocated(v, at, Resolve(v, at, segs))
    decreases |segs|, 2, v, 0
  {
    if segs == [] {
      assert at[|at|..] == [];
    } else if segs[0].SRecursive? {
      DescendLocated(v, at, segs[1..]);
    } else {
      ResolveAllLocated(v, at, Picks(v, segs[0]), segs[1..]);
    }
  }

  lemma {:induction false} ResolveAllLocated(v: Value, at: Path, picks: seq<nat>, rest: Path)
    requires ValidValue(v) && forall k :: 0 <= k < |picks| ==> picks[k] < |Children(v)|
    ensures AllLocated(v, at, ResolveAll(v, at, picks, rest))
    decreases |rest|, 3, v, |picks|
  {
    if picks != [] {
      StepIsChild(v, picks[0]);
      ResolveLocated(Children(v)[picks[0]], at + [StepTo(v, picks[0])], rest);
      LocatedAbove(v, at, picks[0], Resolve(Children(v)[picks[0]], at + [StepTo(v, picks[0])], rest));
      ResolveAllLocated(v, at, picks[1..], rest);
    }
  }

  lemma {:induction false} DescendLocated(v: Value, at: Path, rest: Path)
    requires ValidValue(v)
    ensures AllLocated(v, at, Descend(v, at, rest))
    decreases |rest|, 3, v, |Children(v)| + 1
  {
    ResolveLocated(v, at, rest);
    DescendAllLocated(v, at, rest, 0);
  }

  lemma {:induction false} DescendAllLocated(v: Value, at: Path, rest: Path, i: nat)
    requires ValidValue(v) && i <= |Children(v)|
    ensures AllLocated(v, at, DescendAll(v, at, rest, i))
    decreases |rest|, 3, v, |Children(v)| - i
  {
    if i < |Children(v)| {
      StepIsChild(v, i);
      DescendLocated(Children(v)[i], at + [StepTo(v, i)], rest);
      LocatedAbove(v, at, i, Descend(Children(v)[i], at + [StepTo(v, i)], rest));
      DescendAllLocated(v, at, rest, i + 1);
    }
  }

  /** A match's path, resolved alone, gives that match and nothing else. */
  lemma {:induction false} CanonicalResolves(v: Value, at: Path, path: Path)
    requires ValidValue(v) && Canonical(v, path) && ValueAt(v, path).Some?
    ensures Resolve(v, at, path) == [Match(ValueAt(v, path).value, at + path)]
    decreases |path|
  {
    if path == [] {
      assert at + path == at;
    } else {
      var i :| 0 <= i < |Children(v)| && path[0] == StepTo(v, i) && Canonical(Children(v)[i], path[1..]);
      StepIsChild(v, i);
      CanonicalResolves(Children(v)[i], at + [path[0]], path[1..]);
      assert at + [path[0]] + path[1..] == at + path;
      assert Picks(v, path[0]) == [i];
      assert [i][1..] == [];
      assert ResolveAll(v, at, [i], path[1..]) == Resolve(Children(v)[i], at + [StepTo(v, i)], path[1..]) + [];
    }
  }

  /** Every match of a path carries a concrete path that, on its own, resolves to exactly that node. */
  lemma MatchPathResolvesAlone(v: Value, segs: Path, k: nat)
    requires ValidValue(v) && k < |Resolve(v, [], segs)|
    ensures var m := Resolve(v, [], segs)[k];
            ValueAt(v, m.path) == Some(m.val) && Canonical(v, m.path) && Resolve(v, [], m.path) == [m]
  {
    ResolveLocated(v, [], segs);
    var m := Resolve(v, [], segs)[k];
    assert Located(v, [], m);
    assert m.path[0..] == m.path;
    CanonicalResolves(v, [], m.path);
    assert [] + m.path == m.path;
  }

  // ---- When matches are pairwise distinct ----

  /** No union in the path, and at most `descents` recursive descents. */
  predicate Simple(segs: Path, descents: nat)
  {
    segs == [] || (!segs[0].SUnion? && (segs[0].SRecursive? ==> descents > 0)
                   && Simple(segs[1..], if segs[0].SRecursive? then descents - 1 else descents))
  }

  ghost predicate DistinctPaths(ms: seq<Match>)
  {
    forall j, k :: 0 <= j < k < |ms| ==> ms[j].path != ms[k].path
  }

  /** All paths start with `at`, and are at least (or, without descents, exactly) `n` longer. */
  ghost predicate Below(ms: seq<Match>, at: Path, n: nat, exact: bool)
  {
    forall k :: 0 <= k < |ms| ==> at <= ms[k].path && |ms[k].path| >= |at| + n && (exact ==> |ms[k].path| == |at| + n)
  }

  lemma BelowStep(ms: seq<Match>, at: Path, step: Seg, n: nat, exact: bool)
    requires Below(ms, at + [step], n, exact)
    ensures Below(ms, at, n + 1, exact)
  {
  }

  function Descents(segs: Path): (d: nat)
    ensures d <= |segs|
  {
    if segs == [] then 0 else (if segs[0].SRecursive? then 1 else 0) + Descents(segs[1..])
  }

  lemma {:induction false} ResolveBelow(v: Value, at: Path, segs: Path)
    ensures Below(Resolve(v, at, segs), at, |segs| - Descents(segs), Descents(segs) == 0)
    decreases |segs|, 2, v, 0
  {
    if segs != [] {
      if segs[0].SRecursive? {
        DescendBelow(v, at, segs[1..]);
      } else {
        ResolveAllBelow(v, at, Picks(v, segs[0]), segs[1..]);
      }
    }
  }

  lemma {:induction false} ResolveAllBelow(v: Value, at: Path, picks: seq<nat>, rest: Path)
    requires forall k :: 0 <= k < |picks| ==> picks[k] < |Children(v)|
    ensures Below(ResolveAll(v, at, picks, rest), at, |rest| - Descents(rest) + 1, Descents(rest) == 0)
    decreases |rest|, 3, v, |picks|
  {
    if picks != [] {
      var c, step := Children(v)[picks[0]], StepTo(v, picks[0]);
      ResolveBelow(c, at + [step], rest);
      BelowStep(Resolve(c, at + [step], rest), at, step, |rest| - Descents(rest), Descents(rest) == 0);
      ResolveAllBelow(v, at, picks[1..], rest);
    } else {
      ResolveBelow(v, at, rest);
    }
  }

  lemma {:induction false} DescendBelow(v: Value, at: Path, rest: Path)
    ensures Below(Descend(v, at, rest), at, |rest| - Descents(rest), false)
    decreases |rest|, 3, v, |Children(v)| + 1
  {
    ResolveBelow(v, at, rest);
    DescendAllBelow(v, at, rest, 0);
  }

  lemma {:induction false} DescendAllBelow(v: Value, at: Path, rest: Path, i: nat)
    requires i <= |Children(v)|
    ensures Below(DescendAll(v, at, rest, i), at, |rest| - Descents(rest) + 1, false)
    decreases |rest|, 3, v, |Children(v)| - i
  {
    if i < |Children(v)| {
      var step := StepTo(v, i);
      DescendBelow(Children(v)[i], at + [step], rest);
      BelowStep(Descend(Children(v)[i], at + [step], rest), at, step, |rest| - Descents(rest), false);
      DescendAllBelow(v, at, rest, i + 1);
    } else {
      ResolveBelow(v, at, rest);
    }
  }

  /** Matches under different children have different paths. */
  ghost predicate Avoids(ms: seq<Match>, at: Path, steps: set<Seg>)
  {
    forall k :: 0 <= k < |ms| ==> |ms[k].path| > |at| && ms[k].path[|at|] !in steps
  }

  lemma JoinDistinct(v: Value, at: Path, i: nat, n: nat, ms: seq<Match>, ns: seq<Match>)
    requires i < |Children(v)| && Below(ms, at + [StepTo(v, i)], n, false) && DistinctPaths(ms) && DistinctPaths(ns)
    requires Avoids(ns, at, {StepTo(v, i)})
    ensures DistinctPaths(ms + ns)
  {
    forall j, k | 0 <= j < |ms| && 0 <= k < |ns|
      ensures ms[j].path != ns[k].path
    {
      assert ms[j].path[|at|] == (at + [StepTo(v, i)])[|at|];
    }
  }

  ghost predicate DistinctPicks(picks: seq<nat>)
  {
    forall j, k :: 0 <= j < k < |picks| ==> picks[j] != picks[k]
  }

  lemma PicksDistinct(v: Value, s: Seg)
    requires !s.SRecursive? && !s.SUnion?
    ensures DistinctPicks(Picks(v, s))
  {
  }

  lemma StepsDiffer(v: Value, i: nat, j: nat)
    requires ValidValue(v) && i < |Children(v)| && j < |Children(v)| && i != j
    ensures StepTo(v, i) != StepTo(v, j)
  {
  }

  lemma {:induction false} ResolveAllAvoids(v: Value, at: Path, picks: seq<nat>, rest: Path, i: nat)
    requires ValidValue(v) && (forall k :: 0 <= k < |picks| ==> picks[k] < |Children(v)|)
    requires i < |Children(v)| && i !in picks
    ensures Avoids(ResolveAll(v, at, picks, rest), at, {StepTo(v, i)})
    decreases |picks|
  {
    if picks != [] {
      StepsDiffer(v, i, picks[0]);
      ResolveBelow(Children(v)[picks[0]], at + [StepTo(v, picks[0])], rest);
      forall k | 0 <= k < |Resolve(Children(v)[picks[0]], at + [StepTo(v, picks[0])], rest)|
        ensures var p := Resolve(Children(v)[picks[0]], at + [StepTo(v, picks[0])], rest)[k].path;
                |p| > |at| && p[|at|] == StepTo(v, picks[0])
      {
        var p := Resolve(Children(v)[picks[0]], at + [StepTo(v, picks[0])], rest)[k].path;
        assert p[|at|] == (at + [StepTo(v, picks[0])])[|at|];
      }
      ResolveAllAvoids(v, at, picks[1..], rest, i);
    }
  }

  lemma {:induction false} DescendAllAvoids(v: Value, at: Path, rest: Path, from: nat, i: nat)
    requires ValidValue(v) && i < from <= |Children(v)|
    ensures Avoids(DescendAll(v, at, rest, from), at, {StepTo(v, i)})
    decreases |Children(v)| - from
  {
    if from < |Children(v)| {
      StepsDiffer(v, i, from);
      var ms := Descend(Children(v)[from], at + [StepTo(v, from)], rest);
      DescendBelow(Children(v)[from], at + [StepTo(v, from)], rest);
      forall k | 0 <= k < |ms|
        ensures |ms[k].path| > |at| && ms[k].path[|at|] == StepTo(v, from)
      {
        assert ms[k].path[|at|] == (at + [StepTo(v, from)])[|at|];
      }
      DescendAllAvoids(v, at, rest, from + 1, i);
    }
  }

  /** Without unions and with at most one descent, no location is matched twice. */
  lemma {:induction false} ResolveDistinct(v: Value, at: Path, segs: Path)
    requires ValidValue(v) && Simple(segs, 1)
    ensures DistinctPaths(Resolve(v, at, segs))
    decreases |segs|, 2, v, 0
  {
    if segs != [] {
      if segs[0].SRecursive? {
        DescendDistinct(v, at, segs[1..]);
      } else {
        PicksDistinct(v, segs[0]);
        ResolveAllDistinct(v, at, Picks(v, segs[0]), segs[1..]);
      }
    }
  }

  lemma {:induction false} ResolveAllDistinct(v: Value, at: Path, picks: seq<nat>, rest: Path)
    requires ValidValue(v) && Simple(rest, 1) && DistinctPicks(picks)
    requires forall k :: 0 <= k < |picks| ==> picks[k] < |Children(v)|
    ensures DistinctPaths(ResolveAll(v, at, picks, rest))
    decreases |rest|, 3, v, |picks|
  {
    if picks != [] {
      var i := picks[0];
      StepIsChild(v, i);
      var ms := Resolve(Children(v)[i], at + [StepTo(v, i)], rest);
      ResolveDistinct(Children(v)[i], at + [StepTo(v, i)], rest);
      ResolveBelow(Children(v)[i], at + [StepTo(v, i)], rest);
      ResolveAllDistinct(v, at, picks[1..], rest);
      ResolveAllAvoids(v, at, picks[1..], rest, i);
      JoinDistinct(v, at, i, 0, ms, ResolveAll(v, at, picks[1..], rest));
    }
  }

  lemma {:induction false} DescendDistinct(v: Value, at: Path, rest: Path)
    requires ValidValue(v) && Simple(rest, 0)
    ensures DistinctPaths(Descend(v, at, rest))
    decreases |rest|, 3, v, |Children(v)| + 1
  {
    SimpleMore(rest);
    ResolveDistinct(v, at, rest);
    ResolveBelow(v, at, rest);
    DescendAllDistinct(v, at, rest, 0);
    DescendAllBelow(v, at, rest, 0);
  }

  lemma {:induction false} SimpleMore(segs: Path)
    requires Simple(segs, 0)
    ensures Simple(segs, 1) && Descents(segs) == 0
  {
    if segs != [] {
      SimpleMore(segs[1..]);
    }
  }

  lemma {:induction false} DescendAllDistinct(v: Value, at: Path, rest: Path, i: nat)
    requires ValidValue(v) && Simple(rest, 0) && i <= |Children(v)|
    ensures DistinctPaths(DescendAll(v, at, rest, i))
    decreases |rest|, 3, v, |Children(v)| - i
  {
    if i < |Children(v)| {
      StepIsChild(v, i);
      var ms := Descend(Children(v)[i], at + [StepTo(v, i)], rest);
      DescendDistinct(Children(v)[i], at + [StepTo(v, i)], rest);
      DescendBelow(Children(v)[i], at + [StepTo(v, i)], rest);
      DescendAllDistinct(v, at, rest, i + 1);
      DescendAllAvoids(v, at, rest, i + 1, i);
      JoinDistinct(v, at, i, 0, ms, DescendAll(v, at, rest, i + 1));
    }
  }

  /** The condition on unions is needed: `$['a','a']` matches one member twice. */
  lemma RepeatedMatches()
    ensures var v := Obj([Member("a", Leaf(Null))]);
            ValidValue(v) && !DistinctPaths(Resolve(v, [], [SUnion([ByKey("a"), ByKey("a")])]))
  {
    var v := Obj([Member("a", Leaf(Null))]);
    var sels := [ByKey("a"), ByKey("a")];
    assert sels[1..] == [ByKey("a")] && [ByKey("a")][1..] == [];
    assert BySelectors(v, [ByKey("a")]) == [0];
    assert Picks(v, SUnion(sels)) == [0, 0];
    assert [0, 0][1..] == [0];
    var seg := [SUnion(sels)];
    assert seg[1..] == [];
    var m := Match(Leaf(Null), [] + [SKey("a")]);
    assert Resolve(v, [], seg) == ResolveAll(v, [], [0, 0], []);
    assert ResolveAll(v, [], [0], []) == [m] + [];
    assert ResolveAll(v, [], [0, 0], []) == [m] + ResolveAll(v, [], [0], []);
    var ms := Resolve(v, [], seg);
    assert ms == [m, m];
    assert ms[0].path == ms[1].path;
  }
}
