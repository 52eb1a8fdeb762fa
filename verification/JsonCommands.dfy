/** Commands that write every location a path matches (redis/json/core.go, number.go, array.go). */
module JsonCommands {
  import opened Common
  import opened JsonTree
  import opened JsonPath
  import opened JsonEdit
  import opened JsonMatch
  import opened JsonWrite
  import opened JsonMulti

  /** `writeTargets`: every match, or for a legacy path the first one only. */
  function Targets(doc: Value, segs: Path, legacy: bool): (r: seq<Match>)
  {
    var ms := Resolve(doc, [], segs);
    if legacy && |ms| > 1 then ms[..1] else ms
  }

  ghost function Paths(ms: seq<Match>): (r: set<Path>)
  {
    set k | 0 <= k < |ms| :: ms[k].path
  }

  /** A path that can match the document itself only by being empty, as every parsed path is. */
  predicate Selective(segs: Path)
  {
    segs == [] || Descents(segs) < |segs|
  }

  lemma TargetsReach(t0: Node, segs: Path, legacy: bool)
    requires Linear(t0) && ValidValue(Erase(t0)) && segs != [] && Selective(segs)
    ensures forall k :: 0 <= k < |Targets(Erase(t0), segs, legacy)| ==>
              var m := Targets(Erase(t0), segs, legacy)[k];
              Reaches(t0, m.path) && ValueAt(Erase(t0), m.path) == Some(m.val) && Canonical(Erase(t0), m.path)
  {
    var doc := Erase(t0);
    ResolveBelow(doc, [], segs);
    forall k | 0 <= k < |Targets(doc, segs, legacy)|
      ensures var m := Targets(doc, segs, legacy)[k];
              Reaches(t0, m.path) && ValueAt(doc, m.path) == Some(m.val) && Canonical(doc, m.path)
    {
      MatchPathResolvesAlone(doc, segs, k);
      assert Targets(doc, segs, legacy)[k] == Resolve(doc, [], segs)[k];
      CanonicalReaches(t0, Resolve(doc, [], segs)[k].path);
    }
  }

  // ---- Rewriting: JSON.SET on many locations, NUMINCRBY, NUMMULTBY, TOGGLE, STRAPPEND ----

  datatype Rewrite = Skip | Refuse | Store(to: Value)

  /** What each matched location becomes, computed once from its value in the original document. */
  ghost function ChangesBy(doc: Value, ms: seq<Match>, f: Value -> Rewrite): (r: map<Path, Option<Value>>)
  {
    map p | p in Paths(ms) && ValueAt(doc, p).Some? && f(ValueAt(doc, p).value).Store? :: Some(f(ValueAt(doc, p).value).to)
  }

  ghost function Latest(writes: seq<(Path, Value)>): (r: map<Path, Option<Value>>)
  {
    if writes == [] then map[]
    else Latest(writes[..|writes| - 1])[writes[|writes| - 1].0 := Some(writes[|writes| - 1].1)]
  }

  lemma LatestSnoc(writes: seq<(Path, Value)>, w: (Path, Value))
    ensures Latest(writes + [w]) == Latest(writes)[w.0 := Some(w.1)]
  {
    assert (writes + [w])[..|writes|] == writes;
  }

  lemma ChangesBySnoc(doc: Value, ms: seq<Match>, m: Match, f: Value -> Rewrite)
    requires ValueAt(doc, m.path) == Some(m.val)
    ensures ChangesBy(doc, ms + [m], f) ==
            if f(m.val).Store? then ChangesBy(doc, ms, f)[m.path := Some(f(m.val).to)] else ChangesBy(doc, ms, f)
  {
    hide ValueAt, Paths;
    PathsPlus(ms, m);
    ChangesOver(doc, ms, f);
    ChangesOver(doc, ms + [m], f);
    hide ChangesBy;
    var was, now := ChangesBy(doc, ms, f), ChangesBy(doc, ms + [m], f);
    if f(m.val).Store? {
      assert now == was[m.path := Some(f(m.val).to)];
    } else {
      assert now == was;
    }
  }

  /** Membership in the changes, location by location. */
  lemma ChangesOver(doc: Value, ms: seq<Match>, f: Value -> Rewrite)
    ensures forall p :: p in ChangesBy(doc, ms, f) <==> p in Paths(ms) && ValueAt(doc, p).Some? && f(ValueAt(doc, p).value).Store?
    ensures forall p :: p in ChangesBy(doc, ms, f) ==> ChangesBy(doc, ms, f)[p] == Some(f(ValueAt(doc, p).value).to)
  {
    hide Paths, ValueAt;
  }

  lemma PathsPlus(ms: seq<Match>, m: Match)
    ensures Paths(ms + [m]) == Paths(ms) + {m.path}
  {
    var all := ms + [m];
    assert all[|ms|] == m;
    forall p | p in Paths(ms) ensures p in Paths(all) {
      var k :| 0 <= k < |ms| && ms[k].path == p;
      assert all[k].path == p;
    }
  }

  /** A run of writes in which every changed element has been refilled. */
  ghost predicate Writing(root: Store, st: Store, t0: Node, m: Slots, ch: map<Path, Option<Value>>, n0: nat, next: nat)
  {
    Progress(root, st, t0, m, ch, n0, next) && forall s :: s in m ==> m[s].Some?
  }

  /** One write: the location is read off the snapshot. */
  method WriteOne(ctx: Context, root: Store, path: Path, v: Value, ghost t0: Node, ghost m: Slots,
                  ghost ch: map<Path, Option<Value>>, ghost n0: nat)
    returns (ok: bool, ghost m': Slots)
    requires Writing(root, ctx.View(), t0, m, ch, n0, ctx.next) && ValidValue(v) && Reaches(t0, path)
    modifies ctx
    ensures ok && Writing(root, ctx.View(), t0, m', ch[path := Some(v)], n0, ctx.next)
  {
    ghost var st, next := ctx.View(), ctx.next;
    ProgressKinds(root, st, t0, m, ch, n0, next);
    SlotFacts(root, t0, path, n0);
    OlderGrows(t0, n0, next);
    assert t0.Box? && path != [];
    hide Reaches, SameKinds, Older, Holds, Linear, Altered, ValidValue, Addressable, Erase, EditAt, Agree;
    var applied;
    ghost var sub, t';
    applied, sub, t' := SetValueAtPath(ctx, root, path, v, t0, Altered(t0, m));
    if !applied {
      return false, m;
    }
    WroteOne(root, st, ctx.View(), t0, m, ch, n0, next, ctx.next, path, sub, t');
    return true, m[SlotOf(t0, path) := Some(sub)];
  }

  /** All writes of one command: read off the snapshot, emitted one after the other, and all of them apply. */
  method WriteAll(ctx: Context, root: Store, writes: seq<(Path, Value)>, ghost t0: Node) returns (ok: bool, ghost t: Node)
    requires ctx.View() == root && Sound(root, t0, ctx.next)
    requires forall k :: 0 <= k < |writes| ==> ValidValue(writes[k].1) && Reaches(t0, writes[k].0)
    modifies ctx
    ensures ok && Sound(ctx.View(), t, ctx.next)
    ensures Document(ctx.View()) == Some(Changed(Erase(t0), [], Latest(writes)))
  {
    ghost var n0 := ctx.next;
    ghost var m: Slots := map[];
    StartProgress(root, t0, n0);
    assert Latest(writes[..0]) == map[] && Writing(root, ctx.View(), t0, m, map[], n0, n0);
    hide *;
    for i := 0 to |writes|
      invariant Writing(root, ctx.View(), t0, m, Latest(writes[..i]), n0, ctx.next)
    {
      var applied;
      applied, m := WriteOne(ctx, root, writes[i].0, writes[i].1, t0, m, Latest(writes[..i]), n0);
      if !applied {
        return false, t0;
      }
      LatestSnoc(writes[..i], writes[i]);
      assert writes[..i] + [writes[i]] == writes[..i + 1];
    }
    assert writes[..|writes|] == writes;
    WritingReads(root, ctx.View(), t0, m, Latest(writes), n0, ctx.next);
    return true, Altered(t0, m);
  }

  lemma WritingReads(root: Store, st: Store, t0: Node, m: Slots, ch: map<Path, Option<Value>>, n0: nat, next: nat)
    requires Writing(root, st, t0, m, ch, n0, next)
    ensures Sound(st, Altered(t0, m), next) && Document(st) == Some(Changed(Erase(t0), [], ch))
  {
    ProgressReads(root, st, t0, m, ch, n0, next);
  }

  lemma {:induction false} LinearIsValid(t: Node)
    requires Linear(t)
    ensures ValidValue(Erase(t))
  {
    if t.Box? {
      forall i | 0 <= i < |t.kids| ensures ValidValue(Erase(t.kids[i].node)) {
        LinearIsValid(t.kids[i].node);
      }
      if t.isObject {
        assert forall i, j :: 0 <= i < j < |t.kids| ==> t.kids[i].id != t.kids[j].id;
      }
    }
  }

  lemma NoChanges(doc: Value, f: Value -> Rewrite)
    ensures Latest([]) == ChangesBy(doc, [], f) == map[]
  {
  }

  lemma InPaths(ms: seq<Match>, k: nat)
    requires k < |ms|
    ensures ms[k].path in Paths(ms)
  {
  }

  /** The writes a command plans before it emits anything. */
  method PlanWrites(doc: Value, ms: seq<Match>,
                    f: Value -> Rewrite) returns (ok: bool, results: seq<Rewrite>, writes: seq<(Path, Value)>)
    requires forall k :: 0 <= k < |ms| ==> ValueAt(doc, ms[k].path) == Some(ms[k].val)
    requires forall x :: f(x).Store? ==> ValidValue(f(x).to)
    ensures |results| == |ms| && (forall k :: 0 <= k < |ms| ==> results[k] == f(ms[k].val))
    ensures ok <==> forall k :: 0 <= k < |ms| ==> !results[k].Refuse?
    ensures ok ==> Latest(writes) == ChangesBy(doc, ms, f)
    ensures forall j :: 0 <= j < |writes| ==> writes[j].0 in Paths(ms) && ValidValue(writes[j].1)
  {
    hide ChangesBy, Latest, Paths, ValueAt, ValidValue;
    results := seq(|ms|, k requires 0 <= k < |ms| => f(ms[k].val));
    writes := [];
    NoChanges(doc, f);
    assert ms[..0] == [];
    for k := 0 to |ms|
      invariant forall j :: 0 <= j < k ==> !results[j].Refuse?
      invariant forall j :: 0 <= j < |writes| ==> writes[j].0 in Paths(ms) && ValidValue(writes[j].1)
      invariant Latest(writes) == ChangesBy(doc, ms[..k], f)
    {
      if results[k].Refuse? {
        return false, results, writes;
      }
      assert ms[..k] + [ms[k]] == ms[..k + 1];
      ChangesBySnoc(doc, ms[..k], ms[k], f);
      if results[k].Store? {
        InPaths(ms, k);
        LatestSnoc(writes, (ms[k].path, results[k].to));
        writes := writes + [(ms[k].path, results[k].to)];
      }
    }
    assert ms[..|ms|] == ms;
    ok := true;
  }

  /**
    A command that replaces each matched value by a function of it. Every location gets the function of its
    ORIGINAL value, once, even when the path matches it twice; a refused value leaves everything as it was.
  */
  method RewriteAll(ctx: Context, segs: Path, legacy: bool, f: Value -> Rewrite, ghost t0: Node)
    returns (ok: bool, results: seq<Rewrite>, ghost t: Node)
    requires Sound(ctx.View(), t0, ctx.next) && Selective(segs)
    requires forall x :: f(x).Store? ==> ValidValue(f(x).to)
    modifies ctx
    ensures var ms := Targets(Erase(t0), segs, legacy);
            && |results| == |ms| && (forall k :: 0 <= k < |ms| ==> results[k] == f(ms[k].val))
            && (ok <==> forall k :: 0 <= k < |ms| ==> !results[k].Refuse?)
            && (!ok ==> ctx.pending == old(ctx.pending))
            && (ok ==> Sound(ctx.View(), t, ctx.next))
            && (ok ==> Document(ctx.View()) ==
                       Some(if segs != [] then Changed(Erase(t0), [], ChangesBy(Erase(t0), ms, f))
                            else if f(Erase(t0)).Store? then f(Erase(t0)).to else Erase(t0)))
  {
    var root := ctx.View();
    LayoutReads(root, t0);
    LinearIsValid(t0);
    var doc := Document(root).value;
    var ms := Targets(doc, segs, legacy);
    if segs == [] {
      assert ms == [Match(doc, [])];
    } else {
      TargetsReach(t0, segs, legacy);
    }
    assert forall k :: 0 <= k < |ms| ==> ValueAt(doc, ms[k].path) == Some(ms[k].val);
    t := t0;
    var writes;
    ok, results, writes := PlanWrites(doc, ms, f);
    if ok {
      if segs == [] {
        if results[0].Store? {
          ghost var sub;
          ok, sub, t := SetValueAtPath(ctx, root, [], results[0].to, t0, t0);
          LayoutReads(ctx.View(), t);
        }
      } else {
        ok, t := WriteAll(ctx, root, writes, t0);
      }
    }
  }

  // ---- Removing: JSON.DEL ----

  ghost function Gone(paths: set<Path>): (r: map<Path, Option<Value>>)
  {
    map p | p in paths :: None
  }

  /** One removal: the parent and the element's id come from the snapshot. */
  method RemoveAt(ctx: Context, root: Store, path: Path, ghost t0: Node, ghost m: Slots,
                  ghost ch: map<Path, Option<Value>>, ghost n0: nat)
    returns (removed: bool)
    requires t0.Box? && Reaches(t0, path)
    requires Progress(root, ctx.View(), t0, m, ch, n0, ctx.next) && forall s :: s in m ==> m[s].None?
    modifies ctx`pending
    ensures removed && Progress(root, ctx.View(), t0, m[SlotOf(t0, path) := None], ch[path := None], n0, ctx.next)
  {
    SlotIsElement(t0, path);
    ParentFacts(root, t0, path, n0);
    var up := WalkToParent(root, path[..|path| - 1], t0);
    if up.None? {
      return false;
    }
    var e := ElemIndex(root[up.value], path[|path| - 1]);
    if e < 0 {
      return false;
    }
    assert (up.value, root[up.value].elems[e].id) == SlotOf(t0, path);
    hide *;
    RemoveOne(root, ctx.View(), t0, m, ch, n0, ctx.next, path);
    ctx.Emit(EditElem(up.value, Drop(root[up.value].elems[e].id)));
    return true;
  }

  /**
    JSON.DEL: every matched element of the original document is gone and nothing else is, however the removals
    shift positions; the reply counts matches.
  */
  method DeleteAll(ctx: Context, segs: Path, legacy: bool, ghost t0: Node) returns (count: nat, ghost t: Node)
    requires Sound(ctx.View(), t0, ctx.next) && Selective(segs)
    modifies ctx
    ensures segs == [] ==> count == 1 && ctx.View() == map[]
    ensures segs != [] ==>
              var ms := Targets(Erase(t0), segs, legacy);
              && count == |ms| && Sound(ctx.View(), t, ctx.next)
              && Document(ctx.View()) == Some(Changed(Erase(t0), [], Gone(Paths(ms))))
  {
    t := t0;
    if segs == [] {
      ctx.Emit(DeleteKey);
      return 1, t;
    }
    var root := ctx.View();
    LayoutReads(root, t0);
    LinearIsValid(t0);
    TargetsReach(t0, segs, legacy);
    var ms := Targets(Document(root).value, segs, legacy);
    ghost var n0 := ctx.next;
    ghost var m: Slots := map[];
    StartProgress(root, t0, n0);
    count := 0;
    assert Gone(Paths(ms[..0])) == map[];
    for k := 0 to |ms|
      invariant count == k && ctx.next == n0
      invariant Progress(root, ctx.View(), t0, m, Gone(Paths(ms[..k])), n0, ctx.next)
      invariant forall s :: s in m ==> m[s].None?
    {
      var path := ms[k].path;
      var removed := RemoveAt(ctx, root, path, t0, m, Gone(Paths(ms[..k])), n0);
      if removed {
        count := count + 1;
      }
      m := m[SlotOf(t0, path) := None];
      GoneSnoc(ms, k);
    }
    assert ms[..|ms|] == ms;
    ProgressReads(root, ctx.View(), t0, m, Gone(Paths(ms)), n0, ctx.next);
    t := Altered(t0, m);
  }

  lemma PathsSnoc(ms: seq<Match>, k: nat)
    requires k < |ms|
    ensures Paths(ms[..k + 1]) == Paths(ms[..k]) + {ms[k].path}
  {
    forall p | p in Paths(ms[..k + 1]) ensures p == ms[k].path || p in Paths(ms[..k]) {
      var j :| 0 <= j < k + 1 && ms[..k + 1][j].path == p;
      assert j < k ==> ms[..k][j].path == p;
    }
    forall p | p in Paths(ms[..k]) ensures p in Paths(ms[..k + 1]) {
      var j :| 0 <= j < k && ms[..k][j].path == p;
      assert ms[..k + 1][j].path == p;
    }
    assert ms[..k + 1][k].path == ms[k].path;
  }

  lemma GoneSnoc(ms: seq<Match>, k: nat)
    requires k < |ms|
    ensures Gone(Paths(ms[..k + 1])) == Gone(Paths(ms[..k]))[ms[k].path := None]
  {
    PathsSnoc(ms, k);
    var was, now := Paths(ms[..k]), Paths(ms[..k + 1]);
    assert now == was + {ms[k].path};
    hide Paths;
    assert Gone(now) == Gone(was)[ms[k].path := None];
  }

  lemma DistinctSnoc(ms: seq<Match>, k: nat)
    requires k < |ms|
    ensures DistinctPaths(ms[..k + 1]) <==> DistinctPaths(ms[..k]) && ms[k].path !in Paths(ms[..k])
  {
    var was, now := ms[..k], ms[..k + 1];
    assert (forall j :: 0 <= j < k ==> was[j] == now[j]) && now[k] == ms[k];
    if ms[k].path in Paths(was) {
      var j :| 0 <= j < k && was[j].path == ms[k].path;
      assert now[j].path == now[k].path;
    } else {
      forall j | 0 <= j < k ensures now[j].path != now[k].path {
        assert was[j].path in Paths(was);
      }
    }
  }

  /** The reply is the number of locations removed exactly when no location is matched twice. */
  lemma {:induction false} CountIsLocations(ms: seq<Match>)
    ensures |Paths(ms)| <= |ms|
    ensures |Paths(ms)| == |ms| <==> DistinctPaths(ms)
  {
    if ms != [] {
      var k := |ms| - 1;
      var was := Paths(ms[..k]);
      CountIsLocations(ms[..k]);
      PathsSnoc(ms, k);
      DistinctSnoc(ms, k);
      assert ms[..k + 1] == ms;
      hide Paths, DistinctPaths;
      assert Paths(ms) == was + {ms[k].path};
      assert ms[k].path in was ==> Paths(ms) == was;
    } else {
      assert Paths(ms) == {};
    }
  }

  // ---- Trimming: JSON.ARRTRIM ----

  /** ARRTRIM keeps positions `start` to `stop`, both included, each counted from the end when negative. */
  predicate Inside(i: int, n: nat, start: int, stop: int)
  {
    (if start < 0 then start + n else start) <= i <= (if stop < 0 then stop + n else stop)
  }

  /** The window as the command computes it: from the first component up to but not including the second. */
  function Window(n: nat, start: int, stop: int): (w: (nat, nat))
    ensures w.0 <= w.1 <= n
    ensures forall i :: 0 <= i < n ==> (w.0 <= i < w.1 <==> Inside(i, n, start, stop))
  {
    var s := if start < 0 then (if start + n < 0 then 0 else start + n) else start;
    var e0 := if stop < 0 then stop + n else stop;
    var e := if e0 >= n then n - 1 else e0;
    if n == 0 || s >= n || s > e then (0, 0) else (s, e + 1)
  }

  /** Elements of one matched array, among the first `upto`, that lie outside its window. */
  ghost function Outside(m: Match, start: int, stop: int, upto: nat): (r: set<Path>)
  {
    if !m.val.Arr? then {}
    else set i | 0 <= i < upto && !Inside(i, |m.val.elems|, start, stop) :: m.path + [SIndex(i)]
  }

  /** The same for the first `k` matches. */
  ghost function OutsideAll(ms: seq<Match>, start: int, stop: int, k: nat): (r: set<Path>)
    requires k <= |ms|
  {
    if k == 0 then {}
    else OutsideAll(ms, start, stop, k - 1) + Outside(ms[k - 1], start, stop, Length(ms[k - 1].val))
  }

  function Length(v: Value): nat { if v.Arr? then |v.elems| else 0 }

  lemma {:induction false} CanonicalElement(v: Value, path: Path, i: nat)
    requires ValidValue(v) && Canonical(v, path) && ValueAt(v, path).Some?
    requires ValueAt(v, path).value.Arr? && i < |ValueAt(v, path).value.elems|
    ensures Canonical(v, path + [SIndex(i)])
    decreases |path|
  {
    var q := path + [SIndex(i)];
    if path == [] {
      assert q[0] == StepTo(v, i) && Canonical(Children(v)[i], q[1..]);
    } else {
      var k :| 0 <= k < |Children(v)| && path[0] == StepTo(v, k) && Canonical(Children(v)[k], path[1..]);
      StepIsChild(v, k);
      CanonicalElement(Children(v)[k], path[1..], i);
      assert q[0] == StepTo(v, k) && q[1..] == path[1..] + [SIndex(i)];
    }
  }

  /** What the snapshot's partition says about a matched array. */
  lemma ArrayFacts(root: Store, t0: Node, m: Match, n0: nat)
    requires Layout(root, t0) && Older(t0, n0) && m.val.Arr? && Matched(Erase(t0), m)
    ensures t0.Box? && NodeAt(t0, m.path).Some? && NodeAt(t0, m.path).value.Box?
    ensures var vid := NodeAt(t0, m.path).value.vid;
            && vid in root && root[vid].tag == ArrayTag && |root[vid].elems| == |m.val.elems|
            && forall i :: 0 <= i < |m.val.elems| ==>
                 Reaches(t0, m.path + [SIndex(i)]) && SlotOf(t0, m.path + [SIndex(i)]) == (vid, root[vid].elems[i].id)
  {
    LinearIsValid(t0);
    NodeAtErases(t0, m.path);
    var node := NodeAt(t0, m.path).value;
    NodeAtHeld(root, t0, m.path);
    forall i | 0 <= i < |m.val.elems|
      ensures Reaches(t0, m.path + [SIndex(i)]) && SlotOf(t0, m.path + [SIndex(i)]) == (node.vid, root[node.vid].elems[i].id)
    {
      var p := m.path + [SIndex(i)];
      CanonicalElement(Erase(t0), m.path, i);
      CanonicalReaches(t0, p);
      SlotIsElement(t0, p);
      assert p[..|p| - 1] == m.path;
    }
  }

  lemma GoneMore(gone: set<Path>, p: Path)
    ensures Gone(gone + {p}) == Gone(gone)[p := None]
  {
  }

  lemma OutsideMore(m: Match, start: int, stop: int, i: nat)
    requires m.val.Arr?
    ensures Outside(m, start, stop, i + 1) ==
            Outside(m, start, stop, i) + if Inside(i, |m.val.elems|, start, stop) then {} else {m.path + [SIndex(i)]}
  {
  }

  /** A run of removals that has taken exactly the elements at `gone`. */
  ghost predicate Removing(root: Store, st: Store, t0: Node, slots: Slots, gone: set<Path>, n0: nat, next: nat)
  {
    Progress(root, st, t0, slots, Gone(gone), n0, next) && forall s :: s in slots ==> slots[s].None?
  }

  lemma RemoveMore(root: Store, st: Store, t0: Node, slots: Slots, gone: set<Path>, n0: nat, next: nat, p: Path)
    requires t0.Box? && Removing(root, st, t0, slots, gone, n0, next) && Reaches(t0, p)
    ensures var slot := SlotOf(t0, p);
            Removing(root, Apply(st, EditElem(slot.0, Drop(slot.1))), t0, slots[slot := None], gone + {p}, n0, next)
  {
    hide Progress, Reaches, SlotOf, Gone, Apply;
    GoneMore(gone, p);
    RemoveOne(root, st, t0, slots, Gone(gone), n0, next, p);
  }

  /** The partition's elements are the array's, in order. */
  ghost predicate ArraySlots(root: Store, t0: Node, vid: Vid, m: Match)
  {
    && t0.Box? && vid in root && m.val.Arr? && |root[vid].elems| == |m.val.elems|
    && forall i :: 0 <= i < |m.val.elems| ==>
         Reaches(t0, m.path + [SIndex(i)]) && SlotOf(t0, m.path + [SIndex(i)]) == (vid, root[vid].elems[i].id)
  }

  lemma ArraySlot(root: Store, t0: Node, vid: Vid, m: Match, i: nat)
    requires ArraySlots(root, t0, vid, m) && m.val.Arr? && i < |m.val.elems|
    ensures var p := m.path + [SIndex(i)];
            t0.Box? && vid in root && i < |root[vid].elems| && Reaches(t0, p) && SlotOf(t0, p) == (vid, root[vid].elems[i].id)
  {
  }

  /** What is gone once the first `i` elements of a match have been looked at. */
  ghost function Through(gone: set<Path>, m: Match, start: int, stop: int, i: nat): set<Path>
  {
    gone + Outside(m, start, stop, i)
  }

  /** One element: kept inside the window, removed by its id outside it. */
  lemma TrimElem(root: Store, st: Store, vid: Vid, m: Match, start: int, stop: int, i: nat,
                 t0: Node, slots: Slots, gone: set<Path>, n0: nat, next: nat) returns (slots': Slots)
    requires ArraySlots(root, t0, vid, m) && m.val.Arr? && i < |m.val.elems|
    requires Removing(root, st, t0, slots, Through(gone, m, start, stop, i), n0, next)
    ensures vid in root && i < |root[vid].elems|
    ensures var w := Window(|m.val.elems|, start, stop);
            Removing(root, if w.0 <= i < w.1 then st else Apply(st, EditElem(vid, Drop(root[vid].elems[i].id))),
                     t0, slots', Through(gone, m, start, stop, i + 1), n0, next)
  {
    hide Removing, Reaches, SlotOf, Apply, ArraySlots, Outside, Window, Inside;
    var all, p := Through(gone, m, start, stop, i), m.path + [SIndex(i)];
    OutsideMore(m, start, stop, i);
    ArraySlot(root, t0, vid, m, i);
    if Inside(i, |m.val.elems|, start, stop) {
      assert Through(gone, m, start, stop, i + 1) == all;
      slots' := slots;
    } else {
      assert Through(gone, m, start, stop, i + 1) == all + {p};
      RemoveMore(root, st, t0, slots, all, n0, next, p);
      slots' := slots[SlotOf(t0, p) := None];
    }
  }

  lemma TrimStart(root: Store, t0: Node, vid: Vid, m: Match, start: int, stop: int, gone: set<Path>)
    requires ArraySlots(root, t0, vid, m)
    ensures vid in root && m.val.Arr? && |root[vid].elems| == |m.val.elems| == Length(m.val)
    ensures Through(gone, m, start, stop, 0) == gone
  {
  }

  /** One matched array: the ids outside the window, all read off the snapshot, are removed. */
  method TrimElems(ctx: Context, root: Store, vid: Vid, m: Match, start: int, stop: int,
                   ghost t0: Node, ghost slots: Slots, ghost gone: set<Path>, ghost n0: nat)
    returns (ghost slots': Slots)
    requires ArraySlots(root, t0, vid, m) && Removing(root, ctx.View(), t0, slots, gone, n0, ctx.next)
    modifies ctx`pending
    ensures Removing(root, ctx.View(), t0, slots', Through(gone, m, start, stop, Length(m.val)), n0, ctx.next)
  {
    hide *;
    slots' := slots;
    TrimStart(root, t0, vid, m, start, stop, gone);
    var elems := root[vid].elems;
    var w := Window(|elems|, start, stop);
    for i := 0 to |elems|
      invariant Removing(root, ctx.View(), t0, slots', Through(gone, m, start, stop, i), n0, ctx.next)
    {
      slots' := TrimElem(root, ctx.View(), vid, m, start, stop, i, t0, slots', gone, n0, ctx.next);
      if i < w.0 || i >= w.1 {
        ctx.Emit(EditElem(vid, Drop(elems[i].id)));
      }
    }
  }

  ghost predicate Matched(doc: Value, m: Match)
  {
    ValueAt(doc, m.path) == Some(m.val) && Canonical(doc, m.path)
  }

  function Kept(m: Match, start: int, stop: int): (r: Option<nat>)
  {
    if !m.val.Arr? then None
    else var w := Window(|m.val.elems|, start, stop); Some(w.1 - w.0)
  }

  /** One match: an array is trimmed in place, anything else is left alone. */
  method TrimOne(ctx: Context, root: Store, m: Match, start: int, stop: int,
                 ghost t0: Node, ghost slots: Slots, ghost gone: set<Path>, ghost n0: nat)
    returns (ghost slots': Slots)
    requires Layout(root, t0) && Older(t0, n0) && Matched(Erase(t0), m) && Removing(root, ctx.View(), t0, slots, gone, n0, ctx.next)
    modifies ctx`pending
    ensures Removing(root, ctx.View(), t0, slots', Through(gone, m, start, stop, Length(m.val)), n0, ctx.next)
  {
    if !m.val.Arr? {
      assert Through(gone, m, start, stop, 0) == gone;
      return slots;
    }
    var up := WalkToParent(root, m.path, t0);
    ArrayFacts(root, t0, m, n0);
    assert ArraySlots(root, t0, up.value, m);
    hide *;
    slots' := TrimElems(ctx, root, up.value, m, start, stop, t0, slots, gone, n0);
  }

  /** `arrayWriteInt` with the trimming plan: the replies come from the snapshot, then one match after the other is trimmed. */
  method TrimAll(ctx: Context, root: Store, ms: seq<Match>, start: int, stop: int, ghost t0: Node)
    returns (replies: seq<Option<nat>>, ghost m: Slots)
    requires ctx.View() == root && Sound(root, t0, ctx.next)
    requires forall k :: 0 <= k < |ms| ==> Matched(Erase(t0), ms[k])
    modifies ctx`pending
    ensures |replies| == |ms| && forall k :: 0 <= k < |ms| ==> replies[k] == Kept(ms[k], start, stop)
    ensures Progress(root, ctx.View(), t0, m, Gone(OutsideAll(ms, start, stop, |ms|)), ctx.next, ctx.next)
  {
    hide *;
    ghost var n0 := ctx.next;
    m := map[];
    replies := seq(|ms|, k requires 0 <= k < |ms| => Kept(ms[k], start, stop));
    TrimAllStart(root, t0, ms, start, stop, n0);
    for k := 0 to |ms|
      invariant Removing(root, ctx.View(), t0, m, OutsideAll(ms, start, stop, k), n0, ctx.next)
    {
      OutsideNext(ms, start, stop, k);
      m := TrimOne(ctx, root, ms[k], start, stop, t0, m, OutsideAll(ms, start, stop, k), n0);
    }
    RemovingIs(root, ctx.View(), t0, m, OutsideAll(ms, start, stop, |ms|), n0, ctx.next);
  }

  lemma TrimAllStart(root: Store, t0: Node, ms: seq<Match>, start: int, stop: int, n0: nat)
    requires Sound(root, t0, n0)
    ensures Layout(root, t0) && Older(t0, n0) && Removing(root, root, t0, map[], OutsideAll(ms, start, stop, 0), n0, n0)
  {
    StartProgress(root, t0, n0);
    assert Gone({}) == map[];
  }

  lemma OutsideNext(ms: seq<Match>, start: int, stop: int, k: nat)
    requires k < |ms|
    ensures OutsideAll(ms, start, stop, k + 1) == Through(OutsideAll(ms, start, stop, k), ms[k], start, stop, Length(ms[k].val))
  {
  }

  lemma RemovingIs(root: Store, st: Store, t0: Node, slots: Slots, gone: set<Path>, n0: nat, next: nat)
    requires Removing(root, st, t0, slots, gone, n0, next)
    ensures Progress(root, st, t0, slots, Gone(gone), n0, next)
  {
  }

  /** JSON.ARRTRIM: from every matched array exactly the elements outside the window go; the reply is what is kept. */
  method ArrTrim(ctx: Context, segs: Path, legacy: bool, start: int, stop: int, ghost t0: Node)
    returns (replies: seq<Option<nat>>, ghost t: Node)
    requires Sound(ctx.View(), t0, ctx.next)
    modifies ctx
    ensures var ms := Targets(Erase(t0), segs, legacy);
            && |replies| == |ms| && (forall k :: 0 <= k < |ms| ==> replies[k] == Kept(ms[k], start, stop))
            && Sound(ctx.View(), t, ctx.next)
            && Document(ctx.View()) == Some(Changed(Erase(t0), [], Gone(OutsideAll(ms, start, stop, |ms|))))
  {
    var root := ctx.View();
    LayoutReads(root, t0);
    LinearIsValid(t0);
    var ms := Targets(Document(root).value, segs, legacy);
    forall k | 0 <= k < |ms| ensures Matched(Erase(t0), ms[k]) {
      MatchPathResolvesAlone(Erase(t0), segs, k);
    }
    ghost var m;
    replies, m := TrimAll(ctx, root, ms, start, stop, t0);
    ghost var ch := Gone(OutsideAll(ms, start, stop, |ms|));
    ProgressReads(root, ctx.View(), t0, m, ch, ctx.next, ctx.next);
    ProgressSound(root, ctx.View(), t0, m, ch, ctx.next, ctx.next);
    t := Altered(t0, m);
  }

  lemma ProgressSound(root: Store, st: Store, t0: Node, m: Slots, ch: map<Path, Option<Value>>, n0: nat, next: nat)
    requires Progress(root, st, t0, m, ch, n0, next)
    ensures Sound(st, Altered(t0, m), next)
  {
  }

  // ---- What simultaneous changes do to a document ----

  /** Nothing below `at` changes: neither does the value there. */
  lemma {:induction false} ChangedNothing(v: Value, at: Path, ch: map<Path, Option<Value>>)
    requires forall p :: p in ch ==> !(at < p)
    ensures Changed(v, at, ch) == v
    decreases v, |Children(v)| + 1
  {
    if !v.Leaf? {
      ChangedFromNothing(v, at, ch, 0);
      var ms := ChangedFrom(v, at, ch, 0);
      if v.Arr? {
        assert Values(ms) == v.elems;
      } else {
        forall k | 0 <= k < |ms| ensures ms[k] == v.members[k] {
          assert ms[k - 0] == Member(KeyAt(v, k), Children(v)[k]);
        }
      }
    }
  }

  lemma {:induction false} ChangedFromNothing(v: Value, at: Path, ch: map<Path, Option<Value>>, i: nat)
    requires i <= |Children(v)| && forall p :: p in ch ==> !(at < p)
    ensures |ChangedFrom(v, at, ch, i)| == |Children(v)| - i
    ensures forall k :: i <= k < |Children(v)| ==> ChangedFrom(v, at, ch, i)[k - i] == Member(KeyAt(v, k), Children(v)[k])
    decreases v, |Children(v)| - i
  {
    hide Changed;
    if i < |Children(v)| {
      var p := at + [StepTo(v, i)];
      assert at < p;
      forall q | q in ch ensures !(p < q) {
        assert p < q ==> at < q;
      }
      ChangedNothing(Children(v)[i], p, ch);
      ChangedFromNothing(v, at, ch, i + 1);
    }
  }

  /** An array from which just the elements outside a window go is that window. */
  lemma {:induction false} TrimmedArray(es: seq<Value>, at: Path, gone: set<Path>, lo: nat, hi: nat)
    requires lo <= hi <= |es|
    requires forall i :: 0 <= i < |es| ==> (at + [SIndex(i)] in gone <==> !(lo <= i < hi))
    requires forall p, i :: p in gone && lo <= i < hi ==> !(at + [SIndex(i)] < p)
    ensures Changed(Arr(es), at, Gone(gone)) == Arr(es[lo..hi])
  {
    TrimmedFrom(es, at, gone, lo, hi, 0);
  }

  lemma {:induction false} TrimmedFrom(es: seq<Value>, at: Path, gone: set<Path>, lo: nat, hi: nat, i: nat)
    requires lo <= hi <= |es| && i <= |es|
    requires forall i :: 0 <= i < |es| ==> (at + [SIndex(i)] in gone <==> !(lo <= i < hi))
    requires forall p, i :: p in gone && lo <= i < hi ==> !(at + [SIndex(i)] < p)
    ensures Values(ChangedFrom(Arr(es), at, Gone(gone), i)) == if i >= hi then [] else es[Max(i, lo)..hi]
    decreases |es| - i
  {
    if i < |es| {
      TrimmedFrom(es, at, gone, lo, hi, i + 1);
      assert at + [SIndex(i)] in gone <==> !(lo <= i < hi);
      TrimStep(es, at, gone, i);
      hide ChangedFrom, Values, Gone;
    }
  }

  lemma TrimStep(es: seq<Value>, at: Path, gone: set<Path>, i: nat)
    requires i < |es|
    requires at + [SIndex(i)] !in gone ==> forall p :: p in gone ==> !(at + [SIndex(i)] < p)
    ensures Values(ChangedFrom(Arr(es), at, Gone(gone), i)) ==
            (if at + [SIndex(i)] in gone then [] else [es[i]]) + Values(ChangedFrom(Arr(es), at, Gone(gone), i + 1))
  {
    var p, ch := at + [SIndex(i)], Gone(gone);
    var rest := ChangedFrom(Arr(es), at, ch, i + 1);
    assert StepTo(Arr(es), i) == SIndex(i) && (p in ch <==> p in gone);
    if p !in gone {
      ChangedNothing(es[i], p, ch);
      assert ChangedFrom(Arr(es), at, ch, i) == [Member("", es[i])] + rest;
    } else {
      assert ChangedFrom(Arr(es), at, ch, i) == [] + rest == rest;
    }
  }

  /** Rewrites keep the shape: the same children under the same names. */
  lemma {:induction false} RewrittenFrom(v: Value, at: Path, ch: map<Path, Option<Value>>, i: nat)
    requires i <= |Children(v)| && forall p :: p in ch ==> ch[p].Some?
    ensures |ChangedFrom(v, at, ch, i)| == |Children(v)| - i
    ensures forall k :: i <= k < |Children(v)| ==>
              var p := at + [StepTo(v, k)];
              ChangedFrom(v, at, ch, i)[k - i] == Member(KeyAt(v, k), if p in ch then ch[p].value else Changed(Children(v)[k], p, ch))
    decreases |Children(v)| - i
  {
    hide Changed, StepTo, KeyAt;
    if i < |Children(v)| {
      RewrittenFrom(v, at, ch, i + 1);
    }
  }

  lemma RewrittenChild(v: Value, at: Path, ch: map<Path, Option<Value>>, k: nat)
    requires ValidValue(v) && k < |Children(v)| && forall p :: p in ch ==> ch[p].Some?
    ensures var r, p := Changed(v, at, ch), at + [StepTo(v, k)];
            && ChildIndex(r, StepTo(v, k)) == k
            && Children(r)[k] == if p in ch then ch[p].value else Changed(Children(v)[k], p, ch)
  {
    hide ChangedFrom, FindMember;
    RewrittenMembers(v, at, ch);
    var ms := ChangedFrom(v, at, ch, 0);
    if v.Obj? {
      SameKeysFind(v.members, ms, k);
    }
  }

  lemma RewrittenMembers(v: Value, at: Path, ch: map<Path, Option<Value>>)
    requires forall p :: p in ch ==> ch[p].Some?
    ensures var ms := ChangedFrom(v, at, ch, 0);
            && |ms| == |Children(v)|
            && (v.Obj? ==> |ms| == |v.members| && forall j :: 0 <= j < |ms| ==> ms[j].key == v.members[j].key)
            && forall k :: 0 <= k < |ms| ==>
                 var p := at + [StepTo(v, k)];
                 ms[k].val == if p in ch then ch[p].value else Changed(Children(v)[k], p, ch)
  {
    hide ChangedFrom, Changed;
    RewrittenFrom(v, at, ch, 0);
    var ms := ChangedFrom(v, at, ch, 0);
    forall k | 0 <= k < |ms|
      ensures var p := at + [StepTo(v, k)];
              ms[k] == Member(KeyAt(v, k), if p in ch then ch[p].value else Changed(Children(v)[k], p, ch))
    {
      assert ms[k - 0] == ms[k];
    }
  }

  lemma SameKeysFind(ms: seq<Member>, ns: seq<Member>, k: nat)
    requires |ns| == |ms| && k < |ms| && forall j :: 0 <= j < |ms| ==> ns[j].key == ms[j].key
    requires forall i, j :: 0 <= i < j < |ms| ==> ms[i].key != ms[j].key
    ensures FindMember(ns, ms[k].key) == k
  {
    var f := FindMember(ns, ms[k].key);
    hide FindMember;
    assert f >= 0 && ms[f].key == ms[k].key;
  }

  /**
    Reading back after rewrites: along the original paths, the outermost change on the way wins, and a location
    with no change above it holds its original value with the changes below it made.
  */
  lemma {:induction false} RewrittenReads(v: Value, at: Path, ch: map<Path, Option<Value>>, path: Path)
    requires ValidValue(v) && Canonical(v, path) && ValueAt(v, path).Some? && forall p :: p in ch ==> ch[p].Some?
    requires forall i :: 0 < i < |path| ==> at + path[..i] !in ch
    ensures ValueAt(Changed(v, at, ch), path) ==
            if path != [] && at + path in ch then ch[at + path] else Some(Changed(ValueAt(v, path).value, at + path, ch))
    decreases |path|
  {
    hide Changed, StepTo, ValidValue, ChildIndex;
    if path == [] {
      assert at + path == at;
    } else {
      var k :| 0 <= k < |Children(v)| && path[0] == StepTo(v, k) && Canonical(Children(v)[k], path[1..]);
      StepIsChild(v, k);
      RewrittenChild(v, at, ch, k);
      var p := at + [path[0]];
      StepDown(at, path, ch);
      if |path| > 1 {
        RewrittenReads(Children(v)[k], p, ch, path[1..]);
      }
    }
  }

  lemma StepDown(at: Path, path: Path, ch: map<Path, Option<Value>>)
    requires path != [] && forall i :: 0 < i < |path| ==> at + path[..i] !in ch
    ensures var p := at + [path[0]];
            && p + path[1..] == at + path && (|path| == 1 ==> path[1..] == [] && p == at + path)
            && (|path| > 1 ==> p !in ch) && forall i :: 0 < i < |path[1..]| ==> p + path[1..][..i] !in ch
  {
    var p := at + [path[0]];
    assert |path| > 1 ==> at + path[..1] == p;
    forall i | 0 < i < |path[1..]| ensures p + path[1..][..i] !in ch {
      assert p + path[1..][..i] == at + path[..i + 1];
    }
  }
}
