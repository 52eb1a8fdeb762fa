/** Paths into documents (redis/json/path.go) and the single-location update they denote. */
module JsonPath {
  import opened Common
  import opened JsonTree

  datatype SliceSpec = SliceSpec(start: Option<int>, end: Option<int>, step: Option<int>)
  datatype Selector = ByKey(key: string) | ByIndex(index: int)

  /** A path segment; a filter is any test on values. */
  datatype Seg =
    | SKey(key: string)
    | SIndex(index: int)
    | SWildcard
    | SSlice(slice: SliceSpec)
    | SUnion(sels: seq<Selector>)
    | SRecursive
    | SFilter(test: Value -> bool)

  type Path = seq<Seg>

  /** `normIndex`: counts from the end when negative; -1 when out of range. */
  function NormIndex(index: int, n: nat): (r: int)
    ensures -1 <= r < n
    ensures r >= 0 <==> 0 <= index + n && index < n
    ensures r >= 0 ==> r == if index < 0 then index + n else index
  {
    var i := if index < 0 then index + n else index;
    if i < 0 || i >= n then -1 else i
  }

  function FindMember(ms: seq<Member>, key: string): (r: int)
    ensures -1 <= r < |ms|
    ensures r >= 0 ==> ms[r].key == key
    ensures r == -1 ==> forall i :: 0 <= i < |ms| ==> ms[i].key != key
  {
    FindFirst(ms, (m: Member) => m.key == key)
  }

  function Children(v: Value): (r: seq<Value>)
    ensures forall i :: 0 <= i < |r| ==> r[i] < v
  {
    match v
    case Leaf(_) => []
    case Arr(es) => es
    case Obj(ms) => seq(|ms|, i requires 0 <= i < |ms| => ms[i].val)
  }

  /** The concrete segment that addresses child `i`. */
  function StepTo(v: Value, i: nat): (s: Seg)
    requires i < |Children(v)|
  {
    match v
    case Arr(_) => SIndex(i)
    case Obj(ms) => SKey(ms[i].key)
  }

  /** The child a concrete segment addresses, or -1. */
  function ChildIndex(v: Value, s: Seg): (r: int)
    ensures -1 <= r < |Children(v)|
  {
    match (v, s)
    case (Obj(ms), SKey(k)) => FindMember(ms, k)
    case (Arr(es), SIndex(i)) => NormIndex(i, |es|)
    case _ => -1
  }

  function WithChild(v: Value, i: nat, x: Value): (r: Value)
    requires i < |Children(v)|
    ensures |Children(r)| == |Children(v)| && Children(r)[i] == x
    ensures forall k :: 0 <= k < |Children(v)| && k != i ==> Children(r)[k] == Children(v)[k]
    ensures forall k :: 0 <= k < |Children(v)| ==> StepTo(r, k) == StepTo(v, k)
  {
    match v
    case Arr(es) => Arr(es[i := x])
    case Obj(ms) => Obj(ms[i := Member(ms[i].key, x)])
  }

  function ValueAt(v: Value, path: Path): (r: Option<Value>)
    decreases |path|
  {
    if path == [] then Some(v)
    else
      var k := ChildIndex(v, path[0]);
      if k < 0 then None else ValueAt(Children(v)[k], path[1..])
  }

  /** The document with one location replaced, or one member appended; None when the path cannot be set. */
  function SetAt(v: Value, path: Path, x: Value): (r: Option<Value>)
    decreases |path|
  {
    if path == [] then Some(x)
    else
      var k := ChildIndex(v, path[0]);
      if k >= 0 then
        (match SetAt(Children(v)[k], path[1..], x)
         case None => None
         case Some(c) => Some(WithChild(v, k, c)))
      else if |path| == 1 && v.Obj? && path[0].SKey? then
        Some(Obj(v.members + [Member(path[0].key, x)]))
      else None
  }

  /** Reading what was set: the written location has the new value ... */
  lemma {:induction false} SetThenGet(v: Value, path: Path, x: Value)
    requires SetAt(v, path, x).Some?
    ensures ValueAt(SetAt(v, path, x).value, path) == Some(x)
    decreases |path|
  {
    if path != [] {
      var k, r := ChildIndex(v, path[0]), SetAt(v, path, x).value;
      if k >= 0 {
        SetThenGet(Children(v)[k], path[1..], x);
        SameChildIndex(v, r, path[0]);
      } else {
        AppendedMember(v.members, path[0].key, x);
        assert path[1..] == [];
      }
    }
  }

  lemma SameChildIndex(v: Value, w: Value, s: Seg)
    requires |Children(v)| == |Children(w)| && forall i :: 0 <= i < |Children(v)| ==> StepTo(v, i) == StepTo(w, i)
    requires v.Arr? == w.Arr? && v.Obj? == w.Obj?
    ensures ChildIndex(v, s) == ChildIndex(w, s)
  {
    if v.Obj? && s.SKey? {
      forall i | 0 <= i < |v.members|
        ensures v.members[i].key == w.members[i].key
      {
        assert StepTo(v, i) == StepTo(w, i);
      }
      SameKeysSameMember(v.members, w.members, s.key);
    }
  }

  lemma {:induction false} SameKeysSameMember(ms: seq<Member>, ns: seq<Member>, key: string)
    requires |ms| == |ns| && forall i :: 0 <= i < |ms| ==> ms[i].key == ns[i].key
    ensures FindMember(ms, key) == FindMember(ns, key)
  {
    if ms != [] {
      SameKeysSameMember(ms[1..], ns[1..], key);
    }
  }

  lemma {:induction false} AppendedMember(ms: seq<Member>, key: string, x: Value)
    requires FindMember(ms, key) == -1
    ensures FindMember(ms + [Member(key, x)], key) == |ms|
  {
    if ms != [] {
      assert (ms + [Member(key, x)])[1..] == ms[1..] + [Member(key, x)];
      AppendedMember(ms[1..], key, x);
    } else {
      assert ms + [Member(key, x)] == [Member(key, x)];
    }
  }

  /** ... and every location that is not on or under it keeps its value. */
  lemma {:induction false} SetElsewhere(v: Value, path: Path, x: Value, other: Path)
    requires SetAt(v, path, x).Some? && Diverges(v, path, other)
    ensures ValueAt(SetAt(v, path, x).value, other) == ValueAt(v, other)
    decreases |path|
  {
    var k, m, r := ChildIndex(v, path[0]), ChildIndex(v, other[0]), SetAt(v, path, x).value;
    if k >= 0 {
      SameChildIndex(v, r, other[0]);
      if k == m {
        SetElsewhere(Children(v)[k], path[1..], x, other[1..]);
      }
    } else {
      assert r.members[..|v.members|] == v.members;
      PrefixMember(v.members, r.members, other[0].key);
      assert Children(r)[m] == Children(v)[m];
    }
  }

  /** The two paths part at some container, at different children of it. */
  ghost predicate Diverges(v: Value, path: Path, other: Path)
    decreases |path|
  {
    && path != [] && other != []
    && var k, m := ChildIndex(v, path[0]), ChildIndex(v, other[0]);
       m >= 0 && (k != m || Diverges(Children(v)[k], path[1..], other[1..]))
  }

  lemma {:induction false} PrefixMember(ms: seq<Member>, ns: seq<Member>, key: string)
    requires ms <= ns && FindMember(ms, key) >= 0
    ensures FindMember(ns, key) == FindMember(ms, key)
  {
    if ms[0].key != key {
      PrefixMember(ms[1..], ns[1..], key);
    }
  }
}
