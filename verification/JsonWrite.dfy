/** Writing documents and single locations (redis/json/tree.go, redis/json/access.go). */
module JsonWrite {
  import opened Common
  import opened JsonTree
  import opened JsonPath
  import opened JsonEdit

  function Reduce(st: Store, es: seq<Effect>): Store
  {
    if es == [] then st else Apply(Reduce(st, es[..|es| - 1]), es[|es| - 1])
  }

  /** A command's context on one key: effects pile up on the state it started from, and ids come from a counter. */
  class Context {
    const committed: Store
    var pending: seq<Effect>
    var next: nat

    constructor (committed: Store, next: nat)
      ensures this.committed == committed && this.next == next && pending == [] && View() == committed
    {
      this.committed, this.next, pending := committed, next, [];
    }

    function View(): Store
      reads this`pending
    {
      Reduce(committed, pending)
    }

    method Emit(e: Effect)
      modifies this`pending
      ensures pending == old(pending) + [e] && View() == Apply(old(View()), e)
    {
      pending := pending + [e];
      assert pending[..|pending| - 1] == old(pending);
    }

    /** `newVid`: globally unique, here simply increasing. */
    method Mint() returns (n: nat)
      modifies this`next
      ensures n == old(next) && next == n + 1
    {
      n := next;
      next := n + 1;
    }
  }

  // ---- Encoding into fresh partitions ----

  ghost predicate Keeps(s0: Store, st: Store)
  {
    forall u :: u in s0 ==> u in st && st[u] == s0[u]
  }

  /** `t` was written at `vid` and in partitions minted since `lo`, leaving the partitions of `s0` alone. */
  ghost predicate Planted(s0: Store, st: Store, lo: nat, next: nat, t: Node, vid: Vid)
  {
    && t.Box? && t.vid == vid && Holds(st, t) && Linear(t) && Older(t, next)
    && (forall v :: HasVid(t, v) ==> v == vid || (v.Minted? && v.n >= lo))
    && Keeps(s0, st) && StoreOlder(st, next) && lo <= next
  }

  /** The same for a value used as an element: all its partitions are new. */
  ghost predicate Grown(s0: Store, st: Store, lo: nat, next: nat, t: Node)
  {
    && Holds(st, t) && Linear(t) && Older(t, next)
    && (forall v :: HasVid(t, v) ==> v.Minted? && v.n >= lo)
    && Keeps(s0, st) && StoreOlder(st, next) && lo <= next
  }

  lemma StartPlanting(s0: Store, vid: Vid, isObject: bool, next: nat)
    requires vid !in s0 && StoreOlder(s0, next) && (vid.Minted? ==> vid.n < next)
    ensures Planted(s0, Apply(s0, SetTag(vid, if isObject then ObjectTag else ArrayTag)), next, next, Box(isObject, vid, []), vid)
  {
    assert ElemsOf([]) == [];
  }

  /** One more element: its value is new, so it is apart from what is already planted. */
  lemma PlantKid(s0: Store, s1: Store, s2: Store, lo: nat, n1: nat, n2: nat, next: nat, t: Node, vid: Vid, id: ElemId, sub: Node)
    requires vid !in s0 && Planted(s0, s1, lo, n1, t, vid) && Grown(s1, s2, n1, n2, sub) && n2 <= next
    requires (id.Name? <==> t.isObject) && (id.Handle? ==> id.n < next) && (vid.Minted? ==> vid.n < n1)
    requires forall i :: 0 <= i < |t.kids| ==> t.kids[i].id != id
    ensures Planted(s0, Apply(s2, EditElem(vid, Append(id, RefOf(sub)))), lo, next, t.(kids := t.kids + [Kid(id, sub)]), vid)
  {
    var e := Append(id, sub);
    forall v | HasVid(t, v)
      ensures v in s1 && !HasVid(sub, v)
    {
      HoldsHasVids(s1, t, v);
      OlderVids(t, n1, v);
    }
    HoldsFrame(s1, s2, t);
    KindHere(t);
    assert HasVid(t, vid);
    EditHolds(s2, t, vid, e);
    EditLinear(t, vid, e);
    OlderGrows(t, n1, next);
    OlderGrows(sub, n2, next);
    EditOlder(t, vid, e, next);
    var t' := EditAt(t, vid, e);
    assert t' == t.(kids := t.kids + [Kid(id, sub)]);
    forall v | HasVid(t', v)
      ensures v == vid || (v.Minted? && v.n >= lo)
    {
      EditVids(t, vid, e, v);
    }
  }

  lemma {:induction false} KindElsewhere(t: Node, vid: Vid, isObject: bool)
    requires !HasVid(t, vid)
    ensures KindAt(t, vid, isObject)
  {
    if t.Box? {
      forall i | 0 <= i < |t.kids| ensures KindAt(t.kids[i].node, vid, isObject) {
        KindElsewhere(t.kids[i].node, vid, isObject);
      }
    }
  }

  lemma KindHere(t: Node)
    requires t.Box? && Linear(t)
    ensures KindAt(t, t.vid, t.isObject)
  {
    forall i | 0 <= i < |t.kids| ensures KindAt(t.kids[i].node, t.vid, t.isObject) {
      KindElsewhere(t.kids[i].node, t.vid, t.isObject);
    }
  }

  lemma PlantedIsGrown(s0: Store, st: Store, lo: nat, next: nat, t: Node, n: nat)
    requires lo == n + 1 && Planted(s0, st, lo, next, t, Minted(n))
    ensures Grown(s0, st, n, next, t)
  {
  }

  /** `encodeContainer`: members and elements in order, each after its own contents. */
  method EncodeContainer(ctx: Context, vid: Vid, v: Value) returns (ghost t: Node)
    requires !v.Leaf? && ValidValue(v) && vid !in ctx.View()
    requires StoreOlder(ctx.View(), ctx.next) && (vid.Minted? ==> vid.n < ctx.next)
    modifies ctx
    ensures Planted(old(ctx.View()), ctx.View(), old(ctx.next), ctx.next, t, vid) && Erase(t) == v
    decreases v, 0
  {
    hide *;
    ghost var s0, lo := ctx.View(), ctx.next;
    StartPlanting(s0, vid, v.Obj?, lo);
    PartsValid(v);
    if v.Obj? {
      ctx.Emit(SetTag(vid, ObjectTag));
      t := Box(true, vid, []);
      for i := 0 to |v.members|
        invariant Planted(s0, ctx.View(), lo, ctx.next, t, vid) && t.Box? && t.isObject && |t.kids| == i
        invariant forall k :: 0 <= k < i ==> t.kids[k].id == Name(v.members[k].key) && Erase(t.kids[k].node) == v.members[k].val
      {
        ghost var s1, n1 := ctx.View(), ctx.next;
        PlantedFacts(s0, s1, lo, n1, t, vid);
        var ref, sub := EncodeRef(ctx, v.members[i].val);
        GrownFacts(s1, ctx.View(), n1, ctx.next, sub);
        PlantKid(s0, s1, ctx.View(), lo, n1, ctx.next, ctx.next, t, vid, Name(v.members[i].key), sub);
        ctx.Emit(EditElem(vid, Append(Name(v.members[i].key), ref)));
        t := t.(kids := t.kids + [Kid(Name(v.members[i].key), sub)]);
      }
    } else {
      ctx.Emit(SetTag(vid, ArrayTag));
      t := Box(false, vid, []);
      for i := 0 to |v.elems|
        invariant Planted(s0, ctx.View(), lo, ctx.next, t, vid) && t.Box? && !t.isObject && |t.kids| == i
        invariant forall k :: 0 <= k < i ==> Erase(t.kids[k].node) == v.elems[k] && t.kids[k].id.Handle? && t.kids[k].id.n < ctx.next
      {
        ghost var s1, n1 := ctx.View(), ctx.next;
        PlantedFacts(s0, s1, lo, n1, t, vid);
        var ref, sub := EncodeRef(ctx, v.elems[i]);
        ghost var n2 := ctx.next;
        GrownFacts(s1, ctx.View(), n1, n2, sub);
        var h := ctx.Mint();
        PlantKid(s0, s1, ctx.View(), lo, n1, n2, ctx.next, t, vid, Handle(h), sub);
        ctx.Emit(EditElem(vid, Append(Handle(h), ref)));
        t := t.(kids := t.kids + [Kid(Handle(h), sub)]);
      }
    }
    ErasesTo(t, v);
  }

  lemma PartsValid(v: Value)
    requires ValidValue(v)
    ensures v.Arr? ==> forall i :: 0 <= i < |v.elems| ==> ValidValue(v.elems[i])
    ensures v.Obj? ==> forall i :: 0 <= i < |v.members| ==> ValidValue(v.members[i].val)
    ensures v.Obj? ==> forall i, j :: 0 <= i < j < |v.members| ==> v.members[i].key != v.members[j].key
  {
  }

  lemma PlantedFacts(s0: Store, st: Store, lo: nat, next: nat, t: Node, vid: Vid)
    requires Planted(s0, st, lo, next, t, vid)
    ensures t.Box? && StoreOlder(st, next) && lo <= next
  {
  }

  lemma GrownFacts(s0: Store, st: Store, lo: nat, next: nat, t: Node)
    requires Grown(s0, st, lo, next, t)
    ensures lo <= next && Keeps(s0, st) && StoreOlder(st, next) && forall v :: HasVid(t, v) ==> v.Minted? && v.n >= lo
  {
  }

  lemma ErasesTo(t: Node, v: Value)
    requires t.Box? && !v.Leaf? && t.isObject == v.Obj?
    requires v.Obj? ==> |t.kids| == |v.members|
                        && forall k :: 0 <= k < |t.kids| ==> t.kids[k].id == Name(v.members[k].key) && Erase(t.kids[k].node) == v.members[k].val
    requires v.Arr? ==> |t.kids| == |v.elems| && forall k :: 0 <= k < |t.kids| ==> Erase(t.kids[k].node) == v.elems[k]
    ensures Erase(t) == v
  {
  }

  /** `encodeRef`: a scalar stays inline, a container goes into its own fresh partition. */
  method EncodeRef(ctx: Context, v: Value) returns (ref: Ref, ghost t: Node)
    requires ValidValue(v) && StoreOlder(ctx.View(), ctx.next)
    modifies ctx
    ensures Grown(old(ctx.View()), ctx.View(), old(ctx.next), ctx.next, t) && Erase(t) == v && ref == RefOf(t)
    decreases v, 1
  {
    if v.Leaf? {
      t := Tip(v.scalar);
      return Inline(v.scalar), t;
    }
    ghost var s0 := ctx.View();
    var n := ctx.Mint();
    t := EncodeContainer(ctx, Minted(n), v);
    PlantedIsGrown(s0, ctx.View(), n + 1, ctx.next, t, n);
    return Child(Minted(n)), t;
  }

  /** `encodeRoot`: whatever document is written to a fresh key reads back as it was. */
  method EncodeRoot(ctx: Context, v: Value) returns (ghost t: Node)
    requires ValidValue(v) && Root !in ctx.View() && StoreOlder(ctx.View(), ctx.next)
    modifies ctx
    ensures Layout(ctx.View(), t) && Erase(t) == v && Document(ctx.View()) == Some(v)
    ensures Older(t, ctx.next) && StoreOlder(ctx.View(), ctx.next) && ctx.next >= old(ctx.next)
    ensures Keeps(old(ctx.View()), ctx.View())
  {
    if !v.Leaf? {
      t := EncodeContainer(ctx, Root, v);
    } else {
      ctx.Emit(SetTag(Root, ScalarTag));
      ctx.Emit(SetScalar(Root, v.scalar));
      t := Tip(v.scalar);
    }
    LayoutReads(ctx.View(), t);
  }

  // ---- Walking and setting one location ----

  /** A box of a held tree is a partition of the store, and its elements lead to its kids. */
  lemma {:induction false} NodeAtHeld(st: Store, t: Node, path: Path)
    requires Holds(st, t) && NodeAt(t, path).Some?
    ensures Holds(st, NodeAt(t, path).value)
    decreases |path|
  {
    if path != [] {
      NodeAtHeld(st, t.kids[KidIndex(t, path[0])].node, path[1..]);
    }
  }

  lemma {:induction false} NodeAtSnoc(t: Node, path: Path, s: Seg)
    ensures NodeAt(t, path + [s]) ==
            (match NodeAt(t, path)
             case None => None
             case Some(n) => if n.Tip? || KidIndex(n, s) < 0 then None else Some(n.kids[KidIndex(n, s)].node))
    decreases |path|
  {
    if path == [] {
      assert path + [s] == [s] && [s][1..] == [];
    } else if t.Box? && KidIndex(t, path[0]) >= 0 {
      assert (path + [s])[1..] == path[1..] + [s];
      NodeAtSnoc(t.kids[KidIndex(t, path[0])].node, path[1..], s);
    }
  }

  lemma {:induction false} NodeAtPrefix(t: Node, path: Path, i: nat)
    requires i <= |path| && NodeAt(t, path[..i]).None?
    ensures NodeAt(t, path).None?
    decreases |path| - i
  {
    if i < |path| {
      NodeAtSnoc(t, path[..i], path[i]);
      assert path[..i] + [path[i]] == path[..i + 1];
      NodeAtPrefix(t, path, i + 1);
    } else {
      assert path[..i] == path;
    }
  }

  /** The element a concrete segment picks in a partition, as `elementByKey` and `elementByIndex` do. */
  function ElemIndex(p: Partition, s: Seg): (r: int)
    ensures -1 <= r < |p.elems|
  {
    match s
    case SKey(k) => if p.tag == ObjectTag then FindElem(p.elems, Name(k)) else -1
    case SIndex(i) => if p.tag == ArrayTag then NormIndex(i, |p.elems|) else -1
    case _ => -1
  }

  lemma ElemIndexIsKid(st: Store, t: Node, s: Seg)
    requires t.Box? && Holds(st, t)
    ensures t.vid in st && ElemIndex(st[t.vid], s) == KidIndex(t, s)
    ensures KidIndex(t, s) >= 0 ==> st[t.vid].elems[KidIndex(t, s)] == Elem(t.kids[KidIndex(t, s)].id, RefOf(t.kids[KidIndex(t, s)].node))
  {
  }

  /** `walkToParent`: the partition a path leads to, when every step goes through a container. */
  method WalkToParent(root: Store, segs: Path, ghost t: Node) returns (r: Option<Vid>)
    requires Layout(root, t)
    ensures r.None? <==> NodeAt(t, segs).None? || (NodeAt(t, segs).value.Tip? && segs != [])
    ensures r.Some? ==> r.value in root && (NodeAt(t, segs).value.Box? ==> r.value == NodeAt(t, segs).value.vid)
                        && (NodeAt(t, segs).value.Tip? ==> r.value == Root)
  {
    var parent := Root;
    ghost var cur := t;
    for i := 0 to |segs|
      invariant NodeAt(t, segs[..i]) == Some(cur) && parent in root && (cur.Box? ==> Holds(root, cur) && parent == cur.vid)
      invariant cur.Tip? ==> i == 0 && parent == Root
    {
      NodeAtSnoc(t, segs[..i], segs[i]);
      assert segs[..i] + [segs[i]] == segs[..i + 1];
      if cur.Box? {
        ElemIndexIsKid(root, cur, segs[i]);
      }
      var k := ElemIndex(root[parent], segs[i]);
      if k < 0 {
        NodeAtPrefix(t, segs, i + 1);
        return None;
      }
      cur := cur.kids[k].node;
      match root[parent].elems[k].ref {
        case Inline(_) =>
          if i + 1 < |segs| {
            NodeAtSnoc(t, segs[..i + 1], segs[i + 1]);
            assert segs[..i + 1] + [segs[i + 1]] == segs[..i + 2];
            NodeAtPrefix(t, segs, i + 2);
          } else {
            assert segs[..i + 1] == segs;
          }
          return None;
        case Child(vid) =>
          if vid !in root {
            return None;
          }
          parent := vid;
      }
    }
    assert segs[..|segs|] == segs;
    return Some(parent);
  }

  /** Where a path's last segment applies: the box above it in the tree the snapshot holds. */
  ghost predicate Addressable(t0: Node, path: Path)
    requires path != []
  {
    SetTree(t0, path, Tip(Null)).Some?
  }

  /** The edit `setValueAtPath` makes, read off the snapshot's tree. */
  ghost function PathEdit(t0: Node, path: Path, sub: Node): (r: (Vid, Edit<Node>))
    requires path != [] && Addressable(t0, path)
  {
    var up := NodeAt(t0, path[..|path| - 1]).value;
    (up.vid, SetEdit(up, path[|path| - 1], sub).value)
  }

  lemma PathEditIsSet(t0: Node, path: Path, sub: Node)
    requires Linear(t0) && path != []
    ensures Addressable(t0, path) <==> SetAt(Erase(t0), path, Erase(sub)).Some?
    ensures Addressable(t0, path) ==>
              SetAt(Erase(t0), path, Erase(sub)) == Some(Erase(EditAt(t0, PathEdit(t0, path, sub).0, PathEdit(t0, path, sub).1)))
  {
    EditIsSet(t0, path, sub);
  }

  /** Everything a write needs to know of the state it lands on. */
  ghost predicate Sound(st: Store, t: Node, next: nat)
  {
    Layout(st, t) && Older(t, next) && StoreOlder(st, next)
  }

  /** A box keeps the kind it has in `t0`. */
  ghost predicate SameKinds(t0: Node, t: Node)
  {
    forall v, b :: HasVid(t0, v) && KindAt(t0, v, b) ==> KindAt(t, v, b)
  }

  lemma {:induction false} NodeAtKind(t: Node, path: Path)
    requires Linear(t) && NodeAt(t, path).Some? && NodeAt(t, path).value.Box?
    ensures KindAt(t, NodeAt(t, path).value.vid, NodeAt(t, path).value.isObject)
    decreases |path|
  {
    var up := NodeAt(t, path).value;
    if path == [] {
      KindHere(t);
    } else {
      var k := KidIndex(t, path[0]);
      NodeAtKind(t.kids[k].node, path[1..]);
      NodeAtHas(t.kids[k].node, path[1..]);
      forall i | 0 <= i < |t.kids| && i != k ensures KindAt(t.kids[i].node, up.vid, up.isObject) {
        assert Apart(t.kids[if i < k then i else k].node, t.kids[if i < k then k else i].node);
        KindElsewhere(t.kids[i].node, up.vid, up.isObject);
      }
    }
  }

  lemma {:induction false} NodeAtOlder(t: Node, path: Path, next: nat)
    requires Older(t, next) && NodeAt(t, path).Some?
    ensures Older(NodeAt(t, path).value, next)
    decreases |path|
  {
    if path != [] {
      NodeAtOlder(t.kids[KidIndex(t, path[0])].node, path[1..], next);
    }
  }

  /** A new element value, linked in by one edit: the layout follows. */
  lemma LinkIn(s1: Store, st: Store, t: Node, vid: Vid, e: Edit<Node>, n1: nat, next: nat)
    requires Sound(s1, t, n1) && KindAt(t, vid, e.id.Name?) && vid in s1
    requires !e.Drop? ==> Grown(s1, st, n1, next, e.to) && (e.id.Handle? ==> e.id.n < next)
    requires e.Drop? ==> st == s1 && next == n1
    ensures Sound(Apply(st, EditElem(vid, RefEdit(e))), EditAt(t, vid, e), next)
  {
    var st' := Apply(st, EditElem(vid, RefEdit(e)));
    if t.Box? {
      forall v | HasVid(t, v)
        ensures v in s1 && (!e.Drop? ==> !HasVid(e.to, v))
      {
        HoldsHasVids(s1, t, v);
        OlderVids(t, n1, v);
      }
      HoldsFrame(s1, st, t);
      assert !e.Drop? ==> !HasVid(e.to, vid);
      EditHolds(st, t, vid, e);
      EditLinear(t, vid, e);
      OlderGrows(t, n1, next);
      EditOlder(t, vid, e, next);
    } else {
      assert st[Root] == s1[Root];
    }
  }

  /** What the snapshot's partition says about the box above a path's last segment. */
  lemma ParentFacts(root: Store, t0: Node, path: Path, next: nat)
    requires Layout(root, t0) && Older(t0, next) && path != []
    requires NodeAt(t0, path[..|path| - 1]).Some? && NodeAt(t0, path[..|path| - 1]).value.Box?
    ensures var node, last := NodeAt(t0, path[..|path| - 1]).value, path[|path| - 1];
            && node.vid in root && HasVid(t0, node.vid) && KindAt(t0, node.vid, node.isObject)
            && (root[node.vid].tag == ObjectTag <==> node.isObject)
            && ElemIndex(root[node.vid], last) == KidIndex(node, last)
            && (KidIndex(node, last) >= 0 ==>
                  var id := node.kids[KidIndex(node, last)].id;
                  && root[node.vid].elems[KidIndex(node, last)].id == id
                  && (id.Name? <==> node.isObject) && (id.Handle? ==> id.n < next))
  {
    var up := path[..|path| - 1];
    NodeAtHeld(root, t0, up);
    NodeAtHas(t0, up);
    ElemIndexIsKid(root, NodeAt(t0, up).value, path[|path| - 1]);
    NodeAtKind(t0, up);
    NodeAtOlder(t0, up, next);
    NodeAtErases(t0, up);
  }

  /**
    `setValueAtPath`: reads the snapshot `root`, emits into `ctx`.
    `t0` is the snapshot's layout, `t` the layout the effects land on; they are the same for a single write.
  */
  method SetValueAtPath(ctx: Context, root: Store, path: Path, v: Value, ghost t0: Node, ghost t: Node)
    returns (applied: bool, ghost sub: Node, ghost t': Node)
    requires Layout(root, t0) && Older(t0, ctx.next) && Sound(ctx.View(), t, ctx.next) && ValidValue(v)
    requires SameKinds(t0, t) && forall u :: u in root ==> u in ctx.View()
    modifies ctx
    ensures !applied ==> ctx.pending == old(ctx.pending) && ctx.next == old(ctx.next)
    ensures applied ==> Sound(ctx.View(), t', ctx.next) && ctx.next >= old(ctx.next)
    ensures path == [] ==> applied && Erase(t') == v
    ensures path != [] ==> (applied <==> t0.Box? && Addressable(t0, path))
    ensures path != [] && applied ==>
              && Erase(sub) == v
              && (forall u :: HasVid(sub, u) ==> u.Minted? && u.n >= old(ctx.next))
              && t' == EditAt(t, PathEdit(t0, path, sub).0, PathEdit(t0, path, sub).1)
              && forall u :: u in root ==> u in ctx.View()
  {
    hide *;
    sub, t' := Tip(Null), t;
    SoundFacts(ctx.View(), t, ctx.next);
    if path == [] {
      Emptied(ctx.View(), ctx.next);
      ctx.Emit(DeleteKey);
      t' := EncodeRoot(ctx, v);
      SoundFrom(ctx.View(), t', ctx.next);
      return true, sub, t';
    }
    var last := path[|path| - 1];
    var up := WalkToParent(root, path[..|path| - 1], t0);
    SettingFacts(root, t0, t, ctx.View(), path, ctx.next, up);
    if up.None? {
      return false, sub, t';
    }
    var parent := root[up.value];
    var k := ElemIndex(parent, last);
    if k < 0 && !(last.SKey? && parent.tag == ObjectTag) {
      return false, sub, t';
    }
    ghost var s1, n1 := ctx.View(), ctx.next;
    var ref;
    ref, sub := EncodeRef(ctx, v);
    GrownFacts(s1, ctx.View(), n1, ctx.next, sub);
    var id := if k >= 0 then parent.elems[k].id else Name(last.key);
    ghost var e: Edit<Node> := if k >= 0 then Put(id, sub) else Append(id, sub);
    RefEditIs(e);
    LinkIn(s1, ctx.View(), t, up.value, e, n1, ctx.next);
    t' := EditAt(t, up.value, e);
    KeysStay(root, s1, ctx.View(), up.value, RefEdit(e));
    if k >= 0 {
      ctx.Emit(EditElem(up.value, Put(id, ref)));
    } else {
      ctx.Emit(EditElem(up.value, Append(id, ref)));
    }
    return true, sub, t';
  }

  lemma SoundFacts(st: Store, t: Node, next: nat)
    requires Sound(st, t, next)
    ensures StoreOlder(st, next)
  {
  }

  lemma SoundFrom(st: Store, t: Node, next: nat)
    requires Layout(st, t) && Older(t, next) && StoreOlder(st, next)
    ensures Sound(st, t, next)
  {
  }

  lemma Emptied(st: Store, next: nat)
    ensures Apply(st, DeleteKey) == map[] && StoreOlder(map[], next)
  {
  }

  lemma RefEditIs(e: Edit<Node>)
    requires !e.Drop?
    ensures RefEdit(e) == if e.Put? then Put(e.id, RefOf(e.to)) else Append(e.id, RefOf(e.to))
  {
  }

  lemma KeysStay(root: Store, s1: Store, st: Store, vid: Vid, e: Edit<Ref>)
    requires (forall u :: u in root ==> u in s1) && Keeps(s1, st)
    ensures forall u :: u in root ==> u in Apply(st, EditElem(vid, e))
  {
  }

  /** What the walk and the element it finds say about the edit to make. */
  lemma SettingFacts(root: Store, t0: Node, t: Node, s1: Store, path: Path, next: nat, up: Option<Vid>)
    requires Layout(root, t0) && Older(t0, next) && SameKinds(t0, t) && path != [] && forall u :: u in root ==> u in s1
    requires var segs := path[..|path| - 1];
             && (up.None? <==> NodeAt(t0, segs).None? || (NodeAt(t0, segs).value.Tip? && segs != []))
             && (up.Some? ==> up.value in root && (NodeAt(t0, segs).value.Box? ==> up.value == NodeAt(t0, segs).value.vid)
                              && (NodeAt(t0, segs).value.Tip? ==> up.value == Root))
    ensures up.None? ==> !(t0.Box? && Addressable(t0, path))
    ensures up.Some? ==>
              var last, parent := path[|path| - 1], root[up.value];
              var k := ElemIndex(parent, last);
              var id := if k >= 0 then parent.elems[k].id else if last.SKey? then Name(last.key) else Handle(0);
              var can := k >= 0 || (last.SKey? && parent.tag == ObjectTag);
              && (can <==> t0.Box? && Addressable(t0, path))
              && (can ==> KindAt(t, up.value, id.Name?) && up.value in s1 && (id.Handle? ==> id.n < next)
                          && forall sub :: PathEdit(t0, path, sub) == (up.value, if k >= 0 then Put(id, sub) else Append(id, sub)))
  {
    var segs := path[..|path| - 1];
    if NodeAt(t0, segs).Some? && NodeAt(t0, segs).value.Box? {
      ParentFacts(root, t0, path, next);
    }
  }

  datatype Mode = Always | OnlyIfAbsent | OnlyIfPresent
  datatype Reply = Ok | Nil | MustCreateAtRoot

  ghost predicate Concrete(path: Path)
  {
    forall i :: 0 <= i < |path| ==> path[i].SKey? || path[i].SIndex?
  }

  /**
    JSON.SET on a concrete path: the document becomes the old one with that location replaced or that member
    appended, and a refused or impossible write changes nothing.
  */
  method JsonSet(ctx: Context, path: Path, v: Value, mode: Mode, ghost t: Node) returns (reply: Reply, ghost t': Node)
    requires ctx.View() == map[] || Sound(ctx.View(), t, ctx.next)
    requires ValidValue(v) && Concrete(path)
    modifies ctx
    ensures var old_ := old(Document(ctx.View()));
            var present := old_.Some? && ValueAt(old_.value, path).Some?;
            && (reply == Ok <==>
                  && (mode == OnlyIfAbsent ==> !present) && (mode == OnlyIfPresent ==> present)
                  && (path == [] || (old_.Some? && SetAt(old_.value, path, v).Some?)))
            && (reply == Ok ==> Sound(ctx.View(), t', ctx.next)
                                && Document(ctx.View()) == if path == [] then Some(v) else SetAt(old_.value, path, v))
            && (reply != Ok ==> ctx.pending == old(ctx.pending))
  {
    t' := t;
    var root := ctx.View();
    var exists_ := root != map[];
    if exists_ {
      LayoutReads(root, t);
    }
    var doc := Document(root);
    var present := doc.Some? && ValueAt(doc.value, path).Some?;
    if (mode == OnlyIfAbsent && present) || (mode == OnlyIfPresent && !present) {
      return Nil, t';
    }
    if !exists_ {
      if path != [] {
        return MustCreateAtRoot, t';
      }
      t' := EncodeRoot(ctx, v);
      return Ok, t';
    }
    var applied;
    ghost var sub;
    applied, sub, t' := SetValueAtPath(ctx, root, path, v, t, t);
    if path != [] {
      if t.Box? {
        PathEditIsSet(t, path, if applied then sub else Tip(Null));
        SettableForAny(Erase(t), path, v, Leaf(Null));
      } else {
        assert SetAt(Erase(t), path, v) == None;
      }
    }
    if !applied {
      return Nil, t';
    }
    LayoutReads(ctx.View(), t');
    return Ok, t';
  }

  lemma {:induction false} SettableForAny(v: Value, path: Path, x: Value, y: Value)
    ensures SetAt(v, path, x).Some? <==> SetAt(v, path, y).Some?
    decreases |path|
  {
    if path != [] && ChildIndex(v, path[0]) >= 0 {
      SettableForAny(Children(v)[ChildIndex(v, path[0])], path[1..], x, y);
    }
  }
}
