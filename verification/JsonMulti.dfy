/** Writes to many locations computed from one snapshot act as one simultaneous update of the document. */
module JsonMulti {
  import opened Common
  import opened JsonTree
  import opened JsonPath
  import opened JsonEdit
  import opened JsonMatch
  import opened JsonWrite

  // ---- The simultaneous update of a document ----

  function KeyAt(v: Value, i: nat): string
    requires i < |Children(v)|
  {
    match v case Arr(_) => "" case Obj(ms) => ms[i].key
  }

  /**
    A change at a location puts a value there, or removes it.
    All changes applied at once to the original document; `at` is where `v` stands in it.
  */
  ghost function Changed(v: Value, at: Path, ch: map<Path, Option<Value>>): (r: Value)
    decreases v, |Children(v)| + 1
  {
    match v
    case Leaf(_) => v
    case Arr(_) => Arr(Values(ChangedFrom(v, at, ch, 0)))
    case Obj(_) => Obj(ChangedFrom(v, at, ch, 0))
  }

  ghost function ChangedFrom(v: Value, at: Path, ch: map<Path, Option<Value>>, i: nat): (r: seq<Member>)
    requires i <= |Children(v)|
    decreases v, |Children(v)| - i
  {
    if i == |Children(v)| then []
    else
      var p := at + [StepTo(v, i)];
      (if p !in ch then [Member(KeyAt(v, i), Changed(Children(v)[i], p, ch))]
       else match ch[p]
            case None => []
            case Some(x) => [Member(KeyAt(v, i), x)])
      + ChangedFrom(v, at, ch, i + 1)
  }

  // ---- The same on labelled trees, keyed by the slot an effect names ----

  type Slots = map<(Vid, ElemId), Option<Node>>

  ghost function Altered(t: Node, m: Slots): (r: Node)
    decreases t, 1, 0
  {
    if t.Tip? then t else Box(t.isObject, t.vid, AlteredFrom(t, m, 0))
  }

  ghost function AlteredFrom(t: Node, m: Slots, i: nat): (r: seq<Kid>)
    requires t.Box? && i <= |t.kids|
    decreases t, 0, |t.kids| - i
  {
    if i == |t.kids| then []
    else
      var slot := (t.vid, t.kids[i].id);
      (if slot !in m then [Kid(t.kids[i].id, Altered(t.kids[i].node, m))]
       else match m[slot]
            case None => []
            case Some(n) => [Kid(t.kids[i].id, n)])
      + AlteredFrom(t, m, i + 1)
  }

  lemma {:induction false} AlteredFromLacks(t: Node, m: Slots, i: nat, id: ElemId)
    requires t.Box? && i <= |t.kids| && forall j :: i <= j < |t.kids| ==> t.kids[j].id != id
    ensures forall k :: 0 <= k < |AlteredFrom(t, m, i)| ==> AlteredFrom(t, m, i)[k].id != id
    decreases |t.kids| - i
  {
    if i < |t.kids| {
      AlteredFromLacks(t, m, i + 1, id);
    }
  }

  lemma EditKidsHead(x: Kid, rest: seq<Kid>, e: Edit<Node>)
    requires !e.Append?
    ensures EditKids([x] + rest, e) ==
            if x.id != e.id then [x] + EditKids(rest, e)
            else if e.Put? then [Kid(e.id, e.to)] + rest else rest
  {
    FindKidHead(x, rest, e.id);
    hide FindKid;
    var kids, k := [x] + rest, FindKid(rest, e.id);
    if x.id != e.id && k >= 0 {
      assert kids[k + 1] == rest[k];
      if e.Put? {
        assert kids[k + 1 := Kid(e.id, e.to)] == [x] + rest[k := Kid(e.id, e.to)];
      } else {
        assert kids[..k + 1] + kids[k + 2..] == [x] + (rest[..k] + rest[k + 1..]);
      }
    } else if x.id == e.id {
      assert kids[0 := Kid(e.id, x.node)][1..] == kids[1..] == rest;
    }
  }

  lemma FindKidHead(x: Kid, rest: seq<Kid>, id: ElemId)
    ensures FindKid([x] + rest, id) == if x.id == id then 0 else if FindKid(rest, id) < 0 then -1 else FindKid(rest, id) + 1
  {
    assert ElemsOf([x] + rest)[1..] == ElemsOf(rest);
  }

  lemma EditKidsNone(kids: seq<Kid>, e: Edit<Node>)
    requires !e.Append? && forall i :: 0 <= i < |kids| ==> kids[i].id != e.id
    ensures EditKids(kids, e) == kids
  {
  }

  function Mark(e: Edit<Node>): Option<Node>
    requires !e.Append?
  {
    if e.Put? then Some(e.to) else None
  }

  /** New subtrees do not contain the boxes of the original tree. */
  ghost predicate NewTo(m: Slots, vid: Vid)
  {
    forall s :: s in m && m[s].Some? ==> !HasVid(m[s].value, vid)
  }

  /** A slot the edit names has not been removed before, nor refilled before a removal. */
  ghost predicate Compatible(m: Slots, vid: Vid, e: Edit<Node>)
  {
    !e.Append? && ((vid, e.id) in m ==> (m[(vid, e.id)].Some? <==> e.Put?))
  }

  /** One more effect, landing on a tree already altered, is one more change to the original tree. */
  lemma {:induction false} AlterOne(t: Node, m: Slots, vid: Vid, e: Edit<Node>)
    requires Linear(t) && NewTo(m, vid) && Compatible(m, vid, e)
    ensures EditAt(Altered(t, m), vid, e) == Altered(t, m[(vid, e.id) := Mark(e)])
    decreases t, 1, 0
  {
    if t.Box? {
      if t.vid == vid {
        AlterHere(t, m, e, 0);
      } else {
        AlterBelow(t, m, vid, e, 0);
        var kids := AlteredFrom(t, m, 0);
        assert EditAt(Altered(t, m), vid, e).kids
            == seq(|kids|, i requires 0 <= i < |kids| => Kid(kids[i].id, EditAt(kids[i].node, vid, e)));
      }
    }
  }

  lemma {:induction false} AlteredElsewhere(t: Node, m: Slots, vid: Vid, id: ElemId, x: Option<Node>)
    requires !HasVid(t, vid)
    ensures Altered(t, m[(vid, id) := x]) == Altered(t, m)
    decreases t, 1, 0
  {
    if t.Box? {
      AlteredFromElsewhere(t, m, vid, id, x, 0);
    }
  }

  lemma {:induction false} AlteredFromElsewhere(t: Node, m: Slots, vid: Vid, id: ElemId, x: Option<Node>, i: nat)
    requires t.Box? && !HasVid(t, vid) && i <= |t.kids|
    ensures AlteredFrom(t, m[(vid, id) := x], i) == AlteredFrom(t, m, i)
    decreases t, 0, |t.kids| - i
  {
    if i < |t.kids| {
      AlteredElsewhere(t.kids[i].node, m, vid, id, x);
      AlteredFromElsewhere(t, m, vid, id, x, i + 1);
    }
  }

  lemma {:induction false} AlterHere(t: Node, m: Slots, e: Edit<Node>, i: nat)
    requires t.Box? && Linear(t) && Compatible(m, t.vid, e) && i <= |t.kids|
    ensures EditKids(AlteredFrom(t, m, i), e) == AlteredFrom(t, m[(t.vid, e.id) := Mark(e)], i)
    decreases |t.kids| - i
  {
    if i < |t.kids| {
      var m' := m[(t.vid, e.id) := Mark(e)];
      var kid, slot := t.kids[i], (t.vid, t.kids[i].id);
      AlteredElsewhere(kid.node, m, t.vid, e.id, Mark(e));
      AlterHere(t, m, e, i + 1);
      var rest := AlteredFrom(t, m, i + 1);
      if kid.id == e.id {
        AlteredFromLacks(t, m, i + 1, e.id);
        EditKidsNone(rest, e);
        if slot in m && m[slot].None? {
          assert AlteredFrom(t, m, i) == [] + rest == rest;
          assert AlteredFrom(t, m', i) == [] + AlteredFrom(t, m', i + 1) == AlteredFrom(t, m', i + 1);
        } else {
          var head := AlteredFrom(t, m, i)[0];
          assert AlteredFrom(t, m, i) == [head] + rest;
          EditKidsHead(head, rest, e);
          assert e.Drop? ==> AlteredFrom(t, m', i) == [] + AlteredFrom(t, m', i + 1) == AlteredFrom(t, m', i + 1);
        }
      } else if slot in m && m[slot].None? {
        assert AlteredFrom(t, m, i) == [] + rest == rest;
        assert AlteredFrom(t, m', i) == [] + AlteredFrom(t, m', i + 1) == AlteredFrom(t, m', i + 1);
      } else {
        var head := AlteredFrom(t, m, i)[0];
        assert AlteredFrom(t, m, i) == [head] + rest;
        EditKidsHead(head, rest, e);
        assert AlteredFrom(t, m', i) == [head] + AlteredFrom(t, m', i + 1);
      }
    }
  }

  ghost function EditEach(kids: seq<Kid>, vid: Vid, e: Edit<Node>): (r: seq<Kid>)
  {
    seq(|kids|, i requires 0 <= i < |kids| => Kid(kids[i].id, EditAt(kids[i].node, vid, e)))
  }

  lemma {:induction false} AlterBelow(t: Node, m: Slots, vid: Vid, e: Edit<Node>, i: nat)
    requires t.Box? && Linear(t) && NewTo(m, vid) && Compatible(m, vid, e) && t.vid != vid && i <= |t.kids|
    ensures EditEach(AlteredFrom(t, m, i), vid, e) == AlteredFrom(t, m[(vid, e.id) := Mark(e)], i)
    decreases t, 0, |t.kids| - i
  {
    if i < |t.kids| {
      var m' := m[(vid, e.id) := Mark(e)];
      var slot := (t.vid, t.kids[i].id);
      AlterBelow(t, m, vid, e, i + 1);
      var id, rest := t.kids[i].id, AlteredFrom(t, m, i + 1);
      if slot !in m {
        AlterOne(t.kids[i].node, m, vid, e);
        EditEachHead(Kid(id, Altered(t.kids[i].node, m)), rest, vid, e);
      } else if m[slot].Some? {
        EditAbsent(m[slot].value, vid, e);
        EditEachHead(Kid(id, m[slot].value), rest, vid, e);
      } else {
        assert [] + rest == rest && [] + AlteredFrom(t, m', i + 1) == AlteredFrom(t, m', i + 1);
      }
      hide Linear, NewTo, Compatible, EditAt, EditEach, Altered;
    }
  }

  lemma EditEachHead(k: Kid, rest: seq<Kid>, vid: Vid, e: Edit<Node>)
    ensures EditEach([k] + rest, vid, e) == [Kid(k.id, EditAt(k.node, vid, e))] + EditEach(rest, vid, e)
  {
  }

  // ---- Slots of the tree and paths of the document ----

  function StepOf(t: Node, i: nat): Seg
    requires t.Box? && i < |t.kids|
  {
    if t.isObject then SKey(NameOf(t.kids[i].id)) else SIndex(i)
  }

  /** The two sets of changes say the same thing about element `i` of a box. */
  ghost predicate AgreeAt(t: Node, at: Path, m: Slots, ch: map<Path, Option<Value>>, i: nat)
    requires t.Box? && i < |t.kids|
  {
    var slot, p := (t.vid, t.kids[i].id), at + [StepOf(t, i)];
    (slot in m <==> p in ch) && (slot in m ==> EraseOption(m[slot]) == ch[p])
  }

  /** ... and about every element of the tree. */
  ghost predicate Agree(t: Node, at: Path, m: Slots, ch: map<Path, Option<Value>>)
  {
    t.Box? ==> forall i :: 0 <= i < |t.kids| ==> AgreeAt(t, at, m, ch, i) && Agree(t.kids[i].node, at + [StepOf(t, i)], m, ch)
  }

  lemma {:induction false} AlteredErases(t: Node, at: Path, m: Slots, ch: map<Path, Option<Value>>)
    requires Linear(t) && Agree(t, at, m, ch)
    ensures Erase(Altered(t, m)) == Changed(Erase(t), at, ch)
    decreases t, 1, 0
  {
    if t.Box? {
      AlteredFromErases(t, at, m, ch, 0);
      var kids, ms := AlteredFrom(t, m, 0), ChangedFrom(Erase(t), at, ch, 0);
      assert |kids| == |ms| && forall i :: 0 <= i < |kids| ==> EraseKid(kids[i]) == ms[i];
      if !t.isObject {
        assert Erase(Altered(t, m)) == Arr(Values(ms));
      } else {
        assert Erase(Altered(t, m)) == Obj(ms);
      }
    }
  }

  function EraseKid(k: Kid): Member { Member(NameOf(k.id), Erase(k.node)) }

  lemma {:induction false} AlteredFromErases(t: Node, at: Path, m: Slots, ch: map<Path, Option<Value>>, i: nat)
    requires t.Box? && Linear(t) && Agree(t, at, m, ch) && i <= |t.kids| == |Children(Erase(t))|
    ensures var kids, ms := AlteredFrom(t, m, i), ChangedFrom(Erase(t), at, ch, i);
            |kids| == |ms| && forall k :: 0 <= k < |kids| ==> EraseKid(kids[k]) == ms[k]
    decreases t, 0, |t.kids| - i
  {
    if i < |t.kids| {
      EraseChildren(t);
      var slot, p := (t.vid, t.kids[i].id), at + [StepOf(t, i)];
      assert AgreeAt(t, at, m, ch, i);
      assert StepTo(Erase(t), i) == StepOf(t, i) && KeyAt(Erase(t), i) == NameOf(t.kids[i].id);
      if slot !in m {
        AlteredErases(t.kids[i].node, p, m, ch);
      }
      AlteredFromErases(t, at, m, ch, i + 1);
    }
  }

  /** A path down the tree that names every element the canonical way. */
  ghost predicate Reaches(t: Node, path: Path)
    decreases |path|
  {
    && path != [] && t.Box?
    && exists i :: 0 <= i < |t.kids| && path[0] == StepOf(t, i) && (|path| == 1 || Reaches(t.kids[i].node, path[1..]))
  }

  /** The slot such a path ends in. */
  ghost function SlotOf(t: Node, path: Path): (r: (Vid, ElemId))
    requires Reaches(t, path)
    decreases |path|
  {
    var i :| 0 <= i < |t.kids| && path[0] == StepOf(t, i) && (|path| == 1 || Reaches(t.kids[i].node, path[1..]));
    if |path| == 1 then (t.vid, t.kids[i].id) else SlotOf(t.kids[i].node, path[1..])
  }

  lemma StepsOfDiffer(t: Node, i: nat, j: nat)
    requires t.Box? && Linear(t) && i < |t.kids| && j < |t.kids| && i != j
    ensures StepOf(t, i) != StepOf(t, j)
  {
    assert t.kids[if i < j then i else j].id != t.kids[if i < j then j else i].id;
  }

  lemma {:induction false} SlotInTree(t: Node, path: Path)
    requires Reaches(t, path)
    ensures HasVid(t, SlotOf(t, path).0)
    decreases |path|
  {
    var i :| 0 <= i < |t.kids| && path[0] == StepOf(t, i) && (|path| == 1 || Reaches(t.kids[i].node, path[1..]))
      && SlotOf(t, path) == (if |path| == 1 then (t.vid, t.kids[i].id) else SlotOf(t.kids[i].node, path[1..]));
    if |path| > 1 {
      SlotInTree(t.kids[i].node, path[1..]);
    }
  }

  /** Changing a slot and a path that lie elsewhere keeps the agreement. */
  lemma {:induction false} AgreeElsewhere(t: Node, at: Path, m: Slots, ch: map<Path, Option<Value>>,
                                          slot: (Vid, ElemId), q: Path, x: Option<Node>)
    requires Agree(t, at, m, ch) && !HasVid(t, slot.0) && !(at < q)
    ensures Agree(t, at, m[slot := x], ch[q := EraseOption(x)])
    decreases t
  {
    if t.Box? {
      var m', ch' := m[slot := x], ch[q := EraseOption(x)];
      forall i | 0 <= i < |t.kids|
        ensures AgreeAt(t, at, m', ch', i) && Agree(t.kids[i].node, at + [StepOf(t, i)], m', ch')
      {
        assert AgreeAt(t, at, m, ch, i);
        var p := at + [StepOf(t, i)];
        assert at < p;
        assert !(p < q) by {
          assert p < q ==> at < q;
        }
        AgreeElsewhere(t.kids[i].node, p, m, ch, slot, q, x);
      }
    }
  }

  /** Changing the slot a path reaches, and that path, keeps the agreement. */
  lemma {:induction false} AgreeNext(t: Node, at: Path, m: Slots, ch: map<Path, Option<Value>>, path: Path, x: Option<Node>)
    requires Linear(t) && Agree(t, at, m, ch) && Reaches(t, path)
    ensures Agree(t, at, m[SlotOf(t, path) := x], ch[at + path := EraseOption(x)])
    decreases t
  {
    var slot, q := SlotOf(t, path), at + path;
    var k :| 0 <= k < |t.kids| && path[0] == StepOf(t, k) && (|path| == 1 || Reaches(t.kids[k].node, path[1..]))
      && slot == (if |path| == 1 then (t.vid, t.kids[k].id) else SlotOf(t.kids[k].node, path[1..]));
    if |path| > 1 {
      SlotInTree(t.kids[k].node, path[1..]);
    }
    assert FirstStep(t, path, slot, k);
    var m', ch' := m[slot := x], ch[q := EraseOption(x)];
    forall i | 0 <= i < |t.kids|
      ensures AgreeAt(t, at, m', ch', i) && Agree(t.kids[i].node, at + [StepOf(t, i)], m', ch')
    {
      assert AgreeAt(t, at, m, ch, i);
      AgreeAtNext(t, at, m, ch, path, x, slot, k, i);
      var p := at + [StepOf(t, i)];
      if i == k && |path| > 1 {
        AgreeNext(t.kids[i].node, p, m, ch, path[1..], x);
        assert p + path[1..] == q;
      } else {
        NextElsewhere(t, at, path, slot, k, i);
        AgreeElsewhere(t.kids[i].node, p, m, ch, slot, q, x);
      }
    }
  }

  /** Element `k` is where the path goes first; the slot is that element, or lies inside it. */
  ghost predicate FirstStep(t: Node, path: Path, slot: (Vid, ElemId), k: nat)
  {
    && t.Box? && path != [] && k < |t.kids| && path[0] == StepOf(t, k)
    && if |path| == 1 then slot == (t.vid, t.kids[k].id) else HasVid(t.kids[k].node, slot.0)
  }

  lemma AgreeAtNext(t: Node, at: Path, m: Slots, ch: map<Path, Option<Value>>, path: Path, x: Option<Node>,
                    slot: (Vid, ElemId), k: nat, i: nat)
    requires Linear(t) && FirstStep(t, path, slot, k) && i < |t.kids| && AgreeAt(t, at, m, ch, i)
    ensures AgreeAt(t, at, m[slot := x], ch[at + path := EraseOption(x)], i)
  {
    var p, q := at + [StepOf(t, i)], at + path;
    assert q[|at|] == path[0] && p[|at|] == StepOf(t, i);
    if |path| > 1 {
      assert slot.0 != t.vid && |p| < |q|;
    } else {
      assert q == at + [path[0]];
      if i != k {
        StepsOfDiffer(t, i, k);
        assert t.kids[if i < k then i else k].id != t.kids[if i < k then k else i].id;
      }
    }
  }

  lemma NextElsewhere(t: Node, at: Path, path: Path, slot: (Vid, ElemId), k: nat, i: nat)
    requires Linear(t) && FirstStep(t, path, slot, k) && i < |t.kids| && (i != k || |path| == 1)
    ensures !HasVid(t.kids[i].node, slot.0) && !(at + [StepOf(t, i)] < at + path)
  {
    var p, q := at + [StepOf(t, i)], at + path;
    assert q[|at|] == path[0] && p[|at|] == StepOf(t, i);
    if i != k {
      StepsOfDiffer(t, i, k);
      assert Apart(t.kids[if i < k then i else k].node, t.kids[if i < k then k else i].node);
    }
  }

  lemma StepOfIsKid(t: Node, i: nat)
    requires t.Box? && Linear(t) && i < |t.kids|
    ensures KidIndex(t, StepOf(t, i)) == i
  {
    if t.isObject {
      UniqueKid(t, i);
    }
  }

  /** The slot a path reaches is the element its last segment picks in the box the rest leads to. */
  lemma {:induction false} SlotIsElement(t: Node, path: Path)
    requires Linear(t) && Reaches(t, path)
    ensures var up := NodeAt(t, path[..|path| - 1]);
            && up.Some? && up.value.Box? && KidIndex(up.value, path[|path| - 1]) >= 0
            && SlotOf(t, path) == (up.value.vid, up.value.kids[KidIndex(up.value, path[|path| - 1])].id)
    decreases |path|
  {
    hide KidIndex, StepOf;
    var n := |path|;
    var k :| 0 <= k < |t.kids| && path[0] == StepOf(t, k) && (n == 1 || Reaches(t.kids[k].node, path[1..]))
      && SlotOf(t, path) == (if n == 1 then (t.vid, t.kids[k].id) else SlotOf(t.kids[k].node, path[1..]));
    StepOfIsKid(t, k);
    if n > 1 {
      SlotIsElement(t.kids[k].node, path[1..]);
      assert path[..n - 1][0] == path[0] && path[..n - 1][1..] == path[1..][..n - 2];
      assert path[1..][n - 2] == path[n - 1];
    } else {
      assert path[..0] == [];
    }
  }

  lemma {:induction false} CanonicalReaches(t: Node, path: Path)
    requires Linear(t) && path != [] && Canonical(Erase(t), path)
    ensures Reaches(t, path)
    decreases |path|
  {
    var v := Erase(t);
    var i :| 0 <= i < |Children(v)| && path[0] == StepTo(v, i) && Canonical(Children(v)[i], path[1..]);
    EraseChildren(t);
    assert StepOf(t, i) == path[0];
    if |path| > 1 {
      CanonicalReaches(t.kids[i].node, path[1..]);
    }
  }

  lemma {:induction false} AlteredKinds(t: Node, m: Slots, v: Vid, b: bool)
    requires KindAt(t, v, b) && NewTo(m, v)
    ensures KindAt(Altered(t, m), v, b)
    decreases t, 1, 0
  {
    if t.Box? {
      AlteredFromKinds(t, m, v, b, 0);
    }
  }

  lemma {:induction false} AlteredFromKinds(t: Node, m: Slots, v: Vid, b: bool, i: nat)
    requires t.Box? && KindAt(t, v, b) && NewTo(m, v) && i <= |t.kids|
    ensures forall k :: 0 <= k < |AlteredFrom(t, m, i)| ==> KindAt(AlteredFrom(t, m, i)[k].node, v, b)
    decreases t, 0, |t.kids| - i
  {
    if i < |t.kids| {
      var slot := (t.vid, t.kids[i].id);
      if slot !in m {
        AlteredKinds(t.kids[i].node, m, v, b);
      } else if m[slot].Some? {
        KindElsewhere(m[slot].value, v, b);
      }
      AlteredFromKinds(t, m, v, b, i + 1);
    }
  }

  // ---- A run of effects, all read off one snapshot ----

  /** The effects so far have made exactly the changes `ch` to the snapshot's document. */
  ghost predicate Progress(root: Store, st: Store, t0: Node, m: Slots, ch: map<Path, Option<Value>>, n0: nat, next: nat)
  {
    && Layout(root, t0) && Older(t0, n0) && n0 <= next
    && Sound(st, Altered(t0, m), next) && Agree(t0, [], m, ch)
    && (forall u :: u in root ==> u in st)
    && (forall s, u :: s in m && m[s].Some? && HasVid(m[s].value, u) ==> u.Minted? && u.n >= n0)
  }

  lemma StartProgress(root: Store, t0: Node, next: nat)
    requires Sound(root, t0, next)
    ensures Progress(root, root, t0, map[], map[], next, next)
  {
    AlteredByNothing(t0);
    AgreeOnNothing(t0, []);
  }

  lemma {:induction false} AlteredByNothing(t: Node)
    ensures Altered(t, map[]) == t
    decreases t, 1, 0
  {
    if t.Box? {
      AlteredFromNothing(t, 0);
      assert t.kids[0..] == t.kids;
    }
  }

  lemma {:induction false} AlteredFromNothing(t: Node, i: nat)
    requires t.Box? && i <= |t.kids|
    ensures AlteredFrom(t, map[], i) == t.kids[i..]
    decreases t, 0, |t.kids| - i
  {
    if i < |t.kids| {
      AlteredByNothing(t.kids[i].node);
      AlteredFromNothing(t, i + 1);
    }
  }

  lemma {:induction false} AgreeOnNothing(t: Node, at: Path)
    ensures Agree(t, at, map[], map[])
    decreases t
  {
    if t.Box? {
      forall i | 0 <= i < |t.kids| ensures Agree(t.kids[i].node, at + [StepOf(t, i)], map[], map[]) {
        AgreeOnNothing(t.kids[i].node, at + [StepOf(t, i)]);
      }
    }
  }

  lemma ProgressNewTo(root: Store, st: Store, t0: Node, m: Slots, ch: map<Path, Option<Value>>, n0: nat, next: nat, v: Vid)
    requires Progress(root, st, t0, m, ch, n0, next) && HasVid(t0, v)
    ensures NewTo(m, v)
  {
    OlderVids(t0, n0, v);
  }

  lemma ProgressKinds(root: Store, st: Store, t0: Node, m: Slots, ch: map<Path, Option<Value>>, n0: nat, next: nat)
    requires Progress(root, st, t0, m, ch, n0, next)
    ensures SameKinds(t0, Altered(t0, m))
  {
    forall v, b | HasVid(t0, v) && KindAt(t0, v, b) ensures KindAt(Altered(t0, m), v, b) {
      ProgressNewTo(root, st, t0, m, ch, n0, next, v);
      AlteredKinds(t0, m, v, b);
    }
  }

  /** The document after the run: the snapshot's, with all the changes made at once. */
  lemma ProgressReads(root: Store, st: Store, t0: Node, m: Slots, ch: map<Path, Option<Value>>, n0: nat, next: nat)
    requires Progress(root, st, t0, m, ch, n0, next)
    ensures Document(st) == Some(Changed(Erase(t0), [], ch))
  {
    LayoutReads(st, Altered(t0, m));
    AlteredErases(t0, [], m, ch);
  }

  lemma SlotFacts(root: Store, t0: Node, path: Path, n0: nat)
    requires Layout(root, t0) && Older(t0, n0) && Reaches(t0, path)
    ensures var slot := SlotOf(t0, path);
            && slot.0 in root && HasVid(t0, slot.0) && KindAt(t0, slot.0, slot.1.Name?)
            && Addressable(t0, path) && forall sub :: PathEdit(t0, path, sub) == (slot.0, Put(slot.1, sub))
  {
    SlotIsElement(t0, path);
    ParentFacts(root, t0, path, n0);
  }

  /** One more change made: the run goes on. */
  lemma NextProgress(root: Store, st: Store, st': Store, t0: Node, m: Slots, ch: map<Path, Option<Value>>,
                     n0: nat, next: nat, next': nat, path: Path, x: Option<Node>)
    requires t0.Box? && Progress(root, st, t0, m, ch, n0, next) && Reaches(t0, path) && next <= next'
    requires Sound(st', Altered(t0, m[SlotOf(t0, path) := x]), next') && forall u :: u in root ==> u in st'
    requires x.Some? ==> forall u :: HasVid(x.value, u) ==> u.Minted? && u.n >= n0
    ensures Progress(root, st', t0, m[SlotOf(t0, path) := x], ch[path := EraseOption(x)], n0, next')
  {
    assert [] + path == path;
    AgreeNext(t0, [], m, ch, path, x);
  }

  /** Removing one more element by id, whatever has been removed before. */
  lemma RemoveOne(root: Store, st: Store, t0: Node, m: Slots, ch: map<Path, Option<Value>>, n0: nat, next: nat, path: Path)
    requires t0.Box? && Progress(root, st, t0, m, ch, n0, next) && Reaches(t0, path) && forall s :: s in m ==> m[s].None?
    ensures var slot := SlotOf(t0, path);
            Progress(root, Apply(st, EditElem(slot.0, Drop(slot.1))), t0, m[slot := None], ch[path := None], n0, next)
  {
    var slot := SlotOf(t0, path);
    var e: Edit<Node> := Drop(slot.1);
    var st' := Apply(st, EditElem(slot.0, RefEdit(e)));
    SlotFacts(root, t0, path, n0);
    ProgressNewTo(root, st, t0, m, ch, n0, next, slot.0);
    ProgressKinds(root, st, t0, m, ch, n0, next);
    assert Sound(st, Altered(t0, m), next) && KindAt(Altered(t0, m), slot.0, e.id.Name?) && slot.0 in st && Linear(t0);
    assert Compatible(m, slot.0, e) && Mark(e) == None && (forall u :: u in root ==> u in st');
    hide *;
    AlterOne(t0, m, slot.0, e);
    LinkIn(st, st, Altered(t0, m), slot.0, e, next, next);
    NextProgress(root, st, st', t0, m, ch, n0, next, next, path, None);
  }

  /** Refilling one more element, after `SetValueAtPath` emitted its effects. */
  lemma WroteOne(root: Store, st: Store, st': Store, t0: Node, m: Slots, ch: map<Path, Option<Value>>,
                 n0: nat, next: nat, next': nat, path: Path, sub: Node, t': Node)
    requires t0.Box? && Progress(root, st, t0, m, ch, n0, next) && Reaches(t0, path) && forall s :: s in m ==> m[s].Some?
    requires Addressable(t0, path) && t' == EditAt(Altered(t0, m), PathEdit(t0, path, sub).0, PathEdit(t0, path, sub).1)
    requires Sound(st', t', next') && next <= next' && forall u :: u in root ==> u in st'
    requires forall u :: HasVid(sub, u) ==> u.Minted? && u.n >= next
    ensures Progress(root, st', t0, m[SlotOf(t0, path) := Some(sub)], ch[path := Some(Erase(sub))], n0, next')
  {
    var slot := SlotOf(t0, path);
    var e: Edit<Node> := Put(slot.1, sub);
    SlotFacts(root, t0, path, n0);
    assert PathEdit(t0, path, sub) == (slot.0, e);
    ProgressNewTo(root, st, t0, m, ch, n0, next, slot.0);
    assert Linear(t0) && n0 <= next && Compatible(m, slot.0, e) && Mark(e) == Some(sub) && EraseOption(Some(sub)) == Some(Erase(sub));
    hide *;
    AlterOne(t0, m, slot.0, e);
    NextProgress(root, st, st', t0, m, ch, n0, next, next', path, Some(sub));
  }
}
