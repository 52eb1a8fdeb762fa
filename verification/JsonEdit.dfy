/** Editing one box of a labelled tree, in the store and in the document, is the same thing. */
module JsonEdit {
  import opened Common
  import opened JsonTree
  import opened JsonPath

  function FindKid(kids: seq<Kid>, id: ElemId): (r: int)
    ensures -1 <= r < |kids|
    ensures r >= 0 ==> kids[r].id == id
    ensures r == -1 ==> forall i :: 0 <= i < |kids| ==> kids[i].id != id
  {
    FindElem(ElemsOf(kids), id)
  }

  function RefEdit(e: Edit<Node>): Edit<Ref>
  {
    match e
    case Put(id, to) => Put(id, RefOf(to))
    case Append(id, to) => Append(id, RefOf(to))
    case Drop(id) => Drop(id)
  }

  function EditKids(kids: seq<Kid>, e: Edit<Node>): (r: seq<Kid>)
  {
    var k := FindKid(kids, e.id);
    match e
    case Put(id, to) => if k < 0 then kids else kids[k := Kid(id, to)]
    case Append(id, to) => if k < 0 then kids + [Kid(id, to)] else kids[k := Kid(id, to)]
    case Drop(_) => if k < 0 then kids else kids[..k] + kids[k + 1..]
  }

  lemma ElemsOfEdit(kids: seq<Kid>, e: Edit<Node>)
    ensures ElemsOf(EditKids(kids, e)) == EditElems(ElemsOf(kids), RefEdit(e))
  {
    hide RefOf, FindElem;
    var elems := ElemsOf(kids);
    var k := FindElem(elems, e.id);
    match e
    case Put(id, to) =>
      assert k >= 0 ==> ElemsOf(kids[k := Kid(id, to)]) == elems[k := Elem(id, RefOf(to))];
    case Append(id, to) =>
      assert k >= 0 ==> ElemsOf(kids[k := Kid(id, to)]) == elems[k := Elem(id, RefOf(to))];
      assert ElemsOf(kids + [Kid(id, to)]) == elems + [Elem(id, RefOf(to))];
    case Drop(_) =>
      assert k >= 0 ==> ElemsOf(kids[..k] + kids[k + 1..]) == elems[..k] + elems[k + 1..];
  }

  /** The tree with the box `vid` edited; unchanged when it has no such box. */
  function EditAt(t: Node, vid: Vid, e: Edit<Node>): (r: Node)
  {
    match t
    case Tip(_) => t
    case Box(obj, v, kids) =>
      if v == vid then Box(obj, v, EditKids(kids, e))
      else Box(obj, v, seq(|kids|, i requires 0 <= i < |kids| => Kid(kids[i].id, EditAt(kids[i].node, vid, e))))
  }

  lemma {:induction false} EditAbsent(t: Node, vid: Vid, e: Edit<Node>)
    requires !HasVid(t, vid)
    ensures EditAt(t, vid, e) == t
  {
    if t.Box? {
      forall i | 0 <= i < |t.kids|
        ensures EditAt(t.kids[i].node, vid, e) == t.kids[i].node
      {
        EditAbsent(t.kids[i].node, vid, e);
      }
      assert EditAt(t, vid, e).kids == t.kids;
    }
  }

  /** The edited-in subtree is new to the tree and already in the store. */
  ghost predicate Fresh(st: Store, t: Node, e: Edit<Node>)
  {
    !e.Drop? ==> Holds(st, e.to) && Linear(e.to) && Apart(t, e.to)
  }

  lemma FreshBelow(st: Store, t: Node, i: nat, e: Edit<Node>)
    requires t.Box? && i < |t.kids| && Fresh(st, t, e)
    ensures Fresh(st, t.kids[i].node, e)
  {
    if !e.Drop? {
      forall v | HasVid(t.kids[i].node, v) ensures HasVid(t, v) { }
    }
  }

  lemma EditKidsFrom(kids: seq<Kid>, e: Edit<Node>, i: nat)
    requires i < |EditKids(kids, e)|
    ensures EditKids(kids, e)[i] in kids || (!e.Drop? && EditKids(kids, e)[i] == Kid(e.id, e.to))
  {
  }

  lemma {:induction false} EditVids(t: Node, vid: Vid, e: Edit<Node>, v: Vid)
    requires HasVid(EditAt(t, vid, e), v)
    ensures HasVid(t, v) || (!e.Drop? && HasVid(e.to, v))
  {
    var r := EditAt(t, vid, e);
    if v != t.vid {
      var i :| 0 <= i < |r.kids| && HasVid(r.kids[i].node, v);
      if t.vid == vid {
        EditKidsFrom(t.kids, e, i);
        if r.kids[i] in t.kids {
          var k :| 0 <= k < |t.kids| && t.kids[k] == r.kids[i];
          assert HasVid(t.kids[k].node, v);
        }
      } else {
        EditVids(t.kids[i].node, vid, e, v);
      }
    }
  }

  lemma EditHoldsHere(st: Store, t: Node, e: Edit<Node>)
    requires t.Box? && Holds(st, t) && Linear(t) && Fresh(st, t, e) && (!e.Drop? ==> !HasVid(e.to, t.vid))
    ensures Holds(Apply(st, EditElem(t.vid, RefEdit(e))), EditAt(t, t.vid, e))
  {
    var st' := Apply(st, EditElem(t.vid, RefEdit(e)));
    var kids := EditKids(t.kids, e);
    ElemsOfEdit(t.kids, e);
    forall i | 0 <= i < |kids|
      ensures Holds(st', kids[i].node)
    {
      EditKidsFrom(t.kids, e, i);
      HoldsFrame(st, st', kids[i].node);
    }
  }

  /** The effect on the store is the edit of the tree, whether or not the tree still reaches the box. */
  lemma {:induction false} EditHolds(st: Store, t: Node, vid: Vid, e: Edit<Node>)
    requires Holds(st, t) && Linear(t) && Fresh(st, t, e) && (!e.Drop? ==> !HasVid(e.to, vid))
    ensures Holds(Apply(st, EditElem(vid, RefEdit(e))), EditAt(t, vid, e))
  {
    var st' := Apply(st, EditElem(vid, RefEdit(e)));
    var r := EditAt(t, vid, e);
    if t.Box? {
      if t.vid == vid {
        EditHoldsHere(st, t, e);
      } else {
        forall i | 0 <= i < |t.kids|
          ensures Holds(st', r.kids[i].node) && RefOf(r.kids[i].node) == RefOf(t.kids[i].node)
        {
          FreshBelow(st, t, i, e);
          EditHolds(st, t.kids[i].node, vid, e);
        }
        assert ElemsOf(r.kids) == ElemsOf(t.kids);
      }
    }
  }

  /** Every box with this id is (or is not) an object. */
  ghost predicate KindAt(t: Node, vid: Vid, isObject: bool)
  {
    t.Box? ==> (t.vid == vid ==> t.isObject == isObject) && forall i :: 0 <= i < |t.kids| ==> KindAt(t.kids[i].node, vid, isObject)
  }

  lemma EditKidsDistinct(kids: seq<Kid>, e: Edit<Node>)
    requires forall i, j :: 0 <= i < j < |kids| ==> kids[i].id != kids[j].id
    ensures forall i, j :: 0 <= i < j < |EditKids(kids, e)| ==> EditKids(kids, e)[i].id != EditKids(kids, e)[j].id
  {
  }

  lemma {:induction false} EditLinear(t: Node, vid: Vid, e: Edit<Node>)
    requires Linear(t) && KindAt(t, vid, e.id.Name?)
    requires !e.Drop? ==> Linear(e.to) && Apart(t, e.to) && !HasVid(e.to, vid)
    ensures Linear(EditAt(t, vid, e))
  {
    var r := EditAt(t, vid, e);
    if t.Box? {
      if t.vid == vid {
        EditLinearHere(t, e);
      } else {
        forall i | 0 <= i < |t.kids|
          ensures Linear(r.kids[i].node) && !HasVid(r.kids[i].node, t.vid)
        {
          if !e.Drop? {
            forall v | HasVid(t.kids[i].node, v) ensures HasVid(t, v) { }
          }
          EditLinear(t.kids[i].node, vid, e);
          if HasVid(r.kids[i].node, t.vid) {
            EditVids(t.kids[i].node, vid, e, t.vid);
            assert HasVid(t, t.vid);
          }
        }
        forall i, j | 0 <= i < j < |t.kids|
          ensures Apart(r.kids[i].node, r.kids[j].node)
        {
          EditApart(t, vid, e, i, j);
        }
      }
    }
  }

  lemma EditLinearHere(t: Node, e: Edit<Node>)
    requires t.Box? && Linear(t) && (e.id.Name? <==> t.isObject)
    requires !e.Drop? ==> Linear(e.to) && Apart(t, e.to) && !HasVid(e.to, t.vid)
    ensures Linear(t.(kids := EditKids(t.kids, e)))
  {
    var kids := EditKids(t.kids, e);
    EditKidsDistinct(t.kids, e);
    forall i | 0 <= i < |kids|
      ensures Linear(kids[i].node) && !HasVid(kids[i].node, t.vid) && (kids[i].id.Name? <==> t.isObject)
    {
      EditKidsFrom(t.kids, e, i);
    }
    forall i, j | 0 <= i < j < |kids|
      ensures Apart(kids[i].node, kids[j].node)
    {
      EditKidsApart(t, e, i, j);
    }
  }

  lemma EditKidsApart(t: Node, e: Edit<Node>, i: nat, j: nat)
    requires t.Box? && Linear(t) && (!e.Drop? ==> Apart(t, e.to)) && i < j < |EditKids(t.kids, e)|
    ensures Apart(EditKids(t.kids, e)[i].node, EditKids(t.kids, e)[j].node)
  {
    var kids := EditKids(t.kids, e);
    EditKidsDistinct(t.kids, e);
    EditKidsFrom(t.kids, e, i);
    EditKidsFrom(t.kids, e, j);
    forall v, k | 0 <= k < |t.kids| && HasVid(t.kids[k].node, v) ensures HasVid(t, v) { }
    if kids[i] in t.kids && kids[j] in t.kids {
      var a :| 0 <= a < |t.kids| && t.kids[a] == kids[i];
      var b :| 0 <= b < |t.kids| && t.kids[b] == kids[j];
      assert a != b;
      assert Apart(t.kids[if a < b then a else b].node, t.kids[if a < b then b else a].node);
    }
  }

  /** Two kids of a box stay apart: at most one of them has the edited box. */
  lemma EditApart(t: Node, vid: Vid, e: Edit<Node>, i: nat, j: nat)
    requires t.Box? && Linear(t) && i < j < |t.kids| && (!e.Drop? ==> Apart(t, e.to))
    ensures Apart(EditAt(t.kids[i].node, vid, e), EditAt(t.kids[j].node, vid, e))
  {
    var a, b := t.kids[i].node, t.kids[j].node;
    assert Apart(a, b);
    if !HasVid(a, vid) {
      EditAbsent(a, vid, e);
    } else {
      assert !HasVid(b, vid);
      EditAbsent(b, vid, e);
    }
    forall v | HasVid(a, v) || HasVid(b, v) ensures HasVid(t, v) { }
    forall v | HasVid(EditAt(a, vid, e), v)
      ensures !HasVid(EditAt(b, vid, e), v)
    {
      EditVids(a, vid, e, v);
      if HasVid(EditAt(b, vid, e), v) {
        EditVids(b, vid, e, v);
      }
    }
  }

  lemma {:induction false} EditOlder(t: Node, vid: Vid, e: Edit<Node>, next: nat)
    requires Older(t, next) && (!e.Drop? ==> Older(e.to, next) && (e.id.Handle? ==> e.id.n < next))
    ensures Older(EditAt(t, vid, e), next)
  {
    var r := EditAt(t, vid, e);
    if t.Box? {
      forall i | 0 <= i < |r.kids|
        ensures Older(r.kids[i].node, next) && (r.kids[i].id.Handle? ==> r.kids[i].id.n < next)
      {
        if t.vid == vid {
          EditKidsFrom(t.kids, e, i);
        } else {
          EditOlder(t.kids[i].node, vid, e, next);
        }
      }
    }
  }

  // ---- Paths in labelled trees ----

  function KidIndex(t: Node, s: Seg): (r: int)
    requires t.Box?
    ensures -1 <= r < |t.kids|
  {
    match s
    case SKey(k) => if t.isObject then FindKid(t.kids, Name(k)) else -1
    case SIndex(i) => if t.isObject then -1 else NormIndex(i, |t.kids|)
    case _ => -1
  }

  function NodeAt(t: Node, path: Path): (r: Option<Node>)
    decreases |path|
  {
    if path == [] then Some(t)
    else if t.Tip? then None
    else
      var k := KidIndex(t, path[0]);
      if k < 0 then None else NodeAt(t.kids[k].node, path[1..])
  }

  lemma EraseChildren(t: Node)
    requires t.Box?
    ensures |Children(Erase(t))| == |t.kids|
    ensures forall i :: 0 <= i < |t.kids| ==> Children(Erase(t))[i] == Erase(t.kids[i].node)
    ensures forall i :: 0 <= i < |t.kids| ==>
              StepTo(Erase(t), i) == if t.isObject then SKey(NameOf(t.kids[i].id)) else SIndex(i)
  {
  }

  lemma SameIndex(t: Node, s: Seg)
    requires t.Box? && Linear(t)
    ensures ChildIndex(Erase(t), s) == KidIndex(t, s)
  {
    EraseChildren(t);
    if t.isObject && s.SKey? {
      var ms := Erase(t).members;
      var k := FindKid(t.kids, Name(s.key));
      assert forall i :: 0 <= i < |ms| ==> (ms[i].key == s.key <==> t.kids[i].id == Name(s.key));
      UniqueMember(ms, s.key, k);
    }
  }

  lemma {:induction false} UniqueMember(ms: seq<Member>, key: string, k: int)
    requires -1 <= k < |ms|
    requires k == -1 ==> forall i :: 0 <= i < |ms| ==> ms[i].key != key
    requires k >= 0 ==> ms[k].key == key && forall i :: 0 <= i < |ms| && i != k ==> ms[i].key != key
    ensures FindMember(ms, key) == k
  {
  }

  /** Boxes on a path belong to the tree. */
  lemma {:induction false} NodeAtHas(t: Node, path: Path)
    requires NodeAt(t, path).Some? && NodeAt(t, path).value.Box?
    ensures HasVid(t, NodeAt(t, path).value.vid)
    decreases |path|
  {
    if path != [] {
      var k := KidIndex(t, path[0]);
      NodeAtHas(t.kids[k].node, path[1..]);
      assert HasVid(t.kids[k].node, NodeAt(t, path).value.vid);
    }
  }

  lemma {:induction false} NodeAtErases(t: Node, path: Path)
    requires Linear(t)
    ensures ValueAt(Erase(t), path) == (match NodeAt(t, path) case None => None case Some(n) => Some(Erase(n)))
    ensures NodeAt(t, path).Some? ==> Linear(NodeAt(t, path).value)
    decreases |path|
  {
    if path != [] && t.Box? {
      SameIndex(t, path[0]);
      EraseChildren(t);
      var k := KidIndex(t, path[0]);
      if k >= 0 {
        NodeAtErases(t.kids[k].node, path[1..]);
      }
    }
  }

  /** The box edit that sets `path`: replace the addressed element, or append a missing object member. */
  function SetEdit(parent: Node, last: Seg, sub: Node): (r: Option<Edit<Node>>)
    requires parent.Box?
  {
    var k := KidIndex(parent, last);
    if k >= 0 then Some(Put(parent.kids[k].id, sub))
    else if parent.isObject && last.SKey? then Some(Append(Name(last.key), sub))
    else None
  }

  /** The tree with `path` set to `sub`, by one edit of the box the path's last segment applies to. */
  function SetTree(t: Node, path: Path, sub: Node): (r: Option<Node>)
    requires path != []
  {
    var up := NodeAt(t, path[..|path| - 1]);
    if up.None? || up.value.Tip? then None
    else
      match SetEdit(up.value, path[|path| - 1], sub)
      case None => None
      case Some(e) => Some(EditAt(t, up.value.vid, e))
  }

  function EraseOption(r: Option<Node>): Option<Value>
  {
    match r case None => None case Some(n) => Some(Erase(n))
  }

  /** Editing the parent box of a path is setting the path in the document. */
  lemma {:induction false} EditIsSet(t: Node, path: Path, sub: Node)
    requires Linear(t) && path != []
    ensures SetAt(Erase(t), path, Erase(sub)) == EraseOption(SetTree(t, path, sub))
    decreases |path|
  {
    if t.Box? {
      SameIndex(t, path[0]);
      EraseChildren(t);
      if |path| == 1 {
        assert path == [path[0]] && path[..0] == [];
        EditHereIsSet(t, path[0], sub);
      } else if KidIndex(t, path[0]) >= 0 {
        EditIsSet(t.kids[KidIndex(t, path[0])].node, path[1..], sub);
        SetTreeBelow(t, path, sub);
      } else {
        assert path[..|path| - 1][0] == path[0];
      }
    } else {
      assert |path| > 1 ==> path[..|path| - 1] != [];
    }
  }

  lemma SetTreeBelow(t: Node, path: Path, sub: Node)
    requires t.Box? && Linear(t) && |path| > 1 && KidIndex(t, path[0]) >= 0
    ensures var k := KidIndex(t, path[0]);
            EraseOption(SetTree(t, path, sub))
            == (match EraseOption(SetTree(t.kids[k].node, path[1..], sub))
                case None => None
                case Some(c) => (EraseChildren(t); Some(WithChild(Erase(t), k, c))))
  {
    var k, n := KidIndex(t, path[0]), |path|;
    var kid := t.kids[k].node;
    assert path[..n - 1][0] == path[0] && path[..n - 1][1..] == path[1..][..n - 2];
    assert path[1..][n - 2] == path[n - 1];
    var up := NodeAt(kid, path[1..][..n - 2]);
    assert NodeAt(t, path[..n - 1]) == up;
    if up.Some? && up.value.Box? && SetEdit(up.value, path[n - 1], sub).Some? {
      NodeAtHas(kid, path[1..][..n - 2]);
      EditBelow(t, k, up.value.vid, SetEdit(up.value, path[n - 1], sub).value);
    }
  }

  lemma EditHereIsSet(t: Node, s: Seg, sub: Node)
    requires t.Box? && Linear(t)
    ensures SetAt(Erase(t), [s], Erase(sub))
         == (match SetEdit(t, s, sub) case None => None case Some(e) => Some(Erase(EditAt(t, t.vid, e))))
  {
    SameIndex(t, s);
    EraseChildren(t);
    var k := KidIndex(t, s);
    assert [s][1..] == [];
    var e := SetEdit(t, s, sub);
    if e.Some? {
      var r := EditAt(t, t.vid, e.value);
      if k >= 0 {
        UniqueKid(t, k);
        assert r.kids == t.kids[k := Kid(t.kids[k].id, sub)];
        assert Erase(r) == WithChild(Erase(t), k, Erase(sub));
      } else {
        assert r.kids == t.kids + [Kid(Name(s.key), sub)];
        assert Erase(r) == Obj(Erase(t).members + [Member(s.key, Erase(sub))]);
      }
    }
  }

  lemma UniqueKid(t: Node, k: nat)
    requires t.Box? && Linear(t) && k < |t.kids|
    ensures FindKid(t.kids, t.kids[k].id) == k
  {
  }

  /** An edit inside one kid leaves the box and its other kids as they are. */
  lemma EditBelow(t: Node, k: nat, vid: Vid, e: Edit<Node>)
    requires t.Box? && Linear(t) && k < |t.kids| && HasVid(t.kids[k].node, vid)
    ensures Erase(EditAt(t, vid, e)) == WithChild(Erase(t), k, Erase(EditAt(t.kids[k].node, vid, e)))
  {
    EraseChildren(t);
    var r := EditAt(t, vid, e);
    forall i | 0 <= i < |t.kids| && i != k
      ensures r.kids[i] == t.kids[i]
    {
      assert Apart(t.kids[if i < k then i else k].node, t.kids[if i < k then k else i].node);
      EditAbsent(t.kids[i].node, vid, e);
    }
    assert Erase(r) == WithChild(Erase(t), k, Erase(r.kids[k].node));
  }
}
