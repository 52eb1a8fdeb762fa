/** JSON documents as a graph of partitions (redis/json/tree.go), and the labelled trees such a graph holds. */
module JsonTree {
  import opened Common

  // ---- Values ----

  datatype Scalar = Null | Bool(b: bool) | Int(i: int) | Str(s: string)

  /** A document; object members keep their order. */
  datatype Value = Leaf(scalar: Scalar) | Arr(elems: seq<Value>) | Obj(members: seq<Member>)
  datatype Member = Member(key: string, val: Value)

  /** Member names are unique in every object, as the parser makes them. */
  ghost predicate ValidValue(v: Value)
  {
    match v
    case Leaf(_) => true
    case Arr(es) => forall i :: 0 <= i < |es| ==> ValidValue(es[i])
    case Obj(ms) =>
      && (forall i :: 0 <= i < |ms| ==> ValidValue(ms[i].val))
      && (forall i, j :: 0 <= i < j < |ms| ==> ms[i].key != ms[j].key)
  }

  // ---- Partitions ----

  /** A partition id: the root, or one minted by `newVid` in increasing order. */
  datatype Vid = Root | Minted(n: nat)

  /** An element id: a member name in an object, a minted handle in an array. */
  datatype ElemId = Name(s: string) | Handle(n: nat)

  datatype Ref = Inline(s: Scalar) | Child(vid: Vid)
  datatype Elem = Elem(id: ElemId, ref: Ref)
  datatype Tag = ScalarTag | ObjectTag | ArrayTag
  datatype Partition = Partition(tag: Tag, scalar: Option<Scalar>, elems: seq<Elem>)

  /** The reduced state of a key: its partitions, orphans included. */
  type Store = map<Vid, Partition>

  function FindElem(elems: seq<Elem>, id: ElemId): (r: int)
    ensures -1 <= r < |elems|
    ensures r >= 0 ==> elems[r].id == id
    ensures r == -1 ==> forall i :: 0 <= i < |elems| ==> elems[i].id != id
  {
    FindFirst(elems, (e: Elem) => e.id == id)
  }

  function At(st: Store, vid: Vid): Partition
  {
    if vid in st then st[vid] else Partition(ScalarTag, None, [])
  }

  /** Element edits, by id: an edit of an absent id changes nothing, an insert of a present one replaces it. */
  datatype Edit<T> = Put(id: ElemId, to: T) | Append(id: ElemId, to: T) | Drop(id: ElemId)

  function EditElems(elems: seq<Elem>, e: Edit<Ref>): (r: seq<Elem>)
  {
    var k := FindElem(elems, e.id);
    match e
    case Put(id, to) => if k < 0 then elems else elems[k := Elem(id, to)]
    case Append(id, to) => if k < 0 then elems + [Elem(id, to)] else elems[k := Elem(id, to)]
    case Drop(_) => if k < 0 then elems else elems[..k] + elems[k + 1..]
  }

  datatype Effect =
    | SetTag(vid: Vid, tag: Tag)
    | SetScalar(vid: Vid, scalar: Scalar)
    | EditElem(vid: Vid, edit: Edit<Ref>)
    | DeleteKey

  function Apply(st: Store, e: Effect): (r: Store)
  {
    match e
    case SetTag(vid, tag) => st[vid := At(st, vid).(tag := tag)]
    case SetScalar(vid, s) => st[vid := At(st, vid).(scalar := Some(s))]
    case EditElem(vid, edit) => st[vid := At(st, vid).(elems := EditElems(At(st, vid).elems, edit))]
    case DeleteKey => map[]
  }

  // ---- Reading ----

  /**
    `assemble`: the value rooted at `vid`, elements that do not resolve being skipped.
    `avail` only bounds the recursion: on a cyclic graph the walk would not end, on a tree it is never short.
  */
  function Assemble(st: Store, vid: Vid, avail: set<Vid>): (r: Option<Value>)
    decreases |avail|, 1, 0
  {
    if vid !in st || vid !in avail then None
    else
      var p := st[vid];
      match p.tag
      case ScalarTag => if p.scalar.Some? then Some(Leaf(p.scalar.value)) else None
      case ArrayTag => Some(Arr(Values(AssembleElems(st, p.elems, avail - {vid}))))
      case ObjectTag => Some(Obj(AssembleElems(st, p.elems, avail - {vid})))
  }

  function AssembleElems(st: Store, elems: seq<Elem>, avail: set<Vid>): (r: seq<Member>)
    decreases |avail|, 2, |elems|
  {
    if elems == [] then []
    else
      var rest := AssembleElems(st, elems[1..], avail);
      match DecodeRef(st, elems[0].ref, avail)
      case None => rest
      case Some(v) => [Member(NameOf(elems[0].id), v)] + rest
  }

  function DecodeRef(st: Store, ref: Ref, avail: set<Vid>): (r: Option<Value>)
    decreases |avail|, 1, 1
  {
    match ref
    case Inline(s) => Some(Leaf(s))
    case Child(vid) => Assemble(st, vid, avail)
  }

  function NameOf(id: ElemId): string { match id case Name(s) => s case Handle(_) => "" }

  function Values(ms: seq<Member>): (r: seq<Value>)
  {
    seq(|ms|, i requires 0 <= i < |ms| => ms[i].val)
  }

  /** The document a key holds. */
  function Document(st: Store): Option<Value>
  {
    Assemble(st, Root, st.Keys)
  }

  // ---- Labelled trees: a document together with the partition each container lives in ----

  datatype Node = Tip(scalar: Scalar) | Box(isObject: bool, vid: Vid, kids: seq<Kid>)
  datatype Kid = Kid(id: ElemId, node: Node)

  function Erase(t: Node): (v: Value)
  {
    match t
    case Tip(s) => Leaf(s)
    case Box(obj, _, kids) =>
      if obj then Obj(seq(|kids|, i requires 0 <= i < |kids| => Member(NameOf(kids[i].id), Erase(kids[i].node))))
      else Arr(seq(|kids|, i requires 0 <= i < |kids| => Erase(kids[i].node)))
  }

  function RefOf(t: Node): Ref { match t case Tip(s) => Inline(s) case Box(_, vid, _) => Child(vid) }

  function ElemsOf(kids: seq<Kid>): (r: seq<Elem>)
    ensures |r| == |kids| && forall i :: 0 <= i < |kids| ==> r[i] == Elem(kids[i].id, RefOf(kids[i].node))
  {
    seq(|kids|, i requires 0 <= i < |kids| => Elem(kids[i].id, RefOf(kids[i].node)))
  }

  function PartOf(t: Node): Partition
    requires t.Box?
  {
    Partition(if t.isObject then ObjectTag else ArrayTag, None, ElemsOf(t.kids))
  }

  /** The store holds this tree: each box's partition has exactly its elements. */
  ghost predicate Holds(st: Store, t: Node)
  {
    t.Box? ==>
      && t.vid in st && st[t.vid] == PartOf(t)
      && forall i :: 0 <= i < |t.kids| ==> Holds(st, t.kids[i].node)
  }

  ghost predicate HasVid(t: Node, v: Vid)
  {
    t.Box? && (t.vid == v || exists i :: 0 <= i < |t.kids| && HasVid(t.kids[i].node, v))
  }

  /** No partition is used twice, ids are unique in each box, and objects name their members. */
  ghost predicate Linear(t: Node)
  {
    t.Box? ==>
      && (forall i :: 0 <= i < |t.kids| ==> Linear(t.kids[i].node) && !HasVid(t.kids[i].node, t.vid)
                                             && (t.kids[i].id.Name? <==> t.isObject))
      && (forall i, j :: 0 <= i < j < |t.kids| ==> t.kids[i].id != t.kids[j].id
                                                   && Apart(t.kids[i].node, t.kids[j].node))
  }

  ghost predicate Apart(t: Node, u: Node)
  {
    forall v :: !(HasVid(t, v) && HasVid(u, v))
  }

  /** Everything minted in the tree is older than `next`. */
  ghost predicate Older(t: Node, next: nat)
  {
    t.Box? ==>
      && (t.vid.Minted? ==> t.vid.n < next)
      && forall i :: 0 <= i < |t.kids| ==> Older(t.kids[i].node, next) && (t.kids[i].id.Handle? ==> t.kids[i].id.n < next)
  }

  /** Everything minted in the store, orphans included, is older than `next`. */
  ghost predicate StoreOlder(st: Store, next: nat)
  {
    forall v :: v in st && v.Minted? ==> v.n < next
  }

  /** The key holds the document `Erase(t)`, laid out as `t`. */
  ghost predicate Layout(st: Store, t: Node)
  {
    match t
    case Tip(s) => Root in st && st[Root].tag == ScalarTag && st[Root].scalar == Some(s)
    case Box(_, vid, _) => vid == Root && Holds(st, t) && Linear(t)
  }

  lemma {:induction false} HoldsFrame(st: Store, st': Store, t: Node)
    requires Holds(st, t) && forall v :: HasVid(t, v) ==> v in st ==> v in st' && st'[v] == st[v]
    ensures Holds(st', t)
  {
    if t.Box? {
      assert HasVid(t, t.vid);
      forall i | 0 <= i < |t.kids|
        ensures Holds(st', t.kids[i].node)
      {
        forall v | HasVid(t.kids[i].node, v) ensures HasVid(t, v) { }
        HoldsFrame(st, st', t.kids[i].node);
      }
    }
  }

  lemma {:induction false} HoldsHasVids(st: Store, t: Node, v: Vid)
    requires Holds(st, t) && HasVid(t, v)
    ensures v in st
  {
    if t.vid != v {
      var i :| 0 <= i < |t.kids| && HasVid(t.kids[i].node, v);
      HoldsHasVids(st, t.kids[i].node, v);
    }
  }

  lemma {:induction false} OlderVids(t: Node, next: nat, v: Vid)
    requires Older(t, next) && HasVid(t, v)
    ensures v.Minted? ==> v.n < next
  {
    if t.vid != v {
      var i :| 0 <= i < |t.kids| && HasVid(t.kids[i].node, v);
      OlderVids(t.kids[i].node, next, v);
    }
  }

  lemma {:induction false} OlderGrows(t: Node, next: nat, next': nat)
    requires Older(t, next) && next <= next'
    ensures Older(t, next')
  {
    if t.Box? {
      forall i | 0 <= i < |t.kids| ensures Older(t.kids[i].node, next') {
        OlderGrows(t.kids[i].node, next, next');
      }
    }
  }

  /** Reading back a held tree gives its value: nothing is skipped and the walk is never cut short. */
  lemma {:induction false} AssembleHeld(st: Store, t: Node, avail: set<Vid>)
    requires t.Box? && Holds(st, t) && Linear(t) && forall v :: HasVid(t, v) ==> v in avail
    ensures Assemble(st, t.vid, avail) == Some(Erase(t))
    decreases t, |t.kids| + 1
  {
    assert HasVid(t, t.vid);
    AssembleKids(st, t, 0, avail - {t.vid});
    var ms := AssembleElems(st, st[t.vid].elems, avail - {t.vid});
    assert ElemsOf(t.kids)[0..] == ElemsOf(t.kids);
    if t.isObject {
      assert Obj(ms) == Erase(t);
    } else {
      assert Arr(Values(ms)) == Erase(t);
    }
  }

  lemma KidHeld(st: Store, t: Node, i: nat, avail: set<Vid>)
    requires t.Box? && Holds(st, t) && Linear(t) && i < |t.kids|
    requires forall v :: HasVid(t, v) && v != t.vid ==> v in avail
    ensures var kid := t.kids[i].node; Holds(st, kid) && Linear(kid) && forall v :: HasVid(kid, v) ==> v in avail
  {
    forall v | HasVid(t.kids[i].node, v) ensures v in avail {
      assert HasVid(t, v);
    }
  }

  lemma EraseTip(t: Node)
    requires t.Tip?
    ensures Erase(t) == Leaf(t.scalar)
  {
  }

  lemma {:induction false} AssembleKids(st: Store, t: Node, i: nat, avail: set<Vid>)
    requires t.Box? && Holds(st, t) && Linear(t) && i <= |t.kids|
    requires forall v :: HasVid(t, v) && v != t.vid ==> v in avail
    ensures var ms := AssembleElems(st, ElemsOf(t.kids)[i..], avail);
            |ms| == |t.kids| - i
            && forall k :: 0 <= k < |ms| ==> ms[k] == Member(NameOf(t.kids[i + k].id), Erase(t.kids[i + k].node))
    decreases t, |t.kids| - i
  {
    hide Erase, Linear, Holds, HasVid, Apart, NameOf;
    if i < |t.kids| {
      var kid := t.kids[i];
      AssembleKids(st, t, i + 1, avail);
      assert ElemsOf(t.kids)[i..][1..] == ElemsOf(t.kids)[i + 1..];
      KidHeld(st, t, i, avail);
      if kid.node.Tip? {
        EraseTip(kid.node);
      } else {
        AssembleHeld(st, kid.node, avail);
      }
      assert DecodeRef(st, RefOf(kid.node), avail) == Some(Erase(kid.node));
    }
  }

  /** A key laid out as a tree reads as that tree's value. */
  lemma LayoutReads(st: Store, t: Node)
    requires Layout(st, t)
    ensures Document(st) == Some(Erase(t))
  {
    if t.Box? {
      forall v | HasVid(t, v) ensures v in st.Keys {
        HoldsHasVids(st, t, v);
      }
      AssembleHeld(st, t, st.Keys);
    }
  }
}
