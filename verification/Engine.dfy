/** The effects engine seen through its keyed collections: a pending list reduced onto committed state. */
module Engine {
  import opened Bytes

  /** The value carried by a stored field. */
  datatype Field = IntVal(i: int64) | FloatVal(bits: uint64) | Raw(raw: bytes)

  type Fields = map<bytes, Field>
  type Store = map<bytes, Fields>

  datatype Effect = Insert(key: bytes, id: bytes, value: Field) | Remove(key: bytes, id: bytes) | Noop(key: bytes)

  /** The net fields under a key; a missing key and one with no fields left read alike. */
  function FieldsAt(s: Store, key: bytes): (f: Fields)
  {
    if key in s then s[key] else map[]
  }

  function Apply(s: Store, e: Effect): (r: Store)
    ensures forall k :: k != e.key ==> FieldsAt(r, k) == FieldsAt(s, k)
  {
    match e
    case Insert(key, id, value) => s[key := FieldsAt(s, key)[id := value]]
    case Remove(key, id) => s[key := FieldsAt(s, key) - {id}]
    case Noop(_) => s
  }

  function Reduce(s: Store, es: seq<Effect>): (r: Store)
  {
    if es == [] then s else Apply(Reduce(s, es[..|es| - 1]), es[|es| - 1])
  }

  class Context {
    const committed: Store
    var pending: seq<Effect>

    constructor (committed: Store)
      ensures this.committed == committed && pending == [] && View() == committed
    {
      this.committed := committed;
      pending := [];
    }

    /** What `GetSnapshot` reads: committed state plus this context's own pending effects. */
    function View(): Store
      reads this
    {
      Reduce(committed, pending)
    }

    method Emit(e: Effect)
      modifies this
      ensures pending == old(pending) + [e]
      ensures View() == Apply(old(View()), e)
    {
      pending := pending + [e];
      assert pending[..|pending| - 1] == old(pending);
    }

    /** `TakeSavepoint` and `RestoreSavepoint`: the pending effects, by value. */
    method TakeSavepoint() returns (saved: seq<Effect>)
      ensures saved == pending
    {
      saved := pending;
    }

    method RestoreSavepoint(saved: seq<Effect>)
      modifies this
      ensures pending == saved
    {
      pending := saved;
    }

    method GetSnapshot(key: bytes) returns (snap: Fields)
      ensures snap == FieldsAt(View(), key)
    {
      snap := FieldsAt(View(), key);
    }
  }
}
