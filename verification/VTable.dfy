/** The write paths of a table (sql/vtab.go, sql/index.go): row fields and index entries kept in step. */
module VTable {
  import opened Common
  import opened Bytes
  import opened Encoding
  import opened Keys
  import opened Engine
  import opened Schema

  datatype WriteKind = WriteInsert | WriteUpdate | WriteDelete

  /** What a statement reports it wrote; conflict detection evaluates scan predicates on `cols`. */
  datatype RowWrite = RowWrite(kind: WriteKind, pk: bytes, cols: Row)

  datatype Outcome<T> = Ok(value: T) | UniqueViolation | NullKey

  const MARKER: Field := Raw([1])

  // ---- What one effect does to an index ----

  /** Dropping a row that has no entry, or removing the entry it has, leaves the entries of the others. */
  lemma EntryRemoved(s: Store, tbl: Table, rows: Rows, idx: Index, pk: bytes)
    requires ValidIndex(tbl, idx) && (forall q :: q in rows ==> RowFits(tbl, rows[q]))
    requires IndexIs(s, tbl, rows, idx) && pk in rows
    ensures var entry := IndexEntry(tbl, idx, rows[pk]);
            var s' := if entry.None? then s else Apply(s, Remove(IndexKey(idx.iid, entry.value), pk));
            IndexIs(s', tbl, rows - {pk}, idx)
  {
    var entry := IndexEntry(tbl, idx, rows[pk]);
    var s' := if entry.None? then s else Apply(s, Remove(IndexKey(idx.iid, entry.value), pk));
    forall encoded
      ensures FieldsAt(s', IndexKey(idx.iid, encoded)).Keys == Entries(tbl, rows - {pk}, idx, encoded)
    {
      assert Entries(tbl, rows - {pk}, idx, encoded) == Entries(tbl, rows, idx, encoded) - {pk};
      assert KeyRest(IndexKey(idx.iid, encoded)) == encoded;
    }
  }

  lemma EntryInserted(s: Store, tbl: Table, rows: Rows, idx: Index, pk: bytes, row: Row)
    requires ValidIndex(tbl, idx) && (forall q :: q in rows ==> RowFits(tbl, rows[q])) && RowFits(tbl, row)
    requires IndexIs(s, tbl, rows - {pk}, idx)
    ensures var entry := IndexEntry(tbl, idx, row);
            var s' := if entry.None? then s else Apply(s, Insert(IndexKey(idx.iid, entry.value), pk, MARKER));
            IndexIs(s', tbl, rows[pk := row], idx)
  {
    var entry := IndexEntry(tbl, idx, row);
    var s' := if entry.None? then s else Apply(s, Insert(IndexKey(idx.iid, entry.value), pk, MARKER));
    forall encoded
      ensures FieldsAt(s', IndexKey(idx.iid, encoded)).Keys == Entries(tbl, rows[pk := row], idx, encoded)
    {
      var rest := Entries(tbl, rows - {pk}, idx, encoded);
      assert Entries(tbl, rows[pk := row], idx, encoded) == if entry == Some(encoded) then rest + {pk} else rest;
      assert KeyRest(IndexKey(idx.iid, encoded)) == encoded;
    }
  }

  /** Only index entries changed. */
  ghost predicate SameRows(s: Store, s': Store)
  {
    forall tid, pk :: FieldsAt(s', RowKey(tid, pk)) == FieldsAt(s, RowKey(tid, pk))
  }

  /** Only entries of one index changed. */
  ghost predicate OnlyIndex(s: Store, s': Store, iid: ID)
  {
    forall key :: key == [] || key[0] != INDEX || KeyID(key) != iid ==> FieldsAt(s', key) == FieldsAt(s, key)
  }

  lemma OnlyIndexApply(s: Store, s': Store, iid: ID, e: Effect, encoded: bytes)
    requires OnlyIndex(s, s', iid) && e.key == IndexKey(iid, encoded)
    ensures OnlyIndex(s, Apply(s', e), iid)
  {
  }

  lemma OnlyIndexKeepsRows(s: Store, s': Store, iid: ID)
    requires OnlyIndex(s, s', iid)
    ensures SameRows(s, s')
  {
  }

  lemma SameRowsTransitive(s: Store, s': Store, s'': Store)
    requires SameRows(s, s') && SameRows(s', s'')
    ensures SameRows(s, s'')
  {
  }

  lemma RowsFitPut(tbl: Table, rows: Rows, pk: bytes, row: Row)
    requires ValidTable(tbl) && RowsFit(tbl, rows)
    requires RowFits(tbl, row) && PkPresent(tbl, row) && PkOf(tbl, row) == pk
    ensures RowsFit(tbl, rows[pk := row])
  {
  }

  ghost predicate FitRows(tbl: Table, rows: Rows)
  {
    forall pk :: pk in rows ==> RowFits(tbl, rows[pk])
  }

  /** The first `n` indexes list `after`, the others still `before`. */
  ghost predicate IndexesMoved(s: Store, tbl: Table, before: Rows, after: Rows, n: nat)
    requires ValidTable(tbl) && FitRows(tbl, before) && FitRows(tbl, after)
  {
    forall j :: 0 <= j < |tbl.indexes| ==> IndexIs(s, tbl, if j < n then after else before, tbl.indexes[j])
  }

  lemma IndexesMovedEnds(s: Store, tbl: Table, before: Rows, after: Rows)
    requires ValidTable(tbl) && FitRows(tbl, before) && FitRows(tbl, after)
    ensures RowsFit(tbl, before) ==> (IndexesMoved(s, tbl, before, after, 0) <==> IndexesAre(s, tbl, before))
    ensures RowsFit(tbl, after) ==> (IndexesMoved(s, tbl, before, after, |tbl.indexes|) <==> IndexesAre(s, tbl, after))
  {
  }

  /** A change confined to index `n` that moves it from `before` to `after`. */
  lemma OneIndexMoved(s: Store, s': Store, tbl: Table, before: Rows, after: Rows, n: nat)
    requires ValidTable(tbl) && FitRows(tbl, before) && FitRows(tbl, after) && n < |tbl.indexes|
    requires IndexesMoved(s, tbl, before, after, n)
    requires IndexIs(s', tbl, after, tbl.indexes[n])
    requires OnlyIndex(s, s', tbl.indexes[n].iid)
    ensures IndexesMoved(s', tbl, before, after, n + 1)
    ensures SameRows(s, s')
  {
    forall j | 0 <= j < |tbl.indexes|
      ensures IndexIs(s', tbl, if j < n + 1 then after else before, tbl.indexes[j])
    {
      if j != n {
        assert IndexIs(s, tbl, if j < n then after else before, tbl.indexes[j]);
        forall encoded
          ensures FieldsAt(s', IndexKey(tbl.indexes[j].iid, encoded)) == FieldsAt(s, IndexKey(tbl.indexes[j].iid, encoded))
        {
          assert tbl.indexes[j].iid != tbl.indexes[n].iid;
        }
      }
    }
  }

  // ---- Rows with pending effects ----

  /** The row keys that pending effects write to. */
  ghost function RowTouched(es: seq<Effect>): (r: set<bytes>)
  {
    if es == [] then {}
    else
      var e := es[|es| - 1];
      RowTouched(es[..|es| - 1]) + if !e.Noop? && e.key != [] && e.key[0] == ROW then {e.key} else {}
  }

  lemma TouchedSnoc(es: seq<Effect>, e: Effect)
    ensures RowTouched(es + [e]) == RowTouched(es) + if !e.Noop? && e.key != [] && e.key[0] == ROW then {e.key} else {}
  {
    assert (es + [e])[..|es|] == es;
  }

  // ---- Index maintenance ----

  /** `checkUniqueBeforeInsert`: is some other primary key already listed under this entry? */
  method CheckUnique(ctx: Context, iid: ID, encoded: bytes, self: bytes) returns (violated: bool)
    ensures violated <==> Taken(ctx.View(), iid, encoded, self)
  {
    var snap := ctx.GetSnapshot(IndexKey(iid, encoded));
    var left := snap.Keys;
    while left != {}
      invariant left <= snap.Keys
      invariant forall pk :: pk in snap && pk !in left ==> pk == self
      decreases left
    {
      var pk :| pk in left;
      if pk != self {
        return true;
      }
      left := left - {pk};
    }
    return false;
  }

  /** Some other primary key is listed under the entry. */
  ghost predicate Taken(s: Store, iid: ID, encoded: bytes, self: bytes)
  {
    exists pk :: pk in FieldsAt(s, IndexKey(iid, encoded)) && pk != self
  }

  /** Index `n` is UNIQUE and another row already has the entry `row` would take. */
  ghost predicate TakenBy(tbl: Table, rows: Rows, pk: bytes, row: Row, n: nat)
    requires ValidTable(tbl) && FitRows(tbl, rows) && RowFits(tbl, row) && n < |tbl.indexes|
  {
    && tbl.indexes[n].unique
    && IndexEntry(tbl, tbl.indexes[n], row).Some?
    && exists q :: q in rows && q != pk && IndexEntry(tbl, tbl.indexes[n], rows[q]) == IndexEntry(tbl, tbl.indexes[n], row)
  }

  /** Entries of the other rows: what the uniqueness check reads off the store. */
  lemma TakenFromStore(s: Store, tbl: Table, rows: Rows, known: Rows, pk: bytes, row: Row, n: nat, encoded: bytes)
    requires ValidTable(tbl) && FitRows(tbl, rows) && FitRows(tbl, known) && RowFits(tbl, row) && n < |tbl.indexes|
    requires IndexEntry(tbl, tbl.indexes[n], row) == Some(encoded)
    requires IndexIs(s, tbl, known, tbl.indexes[n]) && known - {pk} == rows - {pk}
    ensures tbl.indexes[n].unique ==> (TakenBy(tbl, rows, pk, row, n) <==> Taken(s, tbl.indexes[n].iid, encoded, pk))
  {
    var idx := tbl.indexes[n];
    var f := FieldsAt(s, IndexKey(idx.iid, encoded));
    assert f.Keys == Entries(tbl, known, idx, encoded);
    forall q | q != pk
      ensures q in f <==> q in rows && IndexEntry(tbl, idx, rows[q]) == Some(encoded)
    {
      assert q in f <==> q in f.Keys;
      assert q in known <==> q in known - {pk};
      assert q in rows <==> q in rows - {pk};
      assert q in rows ==> (rows - {pk})[q] == rows[q] && (known - {pk})[q] == known[q];
    }
  }

  /** The store once an entry is in it. */
  function WithEntry(s: Store, iid: ID, entry: Option<bytes>, pk: bytes): Store
  {
    if entry.None? then s else Apply(s, Insert(IndexKey(iid, entry.value), pk, MARKER))
  }

  function WithoutEntry(s: Store, iid: ID, entry: Option<bytes>, pk: bytes): Store
  {
    if entry.None? then s else Apply(s, Remove(IndexKey(iid, entry.value), pk))
  }

  /** Only entries of index `iid` changed, and no row was written to. */
  ghost predicate IndexWrite(s: Store, es: seq<Effect>, s': Store, es': seq<Effect>, iid: ID)
  {
    OnlyIndex(s, s', iid) && RowTouched(es') == RowTouched(es)
  }

  lemma EntryWrite(s: Store, es: seq<Effect>, iid: ID, encoded: bytes, e: Effect)
    requires e.key == IndexKey(iid, encoded)
    ensures IndexWrite(s, es, s, es, iid) && IndexWrite(s, es, Apply(s, e), es + [e], iid)
  {
    TouchedSnoc(es, e);
    OnlyIndexApply(s, s, iid, e, encoded);
  }

  /** The tail of every index write: pin the entry, check UNIQUE, insert. */
  method InsertEntry(ctx: Context, tbl: Table, n: nat, pk: bytes, row: Row) returns (ok: bool)
    requires ValidTable(tbl) && RowFits(tbl, row) && n < |tbl.indexes|
    modifies ctx
    ensures IndexWrite(old(ctx.View()), old(ctx.pending), ctx.View(), ctx.pending, tbl.indexes[n].iid)
    ensures var idx := tbl.indexes[n];
            var entry := IndexEntry(tbl, idx, row);
            && (ok <==> !(idx.unique && entry.Some? && Taken(old(ctx.View()), idx.iid, entry.value, pk)))
            && ctx.View() == if ok then WithEntry(old(ctx.View()), idx.iid, entry, pk) else old(ctx.View())
  {
    var idx := tbl.indexes[n];
    var entry := IndexEntry(tbl, idx, row);
    ghost var s, es := ctx.View(), ctx.pending;
    hide *;
    WithEntryIs(s, idx.iid, entry, pk);
    if entry.None? {
      NothingWritten(s, es, idx.iid);
      return true;
    }
    var entryKey := IndexKey(idx.iid, entry.value);
    EntryWrite(s, es, idx.iid, entry.value, Noop(entryKey));
    NoopChangesNothing(s, entryKey);
    ctx.Emit(Noop(entryKey));
    if idx.unique {
      var violated := CheckUnique(ctx, idx.iid, entry.value, pk);
      if violated {
        return false;
      }
    }
    EntryWrite(s, ctx.pending, idx.iid, entry.value, Insert(entryKey, pk, MARKER));
    ctx.Emit(Insert(entryKey, pk, MARKER));
    WritesJoin(s, es, s, es + [Noop(entryKey)], ctx.View(), ctx.pending, idx.iid);
    return true;
  }

  lemma WithEntryIs(s: Store, iid: ID, entry: Option<bytes>, pk: bytes)
    ensures WithEntry(s, iid, entry, pk) == if entry.None? then s else Apply(s, Insert(IndexKey(iid, entry.value), pk, MARKER))
    ensures WithoutEntry(s, iid, entry, pk) == if entry.None? then s else Apply(s, Remove(IndexKey(iid, entry.value), pk))
  {
  }

  lemma NothingWritten(s: Store, es: seq<Effect>, iid: ID)
    ensures IndexWrite(s, es, s, es, iid)
  {
  }

  lemma WritesJoin(s: Store, es: seq<Effect>, s1: Store, es1: seq<Effect>, s2: Store, es2: seq<Effect>, iid: ID)
    requires IndexWrite(s, es, s1, es1, iid) && IndexWrite(s1, es1, s2, es2, iid)
    ensures IndexWrite(s, es, s2, es2, iid)
  {
  }

  lemma NoopChangesNothing(s: Store, key: bytes)
    ensures Apply(s, Noop(key)) == s
  {
  }

  /** Only index entries changed, and no row was written to. */
  ghost predicate IndexOnly(s: Store, es: seq<Effect>, s': Store, es': seq<Effect>)
  {
    SameRows(s, s') && RowTouched(es') == RowTouched(es)
  }

  lemma IndexOnlyNext(s: Store, es: seq<Effect>, s1: Store, es1: seq<Effect>, s2: Store, es2: seq<Effect>, iid: ID)
    requires IndexOnly(s, es, s1, es1) && IndexWrite(s1, es1, s2, es2, iid)
    ensures IndexOnly(s, es, s2, es2)
  {
    OnlyIndexKeepsRows(s1, s2, iid);
    SameRowsTransitive(s, s1, s2);
  }

  lemma IndexOnlyStart(s: Store, es: seq<Effect>)
    ensures IndexOnly(s, es, s, es)
  {
  }

  /** From index `n` on the indexes still list `rows`, and those before it refused nothing. */
  ghost predicate Behind(s: Store, tbl: Table, rows: Rows, pk: bytes, row: Row, n: nat)
    requires ValidTable(tbl) && FitRows(tbl, rows) && RowFits(tbl, row) && n <= |tbl.indexes|
  {
    && (forall j :: n <= j < |tbl.indexes| ==> IndexIs(s, tbl, rows, tbl.indexes[j]))
    && (forall j :: 0 <= j < n ==> !TakenBy(tbl, rows, pk, row, j))
  }

  lemma BehindStart(s: Store, tbl: Table, rows: Rows, pk: bytes, row: Row)
    requires ValidTable(tbl) && RowsFit(tbl, rows) && RowFits(tbl, row) && IndexesAre(s, tbl, rows)
    ensures FitRows(tbl, rows) && Behind(s, tbl, rows, pk, row, 0)
    ensures var after := rows[pk := row]; FitRows(tbl, after) && IndexesMoved(s, tbl, rows, after, 0)
  {
  }

  /** One index done: the check was the one on rows, and the index now lists the new row. */
  lemma BehindNext(s: Store, s': Store, tbl: Table, rows: Rows, pk: bytes, row: Row, n: nat, ok: bool)
    requires ValidTable(tbl) && FitRows(tbl, rows) && RowFits(tbl, row) && n < |tbl.indexes|
    requires Behind(s, tbl, rows, pk, row, n)
    requires var idx := tbl.indexes[n];
             var entry := IndexEntry(tbl, idx, row);
             && (ok <==> !(idx.unique && entry.Some? && Taken(s, idx.iid, entry.value, pk)))
             && s' == if ok then WithEntry(s, idx.iid, entry, pk) else s
    ensures ok <==> !TakenBy(tbl, rows, pk, row, n)
    ensures ok ==> Behind(s', tbl, rows, pk, row, n + 1)
    ensures var after := rows[pk := row];
            FitRows(tbl, after) && (ok && pk !in rows && IndexesMoved(s, tbl, rows, after, n) ==> IndexesMoved(s', tbl, rows, after, n + 1))
  {
    var idx, after := tbl.indexes[n], rows[pk := row];
    var entry := IndexEntry(tbl, idx, row);
    assert IndexIs(s, tbl, rows, idx);
    if entry.Some? {
      TakenFromStore(s, tbl, rows, rows, pk, row, n, entry.value);
      OnlyIndexApply(s, s, idx.iid, Insert(IndexKey(idx.iid, entry.value), pk, MARKER), entry.value);
    }
    assert OnlyIndex(s, s', idx.iid);
    OthersStay(s, s', tbl, rows, n);
    if ok && pk !in rows && IndexesMoved(s, tbl, rows, after, n) {
      assert rows - {pk} == rows;
      EntryInserted(s, tbl, rows, idx, pk, row);
      OneIndexMoved(s, s', tbl, rows, after, n);
    }
  }

  lemma OthersStay(s: Store, s': Store, tbl: Table, rows: Rows, n: nat)
    requires ValidTable(tbl) && FitRows(tbl, rows) && n < |tbl.indexes| && OnlyIndex(s, s', tbl.indexes[n].iid)
    ensures forall j :: 0 <= j < |tbl.indexes| && j != n && IndexIs(s, tbl, rows, tbl.indexes[j]) ==> IndexIs(s', tbl, rows, tbl.indexes[j])
  {
    forall j | 0 <= j < |tbl.indexes| && j != n && IndexIs(s, tbl, rows, tbl.indexes[j])
      ensures IndexIs(s', tbl, rows, tbl.indexes[j])
    {
      assert tbl.indexes[j].iid != tbl.indexes[n].iid;
    }
  }

  /** The first `n` indexes list `pk` under the row's entries too; no other listing changed. */
  ghost predicate EntriesAdded(s: Store, s': Store, tbl: Table, pk: bytes, row: Row, n: nat)
    requires ValidTable(tbl) && RowFits(tbl, row)
  {
    forall j :: 0 <= j < |tbl.indexes| ==> 
      if j < n then EntryAdded(s, s', tbl, tbl.indexes[j], pk, row) else EntrySame(s, s', tbl.indexes[j])
  }

  ghost predicate EntryAdded(s: Store, s': Store, tbl: Table, idx: Index, pk: bytes, row: Row)
    requires ValidIndex(tbl, idx) && RowFits(tbl, row)
  {
    forall encoded :: FieldsAt(s', IndexKey(idx.iid, encoded)).Keys
                   == FieldsAt(s, IndexKey(idx.iid, encoded)).Keys + if IndexEntry(tbl, idx, row) == Some(encoded) then {pk} else {}
  }

  ghost predicate EntrySame(s: Store, s': Store, idx: Index)
  {
    forall encoded :: FieldsAt(s', IndexKey(idx.iid, encoded)).Keys == FieldsAt(s, IndexKey(idx.iid, encoded)).Keys
  }

  lemma EntriesAddedStart(s: Store, tbl: Table, pk: bytes, row: Row)
    requires ValidTable(tbl) && RowFits(tbl, row)
    ensures EntriesAdded(s, s, tbl, pk, row, 0)
  {
    assert forall j :: 0 <= j < |tbl.indexes| ==> EntrySame(s, s, tbl.indexes[j]);
  }

  lemma EntriesAddedNext(s: Store, s1: Store, s2: Store, tbl: Table, pk: bytes, row: Row, n: nat, ok: bool)
    requires ValidTable(tbl) && RowFits(tbl, row) && n < |tbl.indexes| && EntriesAdded(s, s1, tbl, pk, row, n)
    requires s2 == if ok then WithEntry(s1, tbl.indexes[n].iid, IndexEntry(tbl, tbl.indexes[n], row), pk) else s1
    ensures EntriesAdded(s, s2, tbl, pk, row, if ok then n + 1 else n)
  {
    if ok {
      hide ValidTable, RowFits, WithEntry, EntryAdded, EntrySame, IndexEntry;
      forall j | 0 <= j < |tbl.indexes|
        ensures if j < n + 1 then EntryAdded(s, s2, tbl, tbl.indexes[j], pk, row) else EntrySame(s, s2, tbl.indexes[j])
      {
        IndexIsValid(tbl, j);
        OneEntryMore(s, s1, s2, tbl, n, pk, row, j);
      }
    }
  }

  lemma OneEntryMore(s: Store, s1: Store, s2: Store, tbl: Table, n: nat, pk: bytes, row: Row, j: nat)
    requires ValidTable(tbl) && RowFits(tbl, row) && n < |tbl.indexes| && j < |tbl.indexes| && ValidIndex(tbl, tbl.indexes[j])
    requires s2 == WithEntry(s1, tbl.indexes[n].iid, IndexEntry(tbl, tbl.indexes[n], row), pk)
    ensures EntryAdded(s, s1, tbl, tbl.indexes[j], pk, row) ==> EntryAdded(s, s2, tbl, tbl.indexes[j], pk, row)
    ensures EntrySame(s, s1, tbl.indexes[j]) ==> if j == n then EntryAdded(s, s2, tbl, tbl.indexes[j], pk, row) else EntrySame(s, s2, tbl.indexes[j])
  {
    hide *;
    IndexesApart(tbl, n, j);
    if j == n {
      AddedHere(s, s1, s2, tbl, tbl.indexes[n], pk, row);
    } else {
      AddedElsewhere(s, s1, s2, tbl, tbl.indexes[n].iid, IndexEntry(tbl, tbl.indexes[n], row), pk, tbl.indexes[j], row);
    }
  }

  lemma IndexesApart(tbl: Table, n: nat, j: nat)
    requires ValidTable(tbl) && n < |tbl.indexes| && j < |tbl.indexes|
    ensures ValidIndex(tbl, tbl.indexes[n]) && (n != j ==> tbl.indexes[n].iid != tbl.indexes[j].iid)
  {
  }

  lemma AddedHere(s: Store, s1: Store, s2: Store, tbl: Table, idx: Index, pk: bytes, row: Row)
    requires ValidIndex(tbl, idx) && RowFits(tbl, row) && s2 == WithEntry(s1, idx.iid, IndexEntry(tbl, idx, row), pk)
    ensures EntryAdded(s, s1, tbl, idx, pk, row) || EntrySame(s, s1, idx) ==> EntryAdded(s, s2, tbl, idx, pk, row)
  {
    var entry := IndexEntry(tbl, idx, row);
    hide IndexEntry, ValidIndex, RowFits, IndexKey, WithEntry, FieldsAt;
    forall encoded
      ensures FieldsAt(s2, IndexKey(idx.iid, encoded)).Keys
           == FieldsAt(s1, IndexKey(idx.iid, encoded)).Keys + if entry == Some(encoded) then {pk} else {}
    {
      ListedWith(s1, idx.iid, entry, pk, idx.iid, encoded);
    }
  }

  lemma AddedElsewhere(s: Store, s1: Store, s2: Store, tbl: Table, iid: ID, entry: Option<bytes>, pk: bytes, idx: Index, row: Row)
    requires ValidIndex(tbl, idx) && RowFits(tbl, row) && iid != idx.iid && s2 == WithEntry(s1, iid, entry, pk)
    ensures EntryAdded(s, s1, tbl, idx, pk, row) ==> EntryAdded(s, s2, tbl, idx, pk, row)
    ensures EntrySame(s, s1, idx) ==> EntrySame(s, s2, idx)
  {
    hide IndexEntry, ValidIndex, RowFits, IndexKey, WithEntry, FieldsAt;
    forall encoded ensures FieldsAt(s2, IndexKey(idx.iid, encoded)).Keys == FieldsAt(s1, IndexKey(idx.iid, encoded)).Keys {
      ListedWith(s1, iid, entry, pk, idx.iid, encoded);
    }
  }

  lemma ListedWith(s: Store, iid: ID, entry: Option<bytes>, pk: bytes, other: ID, encoded: bytes)
    ensures FieldsAt(WithEntry(s, iid, entry, pk), IndexKey(other, encoded)).Keys
         == FieldsAt(s, IndexKey(other, encoded)).Keys + if iid == other && entry == Some(encoded) then {pk} else {}
  {
    if entry.Some? && (iid != other || entry.value != encoded) {
      IndexKeysDiffer(iid, entry.value, other, encoded);
    }
  }

  lemma IndexKeysDiffer(iid: ID, a: bytes, iid': ID, b: bytes)
    requires iid != iid' || a != b
    ensures IndexKey(iid, a) != IndexKey(iid', b)
  {
    assert KeyID(IndexKey(iid, a)) == iid && KeyRest(IndexKey(iid, a)) == a;
  }

  /**
    `emitIndexInserts`: one entry per index for a new row; stops at the first UNIQUE clash.
    Whatever the store holds, only index entries are written. When the indexes are known to list `rows`, a clash is a
    conflict of the row; and a row under a fresh key ends up in the indexes before `n`, all of them on success.
  */
  method EmitIndexInserts(ctx: Context, tbl: Table, pk: bytes, row: Row, ghost rows: Rows, ghost known: bool)
    returns (ok: bool, ghost n: nat)
    requires ValidTable(tbl) && RowFits(tbl, row) && RowsFit(tbl, rows) && (known ==> IndexesAre(ctx.View(), tbl, rows))
    modifies ctx
    ensures IndexOnly(old(ctx.View()), old(ctx.pending), ctx.View(), ctx.pending)
    ensures known ==> (ok <==> !Conflict(tbl, rows, pk, row))
    ensures FitRows(tbl, rows) && FitRows(tbl, rows[pk := row]) && n <= |tbl.indexes| && (ok <==> n == |tbl.indexes|)
    ensures known && !ok ==> TakenBy(tbl, rows, pk, row, n)
    ensures known && pk !in rows ==> IndexesMoved(ctx.View(), tbl, rows, rows[pk := row], n)
    ensures EntriesAdded(old(ctx.View()), ctx.View(), tbl, pk, row, n)
  {
    hide *;
    ghost var s, es, after := ctx.View(), ctx.pending, rows[pk := row];
    FitsAll(tbl, rows, pk, row);
    ConflictFromTaken(tbl, rows, pk, row);
    IndexOnlyStart(s, es);
    EntriesAddedStart(s, tbl, pk, row);
    if known {
      BehindStart(s, tbl, rows, pk, row);
    }
    for i := 0 to |tbl.indexes|
      invariant IndexOnly(s, es, ctx.View(), ctx.pending)
      invariant known ==> Behind(ctx.View(), tbl, rows, pk, row, i)
      invariant known && pk !in rows ==> IndexesMoved(ctx.View(), tbl, rows, after, i)
      invariant EntriesAdded(s, ctx.View(), tbl, pk, row, i)
    {
      ghost var s1, es1 := ctx.View(), ctx.pending;
      ok := InsertEntry(ctx, tbl, i, pk, row);
      EntriesAddedNext(s, s1, ctx.View(), tbl, pk, row, i, ok);
      IndexOnlyNext(s, es, s1, es1, ctx.View(), ctx.pending, tbl.indexes[i].iid);
      if known {
        BehindNext(s1, ctx.View(), tbl, rows, pk, row, i, ok);
      }
      if !ok {
        return false, i;
      }
    }
    if known {
      BehindAll(ctx.View(), tbl, rows, pk, row);
    }
    return true, |tbl.indexes|;
  }

  lemma FitsAll(tbl: Table, rows: Rows, pk: bytes, row: Row)
    requires ValidTable(tbl) && RowsFit(tbl, rows) && RowFits(tbl, row)
    ensures FitRows(tbl, rows) && FitRows(tbl, rows[pk := row]) && FitRows(tbl, rows - {pk})
  {
  }

  lemma BehindAll(s: Store, tbl: Table, rows: Rows, pk: bytes, row: Row)
    requires ValidTable(tbl) && FitRows(tbl, rows) && RowFits(tbl, row) && Behind(s, tbl, rows, pk, row, |tbl.indexes|)
    ensures forall j :: 0 <= j < |tbl.indexes| ==> !TakenBy(tbl, rows, pk, row, j)
  {
  }

  lemma ConflictFromTaken(tbl: Table, rows: Rows, pk: bytes, row: Row)
    requires ValidTable(tbl) && RowsFit(tbl, rows) && RowFits(tbl, row)
    ensures FitRows(tbl, rows)
    ensures Conflict(tbl, rows, pk, row) <==> exists j :: 0 <= j < |tbl.indexes| && TakenBy(tbl, rows, pk, row, j)
  {
    if Conflict(tbl, rows, pk, row) {
      var j, q :| 0 <= j < |tbl.indexes| && tbl.indexes[j].unique && q in rows && q != pk
        && IndexEntry(tbl, tbl.indexes[j], row).Some?
        && IndexEntry(tbl, tbl.indexes[j], rows[q]) == IndexEntry(tbl, tbl.indexes[j], row);
      assert TakenBy(tbl, rows, pk, row, j);
    }
  }

  lemma RowsFitDrop(tbl: Table, rows: Rows, pk: bytes)
    requires ValidTable(tbl) && RowsFit(tbl, rows)
    ensures RowsFit(tbl, rows - {pk})
  {
  }

  /** `emitIndexRemoves`: takes the entries of a row that goes away. */
  method EmitIndexRemoves(ctx: Context, tbl: Table, pk: bytes, row: Row, ghost rows: Rows, ghost known: bool)
    requires ValidTable(tbl) && RowFits(tbl, row) && RowsFit(tbl, rows)
    requires known ==> IndexesAre(ctx.View(), tbl, rows) && pk in rows && rows[pk] == row
    modifies ctx
    ensures RowsFit(tbl, rows - {pk})
    ensures IndexOnly(old(ctx.View()), old(ctx.pending), ctx.View(), ctx.pending)
    ensures known ==> IndexesAre(ctx.View(), tbl, rows - {pk})
  {
    hide *;
    ghost var s, es, after := ctx.View(), ctx.pending, rows - {pk};
    RowsFitDrop(tbl, rows, pk);
    FitsAll(tbl, rows, pk, row);
    IndexOnlyStart(s, es);
    IndexesMovedEnds(s, tbl, rows, after);
    for i := 0 to |tbl.indexes|
      invariant IndexOnly(s, es, ctx.View(), ctx.pending)
      invariant known ==> IndexesMoved(ctx.View(), tbl, rows, after, i)
    {
      ghost var s1, es1 := ctx.View(), ctx.pending;
      IndexIsValid(tbl, i);
      var idx := tbl.indexes[i];
      var entry := IndexEntry(tbl, idx, row);
      WithEntryIs(s1, idx.iid, entry, pk);
      NothingWritten(s1, es1, idx.iid);
      if entry.Some? {
        EntryWrite(s1, es1, idx.iid, entry.value, Remove(IndexKey(idx.iid, entry.value), pk));
        ctx.Emit(Remove(IndexKey(idx.iid, entry.value), pk));
      }
      IndexOnlyNext(s, es, s1, es1, ctx.View(), ctx.pending, idx.iid);
      if known {
        RemovedNext(s1, ctx.View(), tbl, rows, pk, i);
      }
    }
    IndexesMovedEnds(ctx.View(), tbl, rows, after);
  }

  lemma IndexIsValid(tbl: Table, n: nat)
    requires ValidTable(tbl) && n < |tbl.indexes|
    ensures ValidIndex(tbl, tbl.indexes[n])
  {
  }

  lemma RemovedNext(s: Store, s': Store, tbl: Table, rows: Rows, pk: bytes, n: nat)
    requires ValidTable(tbl) && FitRows(tbl, rows) && FitRows(tbl, rows - {pk}) && n < |tbl.indexes| && pk in rows
    requires IndexesMoved(s, tbl, rows, rows - {pk}, n)
    requires s' == WithoutEntry(s, tbl.indexes[n].iid, IndexEntry(tbl, tbl.indexes[n], rows[pk]), pk)
    ensures IndexesMoved(s', tbl, rows, rows - {pk}, n + 1)
  {
    var idx := tbl.indexes[n];
    var entry := IndexEntry(tbl, idx, rows[pk]);
    assert IndexIs(s, tbl, rows, idx);
    EntryRemoved(s, tbl, rows, idx, pk);
    if entry.Some? {
      OnlyIndexApply(s, s, idx.iid, Remove(IndexKey(idx.iid, entry.value), pk), entry.value);
    }
    OneIndexMoved(s, s', tbl, rows, rows - {pk}, n);
  }

  /** Takes the entry of index `n` that the stored fields of the row give. */
  method RemoveStoredEntry(ctx: Context, tbl: Table, n: nat, pk: bytes, oldSnap: Fields, ghost cur: Row)
    requires ValidTable(tbl) && n < |tbl.indexes| && RowFits(tbl, cur) && RowIs(oldSnap, tbl, cur)
    modifies ctx
    ensures IndexWrite(old(ctx.View()), old(ctx.pending), ctx.View(), ctx.pending, tbl.indexes[n].iid)
    ensures ctx.View() == WithoutEntry(old(ctx.View()), tbl.indexes[n].iid, IndexEntry(tbl, tbl.indexes[n], cur), pk)
  {
    hide *;
    IndexIsValid(tbl, n);
    var idx := tbl.indexes[n];
    FieldsFitIndex(tbl, idx, cur, oldSnap);
    EntryFromFieldsExact(tbl, idx, cur, oldSnap);
    var oldEntry := EntryFromFields(tbl, idx, oldSnap);
    WithEntryIs(ctx.View(), idx.iid, oldEntry, pk);
    NothingWritten(ctx.View(), ctx.pending, idx.iid);
    if oldEntry.Some? {
      EntryWrite(ctx.View(), ctx.pending, idx.iid, oldEntry.value, Remove(IndexKey(idx.iid, oldEntry.value), pk));
      ctx.Emit(Remove(IndexKey(idx.iid, oldEntry.value), pk));
    }
  }

  /** One index of a same-key update: the old entry out, the new one checked and put in. */
  lemma DeltaNext(s: Store, s1: Store, s2: Store, tbl: Table, rows: Rows, pk: bytes, row: Row, n: nat, ok: bool)
    requires ValidTable(tbl) && FitRows(tbl, rows) && FitRows(tbl, rows[pk := row]) && RowFits(tbl, row)
    requires n < |tbl.indexes| && pk in rows
    requires IndexesMoved(s, tbl, rows, rows[pk := row], n)
    requires s1 == WithoutEntry(s, tbl.indexes[n].iid, IndexEntry(tbl, tbl.indexes[n], rows[pk]), pk)
    requires var idx := tbl.indexes[n];
             var entry := IndexEntry(tbl, idx, row);
             && (ok <==> !(idx.unique && entry.Some? && Taken(s1, idx.iid, entry.value, pk)))
             && s2 == if ok then WithEntry(s1, idx.iid, entry, pk) else s1
    requires OnlyIndex(s, s2, tbl.indexes[n].iid)
    ensures ok <==> !TakenBy(tbl, rows, pk, row, n)
    ensures ok ==> IndexesMoved(s2, tbl, rows, rows[pk := row], n + 1)
  {
    hide *;
    var idx, after := tbl.indexes[n], rows[pk := row];
    NotYetMoved(s, tbl, rows, after, pk, row, n);
    var entry := IndexEntry(tbl, idx, row);
    EntryRemoved(s, tbl, rows, idx, pk);
    WithEntryIs(s, idx.iid, IndexEntry(tbl, idx, rows[pk]), pk);
    WithEntryIs(s1, idx.iid, entry, pk);
    if entry.Some? {
      assert (rows - {pk}) - {pk} == rows - {pk};
      TakenFromStore(s1, tbl, rows, rows - {pk}, pk, row, n, entry.value);
    }
    if ok {
      EntryInserted(s1, tbl, rows, idx, pk, row);
      OneIndexMoved(s, s2, tbl, rows, after, n);
    }
  }

  lemma NotYetMoved(s: Store, tbl: Table, before: Rows, after: Rows, pk: bytes, row: Row, n: nat)
    requires ValidTable(tbl) && FitRows(tbl, before) && FitRows(tbl, after) && RowFits(tbl, row) && n < |tbl.indexes|
    requires IndexesMoved(s, tbl, before, after, n)
    ensures ValidIndex(tbl, tbl.indexes[n]) && (forall q :: q in before ==> RowFits(tbl, before[q]))
    ensures IndexIs(s, tbl, before, tbl.indexes[n]) && FitRows(tbl, before - {pk})
    ensures forall q :: q in before - {pk} ==> RowFits(tbl, (before - {pk})[q])
    ensures forall q :: q in after ==> RowFits(tbl, after[q])
    ensures TakenBy(tbl, before, pk, row, n) ==> tbl.indexes[n].unique && IndexEntry(tbl, tbl.indexes[n], row).Some?
  {
  }

  /** `emitIndexDeltasSamePK`: per index, remove the entry the stored fields give and insert the new one. */
  method EmitIndexDeltas(ctx: Context, tbl: Table, pk: bytes, oldSnap: Fields, row: Row, ghost cur: Row,
                         ghost rows: Rows, ghost known: bool)
    returns (ok: bool)
    requires ValidTable(tbl) && RowFits(tbl, row) && RowFits(tbl, cur) && RowIs(oldSnap, tbl, cur) && RowsFit(tbl, rows)
    requires known ==> IndexesAre(ctx.View(), tbl, rows) && pk in rows && rows[pk] == cur
    modifies ctx
    ensures IndexOnly(old(ctx.View()), old(ctx.pending), ctx.View(), ctx.pending)
    ensures known ==> (ok <==> !Conflict(tbl, rows, pk, row))
    ensures FitRows(tbl, rows) && FitRows(tbl, rows[pk := row])
    ensures known && ok ==> IndexesMoved(ctx.View(), tbl, rows, rows[pk := row], |tbl.indexes|)
  {
    hide *;
    ghost var s, es, after := ctx.View(), ctx.pending, rows[pk := row];
    FitsAll(tbl, rows, pk, row);
    ConflictFromTaken(tbl, rows, pk, row);
    IndexOnlyStart(s, es);
    IndexesMovedEnds(s, tbl, rows, after);
    for i := 0 to |tbl.indexes|
      invariant IndexOnly(s, es, ctx.View(), ctx.pending)
      invariant known ==> IndexesMoved(ctx.View(), tbl, rows, after, i) && forall j :: 0 <= j < i ==> !TakenBy(tbl, rows, pk, row, j)
    {
      ghost var s1, es1 := ctx.View(), ctx.pending;
      RemoveStoredEntry(ctx, tbl, i, pk, oldSnap, cur);
      ghost var s2, es2 := ctx.View(), ctx.pending;
      ok := InsertEntry(ctx, tbl, i, pk, row);
      WritesJoin(s1, es1, s2, es2, ctx.View(), ctx.pending, tbl.indexes[i].iid);
      IndexOnlyNext(s, es, s1, es1, ctx.View(), ctx.pending, tbl.indexes[i].iid);
      if known {
        WriteIsOnly(s1, es1, ctx.View(), ctx.pending, tbl.indexes[i].iid);
        DeltaNext(s1, s2, ctx.View(), tbl, rows, pk, row, i, ok);
      }
      if !ok {
        return;
      }
    }
    return true;
  }

  lemma WriteIsOnly(s: Store, es: seq<Effect>, s': Store, es': seq<Effect>, iid: ID)
    requires IndexWrite(s, es, s', es', iid)
    ensures OnlyIndex(s, s', iid)
  {
  }

  // ---- Row fields ----

  /** Only the fields of one row changed. */
  ghost predicate OnlyRow(s: Store, s': Store, tid: ID, pk: bytes)
  {
    forall key :: key != RowKey(tid, pk) ==> FieldsAt(s', key) == FieldsAt(s, key)
  }

  /** The row key holds `row`, and nothing else has changed since `s0`. */
  ghost predicate RowNow(s0: Store, s: Store, tbl: Table, pk: bytes, row: Row)
  {
    RowIs(FieldsAt(s, RowKey(tbl.tid, pk)), tbl, row) && OnlyRow(s0, s, tbl.tid, pk)
  }

  /** One stored column, written or (for NULL) removed. */
  method EmitColumn(ctx: Context, tbl: Table, pk: bytes, c: nat, v: Value, ghost s0: Store, ghost cur: Row)
    requires ValidTable(tbl) && c < |tbl.columns| && RowNow(s0, ctx.View(), tbl, pk, cur)
    modifies ctx
    ensures |cur| == |tbl.columns| && RowNow(s0, ctx.View(), tbl, pk, cur[c := v])
    ensures RowTouched(ctx.pending) == RowTouched(old(ctx.pending)) + {RowKey(tbl.tid, pk)}
  {
    var key := RowKey(tbl.tid, pk);
    if v == Null {
      RowIsClear(FieldsAt(ctx.View(), key), tbl, cur, c);
      TouchedSnoc(ctx.pending, Remove(key, tbl.columns[c].name));
      ctx.Emit(Remove(key, tbl.columns[c].name));
    } else {
      RowIsSet(FieldsAt(ctx.View(), key), tbl, cur, c, v);
      TouchedSnoc(ctx.pending, Insert(key, tbl.columns[c].name, Stored(v)));
      ctx.Emit(Insert(key, tbl.columns[c].name, Stored(v)));
    }
  }

  lemma RowNowStart(s: Store, tbl: Table, pk: bytes, row: Row)
    ensures RowNow(s, s, tbl, pk, row) <==> RowIs(FieldsAt(s, RowKey(tbl.tid, pk)), tbl, row)
    ensures FieldsAt(s, RowKey(tbl.tid, pk)) == map[] <==> RowNow(s, s, tbl, pk, AllNull(tbl))
  {
    RowIsAllNull(FieldsAt(s, RowKey(tbl.tid, pk)), tbl);
  }

  /** How many key columns come before the first that is NULL. */
  function LeadingKey(tbl: Table, row: Row): (n: nat)
    requires forall i :: 0 <= i < |tbl.pkCols| ==> tbl.pkCols[i] < |row|
    ensures n <= |tbl.pkCols| && (n == |tbl.pkCols| <==> PkPresent(tbl, row))
    ensures forall i :: 0 <= i < n ==> row[tbl.pkCols[i]] != Null
    ensures n < |tbl.pkCols| ==> row[tbl.pkCols[n]] == Null
  {
    LeadingFrom(tbl, row, 0)
  }

  function LeadingFrom(tbl: Table, row: Row, i: nat): (n: nat)
    requires i <= |tbl.pkCols| && forall i :: 0 <= i < |tbl.pkCols| ==> tbl.pkCols[i] < |row|
    ensures i <= n <= |tbl.pkCols|
    ensures forall k :: i <= k < n ==> row[tbl.pkCols[k]] != Null
    ensures n < |tbl.pkCols| ==> row[tbl.pkCols[n]] == Null
    decreases |tbl.pkCols| - i
  {
    if i == |tbl.pkCols| || row[tbl.pkCols[i]] == Null then i else LeadingFrom(tbl, row, i + 1)
  }

  /** `cur` with its first `n` key columns taken from `row`. */
  function WithKey(tbl: Table, cur: Row, row: Row, n: nat): (r: Row)
    requires |cur| == |row| && n <= |tbl.pkCols|
    ensures |r| == |row|
  {
    seq(|row|, c requires 0 <= c < |row| => if c in tbl.pkCols[..n] then row[c] else cur[c])
  }

  lemma WithKeyNext(tbl: Table, cur: Row, row: Row, n: nat)
    requires |cur| == |row| && n < |tbl.pkCols| && tbl.pkCols[n] < |row|
    ensures WithKey(tbl, cur, row, n)[tbl.pkCols[n] := row[tbl.pkCols[n]]] == WithKey(tbl, cur, row, n + 1)
    ensures WithKey(tbl, cur, row, 0) == cur
  {
    assert tbl.pkCols[..n + 1] == tbl.pkCols[..n] + [tbl.pkCols[n]];
  }

  /** `row` laid over `cur`: its NULLs leave what was there. */
  function Overlaid(cur: Row, row: Row): (r: Row)
    requires |cur| == |row|
    ensures |r| == |row|
  {
    seq(|row|, c requires 0 <= c < |row| => if row[c] != Null then row[c] else cur[c])
  }

  /** `cur` with its columns outside the key taken from `row`. */
  function Amended(tbl: Table, cur: Row, row: Row): (r: Row)
    requires |cur| == |row|
    ensures |r| == |row|
  {
    seq(|row|, c requires 0 <= c < |row| => if c in tbl.pkCols then cur[c] else row[c])
  }

  /**
    `emitPKPresence`: the key columns are stored as fields too, so that an otherwise NULL row stays live.
    A NULL stops it, after the key columns before have been written.
  */
  method EmitPKPresence(ctx: Context, tbl: Table, pk: bytes, row: Row, ghost cur: Row) returns (ok: bool)
    requires ValidTable(tbl) && |row| == |tbl.columns| && RowIs(FieldsAt(ctx.View(), RowKey(tbl.tid, pk)), tbl, cur)
    modifies ctx
    ensures ok <==> PkPresent(tbl, row)
    ensures |cur| == |row| && RowNow(old(ctx.View()), ctx.View(), tbl, pk, WithKey(tbl, cur, row, LeadingKey(tbl, row)))
    ensures RowTouched(ctx.pending) == RowTouched(old(ctx.pending)) + if LeadingKey(tbl, row) > 0 then {RowKey(tbl.tid, pk)} else {}
  {
    ghost var s0, es := ctx.View(), ctx.pending;
    RowNowStart(s0, tbl, pk, cur);
    WithKeyNext(tbl, cur, row, 0);
    hide RowNow, RowTouched, WithKey, RowIs, LeadingFrom, Context.View;
    for i := 0 to |tbl.pkCols|
      invariant i <= LeadingKey(tbl, row)
      invariant RowNow(s0, ctx.View(), tbl, pk, WithKey(tbl, cur, row, i))
      invariant RowTouched(ctx.pending) == RowTouched(es) + if i > 0 then {RowKey(tbl.tid, pk)} else {}
    {
      var c := tbl.pkCols[i];
      if row[c] == Null {
        return false;
      }
      WithKeyNext(tbl, cur, row, i);
      EmitColumn(ctx, tbl, pk, c, row[c], s0, WithKey(tbl, cur, row, i));
    }
    return true;
  }

  /** What the row key holds after an INSERT got this far. */
  function InsertedRow(tbl: Table, cur: Row, row: Row): (r: Row)
    requires |cur| == |row| && forall i :: 0 <= i < |tbl.pkCols| ==> tbl.pkCols[i] < |row|
    ensures |r| == |row|
  {
    if PkPresent(tbl, row) then Overlaid(cur, row) else WithKey(tbl, cur, row, LeadingKey(tbl, row))
  }

  /** The row writes of an INSERT. */
  method EmitRowInsert(ctx: Context, tbl: Table, pk: bytes, row: Row, ghost cur: Row) returns (ok: bool)
    requires ValidTable(tbl) && |row| == |tbl.columns| && RowIs(FieldsAt(ctx.View(), RowKey(tbl.tid, pk)), tbl, cur)
    modifies ctx
    ensures ok <==> PkPresent(tbl, row)
    ensures |cur| == |row| && RowNow(old(ctx.View()), ctx.View(), tbl, pk, InsertedRow(tbl, cur, row))
    ensures RowTouched(ctx.pending) == RowTouched(old(ctx.pending)) + if LeadingKey(tbl, row) > 0 then {RowKey(tbl.tid, pk)} else {}
  {
    hide *;
    ghost var s0, es := ctx.View(), ctx.pending;
    LaidEnds(tbl, cur, row, FieldsAt(s0, RowKey(tbl.tid, pk)));
    ok := EmitPKPresence(ctx, tbl, pk, row, cur);
    if !ok {
      return;
    }
    for c := 0 to |tbl.columns|
      invariant RowNow(s0, ctx.View(), tbl, pk, Laid(tbl, cur, row, c))
      invariant RowTouched(ctx.pending) == RowTouched(es) + {RowKey(tbl.tid, pk)}
    {
      LaidNext(tbl, cur, row, c);
      if PkPosition(tbl.pkCols, c) < 0 && row[c] != Null {
        EmitColumn(ctx, tbl, pk, c, row[c], s0, Laid(tbl, cur, row, c));
      }
    }
  }

  /** The key of `row` and those of its first `c` columns that are not NULL, over `cur`. */
  function Laid(tbl: Table, cur: Row, row: Row, c: nat): (r: Row)
    requires |cur| == |row|
    ensures |r| == |row|
  {
    seq(|row|, d requires 0 <= d < |row| => if d in tbl.pkCols || (d < c && row[d] != Null) then row[d] else cur[d])
  }

  lemma LaidNext(tbl: Table, cur: Row, row: Row, c: nat)
    requires |cur| == |row| && c < |row|
    ensures Laid(tbl, cur, row, c + 1) ==
            if PkPosition(tbl.pkCols, c) < 0 && row[c] != Null then Laid(tbl, cur, row, c)[c := row[c]] else Laid(tbl, cur, row, c)
  {
  }

  lemma LaidEnds(tbl: Table, cur: Row, row: Row, f: Fields)
    requires ValidTable(tbl) && |row| == |tbl.columns| && RowIs(f, tbl, cur)
    ensures |cur| == |row| && forall i :: 0 <= i < |tbl.pkCols| ==> tbl.pkCols[i] < |row|
    ensures PkPresent(tbl, row) ==>
              && LeadingKey(tbl, row) == |tbl.pkCols| > 0
              && Laid(tbl, cur, row, 0) == WithKey(tbl, cur, row, |tbl.pkCols|)
              && Laid(tbl, cur, row, |row|) == InsertedRow(tbl, cur, row)
    ensures !PkPresent(tbl, row) ==> InsertedRow(tbl, cur, row) == WithKey(tbl, cur, row, LeadingKey(tbl, row))
  {
    assert tbl.pkCols[..|tbl.pkCols|] == tbl.pkCols;
    if PkPresent(tbl, row) {
      forall d | 0 <= d < |row| && d in tbl.pkCols ensures row[d] != Null {
        var i :| 0 <= i < |tbl.pkCols| && tbl.pkCols[i] == d;
      }
    }
  }

  /** `emitRowDelete`: every column field, the presence fields included, is removed. */
  method EmitRowDelete(ctx: Context, tbl: Table, pk: bytes, ghost row: Row)
    requires ValidTable(tbl) && RowIs(FieldsAt(ctx.View(), RowKey(tbl.tid, pk)), tbl, row)
    modifies ctx
    ensures RowNow(old(ctx.View()), ctx.View(), tbl, pk, AllNull(tbl))
    ensures RowTouched(ctx.pending) == RowTouched(old(ctx.pending)) + {RowKey(tbl.tid, pk)}
  {
    ghost var cur, s0, es := row, ctx.View(), ctx.pending;
    RowNowStart(s0, tbl, pk, row);
    assert tbl.pkCols[0] < |tbl.columns|;
    hide RowNow, RowTouched, RowIs, Context.View;
    for c := 0 to |tbl.columns|
      invariant |cur| == |tbl.columns| && RowNow(s0, ctx.View(), tbl, pk, cur)
      invariant forall d :: 0 <= d < c ==> cur[d] == Null
      invariant RowTouched(ctx.pending) == RowTouched(es) + if c > 0 then {RowKey(tbl.tid, pk)} else {}
    {
      EmitColumn(ctx, tbl, pk, c, Null, s0, cur);
      cur := cur[c := Null];
    }
    assert cur == AllNull(tbl);
  }

  /** Some column is not part of the key. */
  predicate HasPlainColumn(tbl: Table)
  {
    exists c :: 0 <= c < |tbl.columns| && c !in tbl.pkCols
  }

  /** `emitSamePKUpdate`: columns outside the key are overwritten, or removed when they become NULL. */
  method EmitSamePKUpdate(ctx: Context, tbl: Table, pk: bytes, row: Row, ghost oldRow: Row)
    requires ValidTable(tbl) && RowIs(FieldsAt(ctx.View(), RowKey(tbl.tid, pk)), tbl, oldRow) && RowFits(tbl, row)
    modifies ctx
    ensures |oldRow| == |row| && RowNow(old(ctx.View()), ctx.View(), tbl, pk, Amended(tbl, oldRow, row))
    ensures RowTouched(ctx.pending) == RowTouched(old(ctx.pending)) + if HasPlainColumn(tbl) then {RowKey(tbl.tid, pk)} else {}
  {
    ghost var cur, s0, es, some := oldRow, ctx.View(), ctx.pending, false;
    RowNowStart(s0, tbl, pk, oldRow);
    hide RowNow, RowTouched, RowIs, Context.View;
    for c := 0 to |tbl.columns|
      invariant |cur| == |row| && RowNow(s0, ctx.View(), tbl, pk, cur)
      invariant forall d :: 0 <= d < |cur| ==> cur[d] == if d < c && d !in tbl.pkCols then row[d] else oldRow[d]
      invariant some <==> exists d :: 0 <= d < c && d !in tbl.pkCols
      invariant RowTouched(ctx.pending) == RowTouched(es) + if some then {RowKey(tbl.tid, pk)} else {}
    {
      if PkPosition(tbl.pkCols, c) < 0 {
        EmitColumn(ctx, tbl, pk, c, row[c], s0, cur);
        cur := cur[c := row[c]];
        some := true;
      }
    }
    assert cur == Amended(tbl, oldRow, row);
  }

  // ---- What a row key holds ----

  /** The columns stored under a row key, the key columns included. */
  function FieldRow(tbl: Table, f: Fields): (r: Row)
    ensures |r| == |tbl.columns|
  {
    seq(|tbl.columns|, c requires 0 <= c < |tbl.columns| =>
      if tbl.columns[c].name in f then DecodeValue(f[tbl.columns[c].name], tbl.columns[c].aff) else Null)
  }

  function CurRow(s: Store, tbl: Table, pk: bytes): (r: Row)
    ensures |r| == |tbl.columns|
  {
    FieldRow(tbl, FieldsAt(s, RowKey(tbl.tid, pk)))
  }

  /** The fields are columns of the table with values of their types: a whole row, or what a refused statement left of one. */
  ghost predicate TidyFields(f: Fields, tbl: Table)
  {
    RowIs(f, tbl, FieldRow(tbl, f)) && RowFits(tbl, FieldRow(tbl, f))
  }

  ghost predicate Tidy(s: Store, tbl: Table)
  {
    forall pk :: TidyFields(FieldsAt(s, RowKey(tbl.tid, pk)), tbl)
  }

  lemma FieldRowIs(f: Fields, tbl: Table, row: Row)
    requires RowIs(f, tbl, row) && RowFits(tbl, row)
    ensures FieldRow(tbl, f) == row && TidyFields(f, tbl)
  {
    forall c | 0 <= c < |row| && row[c] != Null ensures FieldRow(tbl, f)[c] == row[c] {
      StoredRoundTrip(row[c], tbl.columns[c].aff);
    }
    assert FieldRow(tbl, f) == row;
  }

  lemma AllNullFits(tbl: Table)
    ensures RowFits(tbl, AllNull(tbl)) && RowIs(map[], tbl, AllNull(tbl))
  {
    RowIsAllNull(map[], tbl);
  }

  lemma StoreIsTidy(s: Store, tbl: Table, rows: Rows)
    requires ValidTable(tbl) && RowsFit(tbl, rows) && RowsAre(s, tbl, rows)
    ensures Tidy(s, tbl)
    ensures forall pk :: CurRow(s, tbl, pk) == if pk in rows then rows[pk] else AllNull(tbl)
  {
    forall pk
      ensures TidyFields(FieldsAt(s, RowKey(tbl.tid, pk)), tbl) && CurRow(s, tbl, pk) == if pk in rows then rows[pk] else AllNull(tbl)
    {
      assert RowAt(s, tbl, rows, pk);
      AllNullFits(tbl);
      FieldRowIs(FieldsAt(s, RowKey(tbl.tid, pk)), tbl, if pk in rows then rows[pk] else AllNull(tbl));
    }
  }

  /** Among all row keys just those in `w` were changed, to these rows. */
  ghost predicate RowsBecome(s: Store, s': Store, tbl: Table, w: map<bytes, Row>)
  {
    && (forall q :: q in w ==> RowIs(FieldsAt(s', RowKey(tbl.tid, q)), tbl, w[q]))
    && (forall tid, q :: tid != tbl.tid || q !in w ==> FieldsAt(s', RowKey(tid, q)) == FieldsAt(s, RowKey(tid, q)))
  }

  lemma RowKeysDiffer(tid: ID, p: bytes, tid': ID, q: bytes)
    requires tid != tid' || p != q
    ensures RowKey(tid, p) != RowKey(tid', q)
  {
    assert KeyID(RowKey(tid, p)) == tid && KeyRest(RowKey(tid, p)) == p;
  }

  /** Index entries first, then one row. */
  lemma OneRowBecomes(s: Store, s1: Store, s2: Store, tbl: Table, pk: bytes, row: Row)
    requires SameRows(s, s1) && RowNow(s1, s2, tbl, pk, row)
    ensures RowsBecome(s, s2, tbl, map[pk := row])
  {
    forall tid, q | tid != tbl.tid || q != pk ensures FieldsAt(s2, RowKey(tid, q)) == FieldsAt(s, RowKey(tid, q)) {
      RowKeysDiffer(tid, q, tbl.tid, pk);
    }
  }

  lemma NoRowBecomes(s: Store, s1: Store, tbl: Table, pk: bytes)
    requires SameRows(s, s1) && Tidy(s, tbl)
    ensures RowsBecome(s, s1, tbl, map[pk := CurRow(s, tbl, pk)])
  {
    assert TidyFields(FieldsAt(s, RowKey(tbl.tid, pk)), tbl);
  }

  lemma TwoRowsBecome(s: Store, s1: Store, s2: Store, tbl: Table, p: bytes, r1: Row, q: bytes, r2: Row)
    requires RowsBecome(s, s1, tbl, map[p := r1]) && RowsBecome(s1, s2, tbl, map[q := r2]) && p != q
    ensures RowsBecome(s, s2, tbl, map[p := r1, q := r2])
  {
  }

  lemma TidyAfter(s: Store, s': Store, tbl: Table, w: map<bytes, Row>)
    requires Tidy(s, tbl) && RowsBecome(s, s', tbl, w) && forall q :: q in w ==> RowFits(tbl, w[q])
    ensures Tidy(s', tbl)
    ensures forall q :: CurRow(s', tbl, q) == if q in w then w[q] else CurRow(s, tbl, q)
  {
    forall q
      ensures TidyFields(FieldsAt(s', RowKey(tbl.tid, q)), tbl) && CurRow(s', tbl, q) == if q in w then w[q] else CurRow(s, tbl, q)
    {
      assert TidyFields(FieldsAt(s, RowKey(tbl.tid, q)), tbl);
      if q in w {
        FieldRowIs(FieldsAt(s', RowKey(tbl.tid, q)), tbl, w[q]);
      }
    }
  }

  // ---- Statements ----

  datatype Statement =
    | InsertRow(row: Row)
    | UpdateRow(oldPK: bytes, row: Row)
    | DeleteRow(pk: bytes)

  /** The values have the columns' types, and a key that is named is the key of some tuple. */
  ghost predicate StatementFits(tbl: Table, st: Statement)
    requires ValidTable(tbl)
  {
    && (!st.DeleteRow? ==> RowFits(tbl, st.row))
    && (st.UpdateRow? ==> WellKeyed(tbl, st.oldPK))
    && (st.DeleteRow? ==> WellKeyed(tbl, st.pk))
  }

  /** What a key holds after an insert with this outcome. */
  function Landed(tbl: Table, cur: Row, row: Row, r: Outcome<bytes>): (l: Row)
    requires ValidTable(tbl) && |cur| == |row| == |tbl.columns|
    ensures |l| == |row|
  {
    if r.UniqueViolation? then cur else InsertedRow(tbl, cur, row)
  }

  /** The rows a statement with this outcome leaves under the keys it wrote to. */
  ghost function Written(s: Store, tbl: Table, st: Statement, r: Outcome<bytes>): (w: map<bytes, Row>)
    requires ValidTable(tbl) && StatementFits(tbl, st)
  {
    match st
    case InsertRow(row) => map[KeyOf(tbl, row) := Landed(tbl, CurRow(s, tbl, KeyOf(tbl, row)), row, r)]
    case UpdateRow(oldPK, row) =>
      var pk := KeyOf(tbl, row);
      if pk == oldPK then map[pk := if r.Ok? then Amended(tbl, CurRow(s, tbl, pk), row) else CurRow(s, tbl, pk)]
      else map[oldPK := AllNull(tbl), pk := Landed(tbl, CurRow(s, tbl, pk), row, r)]
    case DeleteRow(pk) => map[pk := AllNull(tbl)]
  }

  /** The keys whose rows it emits effects for. */
  ghost function TouchedBy(tbl: Table, st: Statement, r: Outcome<bytes>): (t: set<bytes>)
    requires ValidTable(tbl) && StatementFits(tbl, st)
  {
    match st
    case InsertRow(row) => LandedOn(tbl, row, r)
    case UpdateRow(oldPK, row) =>
      if KeyOf(tbl, row) == oldPK then (if r.Ok? && HasPlainColumn(tbl) then {oldPK} else {})
      else {oldPK} + LandedOn(tbl, row, r)
    case DeleteRow(pk) => {pk}
  }

  ghost function LandedOn(tbl: Table, row: Row, r: Outcome<bytes>): (t: set<bytes>)
    requires ValidTable(tbl) && RowFits(tbl, row)
  {
    if r.UniqueViolation? || LeadingKey(tbl, row) == 0 then {} else {KeyOf(tbl, row)}
  }

  /** A NULL key is an error only where a row is inserted, and then whenever UNIQUE did not refuse first. */
  ghost predicate OutcomeFits(tbl: Table, st: Statement, r: Outcome<bytes>)
    requires ValidTable(tbl) && StatementFits(tbl, st)
  {
    match st
    case DeleteRow(pk) => r == Ok(pk)
    case _ =>
      var pk := KeyOf(tbl, st.row);
      && (r.Ok? ==> r.value == pk)
      && if st.UpdateRow? && pk == st.oldPK then !r.NullKey?
         else r.UniqueViolation? || (r.NullKey? <==> !PkPresent(tbl, st.row))
  }

  ghost function RowKeys(tid: ID, pks: set<bytes>): set<bytes>
  {
    set q | q in pks :: RowKey(tid, q)
  }

  /** All that a statement does to rows, whatever the store held and however it ended. */
  ghost predicate Ran(s: Store, es: seq<Effect>, s': Store, es': seq<Effect>, tbl: Table, st: Statement, r: Outcome<bytes>)
    requires ValidTable(tbl) && StatementFits(tbl, st)
  {
    && OutcomeFits(tbl, st, r) && Tidy(s', tbl)
    && RowsBecome(s, s', tbl, Written(s, tbl, st, r))
    && RowTouched(es') == RowTouched(es) + RowKeys(tbl.tid, TouchedBy(tbl, st, r))
  }

  lemma RowsStillFit(tbl: Table, cur: Row, row: Row)
    requires ValidTable(tbl) && RowFits(tbl, cur) && RowFits(tbl, row)
    ensures RowFits(tbl, InsertedRow(tbl, cur, row)) && RowFits(tbl, Amended(tbl, cur, row))
  {
  }

  lemma RowKeysOne(tid: ID, pk: bytes)
    ensures RowKeys(tid, {pk}) == {RowKey(tid, pk)} && RowKeys(tid, {}) == {}
  {
  }

  /** Row and index layout after the row at `pk` was put and the indexes moved to the new contents. */
  lemma StoreAfterPut(s: Store, s1: Store, s2: Store, tbl: Table, rows: Rows, pk: bytes, row: Row)
    requires ValidTable(tbl) && RowsFit(tbl, rows) && RowsAre(s, tbl, rows) && UniqueHolds(tbl, rows)
    requires RowFits(tbl, row) && PkPresent(tbl, row) && PkOf(tbl, row) == pk && !Conflict(tbl, rows, pk, row)
    requires SameRows(s, s1) && RowsFit(tbl, rows[pk := row]) && IndexesAre(s1, tbl, rows[pk := row])
    requires RowNow(s1, s2, tbl, pk, row)
    ensures StoreIs(s2, tbl, rows[pk := row])
  {
    UniqueAfterPut(tbl, rows, pk, row);
    var after := rows[pk := row];
    forall q
      ensures RowAt(s2, tbl, after, q)
    {
      assert RowAt(s, tbl, rows, q);
      if q != pk {
        assert RowKey(tbl.tid, q) != RowKey(tbl.tid, pk) by {
          assert KeyRest(RowKey(tbl.tid, q)) != KeyRest(RowKey(tbl.tid, pk));
        }
      }
    }
    IndexesOutsideRow(s1, s2, tbl, after, pk);
  }

  lemma IndexesOutsideRow(s: Store, s': Store, tbl: Table, rows: Rows, pk: bytes)
    requires ValidTable(tbl) && RowsFit(tbl, rows) && IndexesAre(s, tbl, rows)
    requires OnlyRow(s, s', tbl.tid, pk)
    ensures IndexesAre(s', tbl, rows)
  {
    forall j | 0 <= j < |tbl.indexes|
      ensures IndexIs(s', tbl, rows, tbl.indexes[j])
    {
      assert IndexIs(s, tbl, rows, tbl.indexes[j]);
    }
  }

  lemma StoreAfterDrop(s: Store, s1: Store, s2: Store, tbl: Table, rows: Rows, pk: bytes)
    requires StoreIs(s, tbl, rows)
    requires SameRows(s, s1) && RowsFit(tbl, rows - {pk}) && IndexesAre(s1, tbl, rows - {pk})
    requires RowNow(s1, s2, tbl, pk, AllNull(tbl))
    ensures StoreIs(s2, tbl, rows - {pk})
  {
    var after := rows - {pk};
    RowIsAllNull(FieldsAt(s2, RowKey(tbl.tid, pk)), tbl);
    forall q
      ensures RowAt(s2, tbl, after, q)
    {
      assert RowAt(s, tbl, rows, q);
      if q != pk {
        assert KeyRest(RowKey(tbl.tid, q)) != KeyRest(RowKey(tbl.tid, pk));
      }
    }
    IndexesOutsideRow(s1, s2, tbl, after, pk);
  }

  /** A caller either knows that the store holds exactly `rows`, or passes no rows. */
  ghost predicate Known(s: Store, tbl: Table, rows: Rows, known: bool)
  {
    ValidTable(tbl) && RowsFit(tbl, rows) && (known ==> StoreIs(s, tbl, rows))
  }

  lemma KnownIndexes(s: Store, tbl: Table, rows: Rows, known: bool)
    requires Known(s, tbl, rows, known) || StoreIs(s, tbl, rows)
    ensures ValidTable(tbl) && RowsFit(tbl, rows)
    ensures known ==> StoreIs(s, tbl, rows) && RowsAre(s, tbl, rows) && IndexesAre(s, tbl, rows) && UniqueHolds(tbl, rows)
  {
  }

  lemma TidyAt(s: Store, tbl: Table, pk: bytes)
    requires Tidy(s, tbl)
    ensures RowIs(FieldsAt(s, RowKey(tbl.tid, pk)), tbl, CurRow(s, tbl, pk)) && RowFits(tbl, CurRow(s, tbl, pk))
  {
    assert TidyFields(FieldsAt(s, RowKey(tbl.tid, pk)), tbl);
  }

  lemma SameCurRow(s: Store, s': Store, tbl: Table, pk: bytes)
    requires SameRows(s, s')
    ensures FieldsAt(s', RowKey(tbl.tid, pk)) == FieldsAt(s, RowKey(tbl.tid, pk)) && CurRow(s', tbl, pk) == CurRow(s, tbl, pk)
  {
  }

  /** The row part of an insert, whatever was there. */
  lemma InsertRan(s: Store, es: seq<Effect>, s1: Store, es1: seq<Effect>, s2: Store, es2: seq<Effect>, tbl: Table,
                  row: Row, r: Outcome<bytes>)
    requires ValidTable(tbl) && RowFits(tbl, row) && Tidy(s, tbl) && IndexOnly(s, es, s1, es1)
    requires var pk := KeyOf(tbl, row);
             && (r.Ok? ==> r.value == pk) && (r.UniqueViolation? || (r.NullKey? <==> !PkPresent(tbl, row)))
             && if r.UniqueViolation? then s2 == s1 && es2 == es1
                else RowNow(s1, s2, tbl, pk, InsertedRow(tbl, CurRow(s, tbl, pk), row))
                     && RowTouched(es2) == RowTouched(es1) + if LeadingKey(tbl, row) > 0 then {RowKey(tbl.tid, pk)} else {}
    ensures Ran(s, es, s2, es2, tbl, InsertRow(row), r)
  {
    hide RowNow, RowsBecome, Tidy, SameRows, InsertedRow, RowTouched, CurRow, KeyOf, RowFits, PkPresent, LeadingKey, RowKeys;
    var pk, st := KeyOf(tbl, row), InsertRow(row);
    var cur := CurRow(s, tbl, pk);
    TidyAt(s, tbl, pk);
    RowsStillFit(tbl, cur, row);
    RowKeysOne(tbl.tid, pk);
    if r.UniqueViolation? {
      NoRowBecomes(s, s2, tbl, pk);
    } else {
      OneRowBecomes(s, s1, s2, tbl, pk, InsertedRow(tbl, cur, row));
    }
    TidyAfter(s, s2, tbl, Written(s, tbl, st, r));
  }

  /**
    The body of `doInsert`: index entries, then the key columns one by one, then the others.
    `Ran` holds in any store. In a store known to hold `rows`, UNIQUE refuses exactly the conflicts, first of all;
    a row under a fresh key is then added, or refused after it has reached the indexes before `n`.
  */
  method InsertBody(ctx: Context, tbl: Table, row: Row, ghost rows: Rows, ghost known: bool) returns (r: Outcome<bytes>, ghost n: nat)
    requires Known(ctx.View(), tbl, rows, known) && RowFits(tbl, row) && Tidy(ctx.View(), tbl)
    modifies ctx
    ensures Ran(old(ctx.View()), old(ctx.pending), ctx.View(), ctx.pending, tbl, InsertRow(row), r)
    ensures known ==> (r.UniqueViolation? <==> Conflict(tbl, rows, KeyOf(tbl, row), row))
    ensures known && r.Ok? && r.value !in rows ==> StoreIs(ctx.View(), tbl, rows[r.value := row])
    ensures known && r.Ok? && r.value in rows ==>
              (StoreIs(ctx.View(), tbl, rows[r.value := Merged(tbl, rows, r.value, row)]) <==> KeepsEntries(tbl, rows[r.value], row))
    ensures FitRows(tbl, rows) && FitRows(tbl, rows[KeyOf(tbl, row) := row]) && (r.UniqueViolation? <==> n < |tbl.indexes|)
    ensures known && KeyOf(tbl, row) !in rows ==> IndexesMoved(ctx.View(), tbl, rows, rows[KeyOf(tbl, row) := row], n)
  {
    hide *;
    ghost var s, es := ctx.View(), ctx.pending;
    KnownIndexes(s, tbl, rows, known);
    var pk := KeyOf(tbl, row);
    ghost var cur := CurRow(s, tbl, pk);
    var ok;
    ok, n := EmitIndexInserts(ctx, tbl, pk, row, rows, known);
    ghost var s1, es1 := ctx.View(), ctx.pending;
    IndexOnlyRows(s, es, s1, es1);
    if !ok {
      InsertRan(s, es, s1, es1, s1, es1, tbl, row, UniqueViolation);
      return UniqueViolation, n;
    }
    SameCurRow(s, s1, tbl, pk);
    TidyAt(s, tbl, pk);
    RowLength(tbl, row);
    ok := EmitRowInsert(ctx, tbl, pk, row, cur);
    r := if ok then Ok(pk) else NullKey;
    InsertRan(s, es, s1, es1, ctx.View(), ctx.pending, tbl, row, r);
    if known && pk !in rows {
      MovedOutsideRow(s1, ctx.View(), tbl, rows, rows[pk := row], pk, n, InsertedRow(tbl, cur, row));
      if ok {
        InsertedStore(s, s1, ctx.View(), tbl, rows, row);
      }
    } else if known && ok {
      InsertedOver(s, s1, ctx.View(), tbl, rows, row);
    }
  }

  // ---- INSERT under a key that is live ----

  /** No refusal and no replacement: the columns that are not NULL are written over the row that is there. */
  function Merged(tbl: Table, rows: Rows, pk: bytes, row: Row): (r: Row)
    requires RowFits(tbl, row) && (pk in rows ==> RowFits(tbl, rows[pk]))
  {
    if pk in rows then Overlaid(rows[pk], row) else row
  }

  /** A whole new tuple goes where there was none or the same; without one, the merged row keeps the tuple it had. */
  ghost predicate EntryKept(tbl: Table, idx: Index, cur: Row, row: Row)
    requires ValidIndex(tbl, idx) && RowFits(tbl, cur) && RowFits(tbl, row)
  {
    OverlaidFits(tbl, cur, row);
    var was, new', merged := IndexEntry(tbl, idx, cur), IndexEntry(tbl, idx, row), IndexEntry(tbl, idx, Overlaid(cur, row));
    if new'.Some? then was.None? || was == new' else merged == was
  }

  ghost predicate KeepsEntries(tbl: Table, cur: Row, row: Row)
    requires ValidTable(tbl) && RowFits(tbl, cur) && RowFits(tbl, row)
  {
    forall j :: 0 <= j < |tbl.indexes| ==> EntryKept(tbl, tbl.indexes[j], cur, row)
  }

  lemma OverlaidFits(tbl: Table, cur: Row, row: Row)
    requires RowFits(tbl, cur) && RowFits(tbl, row)
    ensures |cur| == |row| && RowFits(tbl, Overlaid(cur, row))
  {
  }

  lemma OverlaidKey(tbl: Table, cur: Row, row: Row)
    requires ValidTable(tbl) && RowFits(tbl, cur) && RowFits(tbl, row) && PkPresent(tbl, row)
    ensures |cur| == |row| && RowFits(tbl, Overlaid(cur, row)) && PkPresent(tbl, Overlaid(cur, row))
    ensures PkOf(tbl, Overlaid(cur, row)) == PkOf(tbl, row)
  {
    assert PkValues(tbl, Overlaid(cur, row)) == PkValues(tbl, row);
  }

  lemma WholeTupleWins(tbl: Table, idx: Index, cur: Row, row: Row)
    requires ValidIndex(tbl, idx) && RowFits(tbl, cur) && RowFits(tbl, row) && IndexEntry(tbl, idx, row).Some?
    ensures |cur| == |row| && RowFits(tbl, Overlaid(cur, row)) && IndexEntry(tbl, idx, Overlaid(cur, row)) == IndexEntry(tbl, idx, row)
  {
    OverlaidFits(tbl, cur, row);
    assert IndexValues(tbl, idx, Overlaid(cur, row)) == IndexValues(tbl, idx, row);
  }

  /** After the entry was added, the index lists the merged row rightly exactly when its entry is kept. */
  lemma OverIndex(s: Store, s': Store, tbl: Table, rows: Rows, after: Rows, idx: Index, pk: bytes, row: Row)
    requires ValidIndex(tbl, idx) && FitRows(tbl, rows) && FitRows(tbl, after) && RowFits(tbl, row) && pk in rows && pk in after
    requires RowFits(tbl, rows[pk]) && |rows[pk]| == |row| && after[pk] == Overlaid(rows[pk], row) && after == rows[pk := after[pk]]
    requires IndexIs(s, tbl, rows, idx) && EntryAdded(s, s', tbl, idx, pk, row)
    ensures IndexIs(s', tbl, after, idx) <==> EntryKept(tbl, idx, rows[pk], row)
  {
    var was, new', now := IndexEntry(tbl, idx, rows[pk]), IndexEntry(tbl, idx, row), IndexEntry(tbl, idx, after[pk]);
    if new'.Some? {
      WholeTupleWins(tbl, idx, rows[pk], row);
    }
    hide IndexEntry, RowFits, Overlaid;
    forall encoded
      ensures FieldsAt(s', IndexKey(idx.iid, encoded)).Keys == Entries(tbl, rows, idx, encoded) + if new' == Some(encoded) then {pk} else {}
    {
    }
    if IndexIs(s', tbl, after, idx) {
      ListedOnce(s', tbl, rows, after, idx, pk, was, new', now);
    }
    if EntryKept(tbl, idx, rows[pk], row) {
      hide IndexIs, EntryAdded;
      forall encoded ensures FieldsAt(s', IndexKey(idx.iid, encoded)).Keys == Entries(tbl, after, idx, encoded) {
        EntriesAfterPut(tbl, rows, after, idx, pk, encoded);
      }
      IndexIsFrom(s', tbl, after, idx);
    }
  }

  lemma IndexIsFrom(s: Store, tbl: Table, rows: Rows, idx: Index)
    requires ValidIndex(tbl, idx) && FitRows(tbl, rows)
    requires forall encoded :: FieldsAt(s, IndexKey(idx.iid, encoded)).Keys == Entries(tbl, rows, idx, encoded)
    ensures IndexIs(s, tbl, rows, idx)
  {
  }

  lemma EntriesAfterPut(tbl: Table, rows: Rows, after: Rows, idx: Index, pk: bytes, encoded: bytes)
    requires ValidIndex(tbl, idx) && FitRows(tbl, rows) && FitRows(tbl, after) && pk in after && after == rows[pk := after[pk]]
    ensures Entries(tbl, after, idx, encoded)
         == Entries(tbl, rows, idx, encoded) - {pk} + if IndexEntry(tbl, idx, after[pk]) == Some(encoded) then {pk} else {}
  {
    hide IndexEntry, RowFits;
    assert forall q :: q != pk ==> (q in rows <==> q in after) && (q in rows ==> after[q] == rows[q]);
  }

  lemma ListedOnce(s: Store, tbl: Table, rows: Rows, after: Rows, idx: Index, pk: bytes, was: Option<bytes>,
                   new': Option<bytes>, now: Option<bytes>)
    requires ValidIndex(tbl, idx) && FitRows(tbl, rows) && FitRows(tbl, after) && pk in rows && pk in after
    requires was == IndexEntry(tbl, idx, rows[pk]) && now == IndexEntry(tbl, idx, after[pk]) && IndexIs(s, tbl, after, idx)
    requires forall encoded :: FieldsAt(s, IndexKey(idx.iid, encoded)).Keys
                            == Entries(tbl, rows, idx, encoded) + if new' == Some(encoded) then {pk} else {}
    ensures if new'.Some? then was.None? || was == new' else now == was
  {
    hide IndexEntry, RowFits;
    if was.Some? {
      assert pk in FieldsAt(s, IndexKey(idx.iid, was.value)).Keys;
    }
    if new'.Some? {
      assert pk in FieldsAt(s, IndexKey(idx.iid, new'.value)).Keys;
    }
    if now.Some? {
      assert pk in FieldsAt(s, IndexKey(idx.iid, now.value)).Keys;
    }
  }

  lemma MergedNoConflict(tbl: Table, rows: Rows, pk: bytes, row: Row, merged: Row)
    requires ValidTable(tbl) && RowsFit(tbl, rows) && UniqueHolds(tbl, rows) && pk in rows && RowFits(tbl, row)
    requires |rows[pk]| == |row| && merged == Overlaid(rows[pk], row) && RowFits(tbl, merged) && RowFits(tbl, rows[pk])
    requires KeepsEntries(tbl, rows[pk], row) && !Conflict(tbl, rows, pk, row)
    ensures !Conflict(tbl, rows, pk, merged)
  {
    forall j, q | 0 <= j < |tbl.indexes| && tbl.indexes[j].unique && q in rows && q != pk && IndexEntry(tbl, tbl.indexes[j], merged).Some?
      ensures IndexEntry(tbl, tbl.indexes[j], rows[q]) != IndexEntry(tbl, tbl.indexes[j], merged)
    {
      assert EntryKept(tbl, tbl.indexes[j], rows[pk], row);
      if IndexEntry(tbl, tbl.indexes[j], row).Some? {
        WholeTupleWins(tbl, tbl.indexes[j], rows[pk], row);
      }
      hide IndexEntry, ValidTable, RowFits, Overlaid;
    }
  }

  lemma IndexesBackOutsideRow(s: Store, s': Store, tbl: Table, rows: Rows, pk: bytes)
    requires ValidTable(tbl) && RowsFit(tbl, rows) && OnlyRow(s, s', tbl.tid, pk)
    ensures IndexesAre(s, tbl, rows) <==> IndexesAre(s', tbl, rows)
  {
    if IndexesAre(s, tbl, rows) {
      IndexesOutsideRow(s, s', tbl, rows, pk);
    }
    if IndexesAre(s', tbl, rows) {
      IndexesOutsideRow(s', s, tbl, rows, pk);
    }
  }

  /** The store is left consistent exactly when every index's entry is kept. */
  lemma InsertedOver(s: Store, s1: Store, s2: Store, tbl: Table, rows: Rows, row: Row)
    requires StoreIs(s, tbl, rows) && RowFits(tbl, row) && PkPresent(tbl, row) && KeyOf(tbl, row) in rows
    requires !Conflict(tbl, rows, KeyOf(tbl, row), row) && SameRows(s, s1)
    requires EntriesAdded(s, s1, tbl, KeyOf(tbl, row), row, |tbl.indexes|)
    requires |row| == |tbl.columns| && RowNow(s1, s2, tbl, KeyOf(tbl, row), InsertedRow(tbl, CurRow(s, tbl, KeyOf(tbl, row)), row))
    ensures RowFits(tbl, rows[KeyOf(tbl, row)])
    ensures StoreIs(s2, tbl, rows[KeyOf(tbl, row) := Merged(tbl, rows, KeyOf(tbl, row), row)])
       <==> KeepsEntries(tbl, rows[KeyOf(tbl, row)], row)
  {
    hide *;
    KnownIndexes(s, tbl, rows, true);
    var pk := KeyOf(tbl, row);
    RowsFitAt(tbl, rows, pk);
    KeyOfPresent(tbl, row);
    OverlaidKey(tbl, rows[pk], row);
    var merged := Overlaid(rows[pk], row);
    MergedIs(s, tbl, rows, row, merged);
    RowsFitPut(tbl, rows, pk, merged);
    FitsAll(tbl, rows, pk, merged);
    OverIndexes(s, s1, tbl, rows, pk, row, merged);
    NowOnly(s1, s2, tbl, pk, merged);
    IndexesBackOutsideRow(s1, s2, tbl, rows[pk := merged], pk);
    if KeepsEntries(tbl, rows[pk], row) {
      MergedNoConflict(tbl, rows, pk, row, merged);
      StoreAfterPut(s, s1, s2, tbl, rows, pk, merged);
    }
    if StoreIs(s2, tbl, rows[pk := merged]) {
      KnownIndexes(s2, tbl, rows[pk := merged], true);
    }
  }

  lemma NowOnly(s: Store, s': Store, tbl: Table, pk: bytes, row: Row)
    requires RowNow(s, s', tbl, pk, row)
    ensures OnlyRow(s, s', tbl.tid, pk)
  {
  }

  lemma MergedIs(s: Store, tbl: Table, rows: Rows, row: Row, merged: Row)
    requires ValidTable(tbl) && RowsFit(tbl, rows) && RowsAre(s, tbl, rows) && RowFits(tbl, row) && PkPresent(tbl, row)
    requires KeyOf(tbl, row) in rows && RowFits(tbl, rows[KeyOf(tbl, row)])
    requires |rows[KeyOf(tbl, row)]| == |row| && merged == Overlaid(rows[KeyOf(tbl, row)], row)
    ensures Merged(tbl, rows, KeyOf(tbl, row), row) == merged
    ensures |row| == |tbl.columns| && InsertedRow(tbl, CurRow(s, tbl, KeyOf(tbl, row)), row) == merged
  {
    StoreIsTidy(s, tbl, rows);
  }

  lemma OverIndexes(s: Store, s': Store, tbl: Table, rows: Rows, pk: bytes, row: Row, merged: Row)
    requires ValidTable(tbl) && RowsFit(tbl, rows) && IndexesAre(s, tbl, rows) && RowFits(tbl, row) && pk in rows
    requires RowFits(tbl, rows[pk])
    requires RowFits(tbl, merged) && |rows[pk]| == |row| && merged == Overlaid(rows[pk], row)
    requires FitRows(tbl, rows) && FitRows(tbl, rows[pk := merged]) && RowsFit(tbl, rows[pk := merged])
    requires EntriesAdded(s, s', tbl, pk, row, |tbl.indexes|)
    ensures IndexesAre(s', tbl, rows[pk := merged]) <==> KeepsEntries(tbl, rows[pk], row)
  {
    var after := rows[pk := merged];
    hide IndexIs, EntryKept, EntryAdded, RowsFit, RowFits, Overlaid, FindColumn;
    forall j | 0 <= j < |tbl.indexes|
      ensures IndexIs(s', tbl, after, tbl.indexes[j]) <==> EntryKept(tbl, tbl.indexes[j], rows[pk], row)
    {
      OverIndex(s, s', tbl, rows, after, tbl.indexes[j], pk, row);
    }
  }

  lemma RowLength(tbl: Table, row: Row)
    requires RowFits(tbl, row)
    ensures |row| == |tbl.columns|
  {
  }

  lemma IndexOnlyRows(s: Store, es: seq<Effect>, s': Store, es': seq<Effect>)
    requires IndexOnly(s, es, s', es')
    ensures SameRows(s, s') && RowTouched(es') == RowTouched(es)
  {
  }

  lemma MovedOutsideRow(s: Store, s': Store, tbl: Table, before: Rows, after: Rows, pk: bytes, n: nat, row: Row)
    requires ValidTable(tbl) && FitRows(tbl, before) && FitRows(tbl, after)
    requires IndexesMoved(s, tbl, before, after, n) && RowNow(s, s', tbl, pk, row)
    ensures IndexesMoved(s', tbl, before, after, n)
  {
    forall j | 0 <= j < |tbl.indexes|
      ensures IndexIs(s', tbl, if j < n then after else before, tbl.indexes[j])
    {
      assert IndexIs(s, tbl, if j < n then after else before, tbl.indexes[j]);
    }
  }

  lemma InsertedStore(s: Store, s1: Store, s2: Store, tbl: Table, rows: Rows, row: Row)
    requires StoreIs(s, tbl, rows) && RowFits(tbl, row) && PkPresent(tbl, row) && KeyOf(tbl, row) !in rows
    requires !Conflict(tbl, rows, KeyOf(tbl, row), row) && SameRows(s, s1)
    requires FitRows(tbl, rows) && FitRows(tbl, rows[KeyOf(tbl, row) := row])
    requires IndexesMoved(s1, tbl, rows, rows[KeyOf(tbl, row) := row], |tbl.indexes|)
    requires |row| == |tbl.columns| && RowNow(s1, s2, tbl, KeyOf(tbl, row), InsertedRow(tbl, CurRow(s, tbl, KeyOf(tbl, row)), row))
    ensures StoreIs(s2, tbl, rows[KeyOf(tbl, row) := row])
  {
    hide *;
    KnownIndexes(s, tbl, rows, true);
    var pk := KeyOf(tbl, row);
    KeyOfPresent(tbl, row);
    FreshRow(s, tbl, rows, row);
    RowsFitPut(tbl, rows, pk, row);
    IndexesMovedEnds(s1, tbl, rows, rows[pk := row]);
    StoreAfterPut(s, s1, s2, tbl, rows, pk, row);
  }

  lemma FreshRow(s: Store, tbl: Table, rows: Rows, row: Row)
    requires ValidTable(tbl) && RowsFit(tbl, rows) && RowsAre(s, tbl, rows) && RowFits(tbl, row)
    requires PkPresent(tbl, row) && KeyOf(tbl, row) !in rows
    ensures |row| == |tbl.columns| && InsertedRow(tbl, CurRow(s, tbl, KeyOf(tbl, row)), row) == row
  {
    hide *;
    StoreIsTidy(s, tbl, rows);
    OverNothing(tbl, row);
  }

  lemma OverNothing(tbl: Table, row: Row)
    requires ValidTable(tbl) && RowFits(tbl, row)
    ensures |row| == |tbl.columns| && (PkPresent(tbl, row) ==> InsertedRow(tbl, AllNull(tbl), row) == row)
  {
    assert Overlaid(AllNull(tbl), row) == row;
  }

  lemma SameKeySameColumns(tbl: Table, r1: Row, r2: Row)
    requires ValidTable(tbl) && RowFits(tbl, r1) && PkPresent(tbl, r1) && RowFits(tbl, r2) && PkPresent(tbl, r2)
    requires PkOf(tbl, r1) == PkOf(tbl, r2)
    ensures forall i :: 0 <= i < |tbl.pkCols| ==> r1[tbl.pkCols[i]] == r2[tbl.pkCols[i]]
    ensures |r1| == |r2| && Amended(tbl, r1, r2) == r2
  {
    KeyInjective(PkValues(tbl, r1), PkValues(tbl, r2), PkAffinities(tbl));
    forall i | 0 <= i < |tbl.pkCols|
      ensures r1[tbl.pkCols[i]] == r2[tbl.pkCols[i]]
    {
      assert PkValues(tbl, r1)[i] == PkValues(tbl, r2)[i];
    }
    assert Amended(tbl, r1, r2) == r2;
  }

  lemma UpdateRan(s: Store, es: seq<Effect>, s1: Store, es1: seq<Effect>, s2: Store, es2: seq<Effect>, tbl: Table,
                  pk: bytes, row: Row, ok: bool)
    requires ValidTable(tbl) && RowFits(tbl, row) && Tidy(s, tbl) && IndexOnly(s, es, s1, es1)
    requires KeyOf(tbl, row) == pk && WellKeyed(tbl, pk)
    requires |row| == |tbl.columns|
    requires if !ok then s2 == s1 && es2 == es1
             else RowNow(s1, s2, tbl, pk, Amended(tbl, CurRow(s, tbl, pk), row))
                  && RowTouched(es2) == RowTouched(es1) + if HasPlainColumn(tbl) then {RowKey(tbl.tid, pk)} else {}
    ensures Ran(s, es, s2, es2, tbl, UpdateRow(pk, row), if ok then Ok(pk) else UniqueViolation)
  {
    hide RowNow, RowsBecome, Tidy, SameRows, Amended, RowTouched, CurRow, KeyOf, RowFits, PkPresent, RowKeys, HasPlainColumn;
    var st, r := UpdateRow(pk, row), if ok then Ok(pk) else UniqueViolation;
    var cur := CurRow(s, tbl, pk);
    TidyAt(s, tbl, pk);
    RowsStillFit(tbl, cur, row);
    RowKeysOne(tbl.tid, pk);
    if !ok {
      NoRowBecomes(s, s2, tbl, pk);
    } else {
      OneRowBecomes(s, s1, s2, tbl, pk, Amended(tbl, cur, row));
    }
    TidyAfter(s, s2, tbl, Written(s, tbl, st, r));
  }

  /** The same-key branch of `doUpdate`: refused exactly on a conflict, before any field is written. */
  method UpdateBody(ctx: Context, tbl: Table, pk: bytes, row: Row, ghost rows: Rows, ghost known: bool) returns (r: Outcome<bytes>)
    requires Known(ctx.View(), tbl, rows, known) && Tidy(ctx.View(), tbl)
    requires RowFits(tbl, row) && KeyOf(tbl, row) == pk && WellKeyed(tbl, pk)
    modifies ctx
    ensures Ran(old(ctx.View()), old(ctx.pending), ctx.View(), ctx.pending, tbl, UpdateRow(pk, row), r)
    ensures known && pk in rows ==> (r.UniqueViolation? <==> Conflict(tbl, rows, pk, row))
    ensures known && pk in rows && r.Ok? ==>
              |rows[pk]| == |row| && RowFits(tbl, Amended(tbl, rows[pk], row))
              && (StoreIs(ctx.View(), tbl, rows[pk := Amended(tbl, rows[pk], row)]) <==> SameEntries(tbl, row, Amended(tbl, rows[pk], row)))
  {
    hide *;
    ghost var s, es := ctx.View(), ctx.pending;
    KnownIndexes(s, tbl, rows, known);
    RowLength(tbl, row);
    TidyAt(s, tbl, pk);
    ghost var cur := CurRow(s, tbl, pk);
    if known {
      StoreIsTidy(s, tbl, rows);
    }
    var oldSnap := ctx.GetSnapshot(RowKey(tbl.tid, pk));
    var ok := EmitIndexDeltas(ctx, tbl, pk, oldSnap, row, cur, rows, known && pk in rows);
    ghost var s1, es1 := ctx.View(), ctx.pending;
    IndexOnlyRows(s, es, s1, es1);
    if !ok {
      UpdateRan(s, es, s1, es1, s1, es1, tbl, pk, row, false);
      return UniqueViolation;
    }
    SameCurRow(s, s1, tbl, pk);
    EmitSamePKUpdate(ctx, tbl, pk, row, cur);
    UpdateRan(s, es, s1, es1, ctx.View(), ctx.pending, tbl, pk, row, true);
    if known && pk in rows {
      AmendedFits(tbl, rows, pk, row);
      UpdatedStore(s, s1, ctx.View(), tbl, rows, pk, row, Amended(tbl, rows[pk], row));
    }
    return Ok(pk);
  }

  /** The two rows have the same entries, index by index. */
  ghost predicate SameEntries(tbl: Table, a: Row, b: Row)
    requires ValidTable(tbl) && RowFits(tbl, a) && RowFits(tbl, b)
  {
    forall j :: 0 <= j < |tbl.indexes| ==> IndexEntry(tbl, tbl.indexes[j], a) == IndexEntry(tbl, tbl.indexes[j], b)
  }

  /** An update keeps the key columns: they can differ only where the update asks for NULL and the key has zero or ''. */
  lemma AmendedFits(tbl: Table, rows: Rows, pk: bytes, row: Row)
    requires ValidTable(tbl) && RowsFit(tbl, rows) && pk in rows && RowFits(tbl, row)
    ensures |rows[pk]| == |row| && RowFits(tbl, Amended(tbl, rows[pk], row))
    ensures PkPresent(tbl, Amended(tbl, rows[pk], row)) && PkOf(tbl, Amended(tbl, rows[pk], row)) == pk
    ensures PkPresent(tbl, row) && KeyOf(tbl, row) == pk ==> Amended(tbl, rows[pk], row) == row
  {
    RowsFitAt(tbl, rows, pk);
    var amended := Amended(tbl, rows[pk], row);
    assert PkValues(tbl, amended) == PkValues(tbl, rows[pk]);
    if PkPresent(tbl, row) && KeyOf(tbl, row) == pk {
      KeyOfPresent(tbl, row);
      SameKeySameColumns(tbl, rows[pk], row);
    }
  }

  lemma WholeKeyAmends(tbl: Table, rows: Rows, pk: bytes, row: Row)
    requires ValidTable(tbl) && RowsFit(tbl, rows) && pk in rows && RowFits(tbl, row) && KeyOf(tbl, row) == pk
    ensures |rows[pk]| == |row| && SameEntries(tbl, row, row) && (PkPresent(tbl, row) ==> Amended(tbl, rows[pk], row) == row)
  {
    AmendedFits(tbl, rows, pk, row);
  }

  /** An index that lists one row for a key lists another rightly exactly when their entries are the same. */
  lemma ListsEither(s: Store, tbl: Table, rows: Rows, idx: Index, pk: bytes, a: Row, b: Row)
    requires ValidIndex(tbl, idx) && FitRows(tbl, rows) && RowFits(tbl, a) && RowFits(tbl, b)
    requires FitRows(tbl, rows[pk := a]) && FitRows(tbl, rows[pk := b]) && IndexIs(s, tbl, rows[pk := a], idx)
    ensures IndexIs(s, tbl, rows[pk := b], idx) <==> IndexEntry(tbl, idx, a) == IndexEntry(tbl, idx, b)
  {
    var ra, rb := rows[pk := a], rows[pk := b];
    var ea, eb := IndexEntry(tbl, idx, a), IndexEntry(tbl, idx, b);
    hide *;
    if ea == eb {
      forall encoded ensures FieldsAt(s, IndexKey(idx.iid, encoded)).Keys == Entries(tbl, rb, idx, encoded) {
        IndexAt(s, tbl, ra, idx, pk, encoded);
        EntriesAfterPut(tbl, ra, rb, idx, pk, encoded);
        EntriesAt(tbl, ra, idx, pk, encoded);
      }
      IndexIsFrom(s, tbl, rb, idx);
    }
    if IndexIs(s, tbl, rb, idx) {
      if ea.Some? {
        IndexAt(s, tbl, ra, idx, pk, ea.value);
        IndexAt(s, tbl, rb, idx, pk, ea.value);
      }
      if eb.Some? {
        IndexAt(s, tbl, ra, idx, pk, eb.value);
        IndexAt(s, tbl, rb, idx, pk, eb.value);
      }
    }
  }

  lemma EntriesAt(tbl: Table, rows: Rows, idx: Index, pk: bytes, encoded: bytes)
    requires ValidIndex(tbl, idx) && FitRows(tbl, rows) && pk in rows && RowFits(tbl, rows[pk])
    ensures pk in Entries(tbl, rows, idx, encoded) <==> IndexEntry(tbl, idx, rows[pk]) == Some(encoded)
  {
  }

  lemma IndexAt(s: Store, tbl: Table, rows: Rows, idx: Index, pk: bytes, encoded: bytes)
    requires ValidIndex(tbl, idx) && FitRows(tbl, rows) && pk in rows && RowFits(tbl, rows[pk]) && IndexIs(s, tbl, rows, idx)
    ensures FieldsAt(s, IndexKey(idx.iid, encoded)).Keys == Entries(tbl, rows, idx, encoded)
    ensures pk in FieldsAt(s, IndexKey(idx.iid, encoded)).Keys <==> IndexEntry(tbl, idx, rows[pk]) == Some(encoded)
  {
    EntriesAt(tbl, rows, idx, pk, encoded);
  }

  lemma ListEither(s: Store, tbl: Table, rows: Rows, pk: bytes, a: Row, b: Row)
    requires ValidTable(tbl) && RowsFit(tbl, rows) && RowFits(tbl, a) && RowFits(tbl, b) && RowsFit(tbl, rows[pk := b])
    requires FitRows(tbl, rows) && FitRows(tbl, rows[pk := a]) && FitRows(tbl, rows[pk := b])
    requires IndexesMoved(s, tbl, rows, rows[pk := a], |tbl.indexes|)
    ensures IndexesAre(s, tbl, rows[pk := b]) <==> SameEntries(tbl, a, b)
  {
    hide IndexIs, RowFits, RowsFit, FindColumn, IndexEntry;
    forall j | 0 <= j < |tbl.indexes|
      ensures IndexIs(s, tbl, rows[pk := b], tbl.indexes[j]) <==> IndexEntry(tbl, tbl.indexes[j], a) == IndexEntry(tbl, tbl.indexes[j], b)
    {
      assert IndexIs(s, tbl, rows[pk := a], tbl.indexes[j]);
      ListsEither(s, tbl, rows, tbl.indexes[j], pk, a, b);
    }
  }

  lemma SameEntriesNoConflict(tbl: Table, rows: Rows, pk: bytes, a: Row, b: Row)
    requires ValidTable(tbl) && RowsFit(tbl, rows) && RowFits(tbl, a) && RowFits(tbl, b) && SameEntries(tbl, a, b)
    ensures Conflict(tbl, rows, pk, a) <==> Conflict(tbl, rows, pk, b)
  {
    hide IndexEntry, RowFits, RowsFit, ValidTable;
  }

  lemma UpdatedStore(s: Store, s1: Store, s2: Store, tbl: Table, rows: Rows, pk: bytes, row: Row, amended: Row)
    requires StoreIs(s, tbl, rows) && RowFits(tbl, row) && pk in rows && !Conflict(tbl, rows, pk, row) && SameRows(s, s1)
    requires RowFits(tbl, amended) && PkPresent(tbl, amended) && PkOf(tbl, amended) == pk
    requires FitRows(tbl, rows) && FitRows(tbl, rows[pk := row]) && IndexesMoved(s1, tbl, rows, rows[pk := row], |tbl.indexes|)
    requires RowNow(s1, s2, tbl, pk, amended)
    ensures StoreIs(s2, tbl, rows[pk := amended]) <==> SameEntries(tbl, row, amended)
  {
    hide *;
    KnownIndexes(s, tbl, rows, true);
    RowsFitPut(tbl, rows, pk, amended);
    FitsAll(tbl, rows, pk, amended);
    ListEither(s1, tbl, rows, pk, row, amended);
    NowOnly(s1, s2, tbl, pk, amended);
    IndexesBackOutsideRow(s1, s2, tbl, rows[pk := amended], pk);
    if SameEntries(tbl, row, amended) {
      SameEntriesNoConflict(tbl, rows, pk, row, amended);
      StoreAfterPut(s, s1, s2, tbl, rows, pk, amended);
    }
    if StoreIs(s2, tbl, rows[pk := amended]) {
      KnownIndexes(s2, tbl, rows[pk := amended], true);
    }
  }

  lemma RowsFitAt(tbl: Table, rows: Rows, pk: bytes)
    requires ValidTable(tbl) && RowsFit(tbl, rows) && pk in rows
    ensures RowFits(tbl, rows[pk]) && PkPresent(tbl, rows[pk]) && PkOf(tbl, rows[pk]) == pk
  {
  }

  lemma SnapshotFits(tbl: Table, pk: bytes, f: Fields)
    requires ValidTable(tbl) && WellKeyed(tbl, pk) && TidyFields(f, tbl)
    ensures RowFits(tbl, ValuesFromSnapshot(tbl, pk, f))
  {
    var vals :| AllFit(vals, PkAffinities(tbl)) && pk == EncodeKey(vals, PkAffinities(tbl));
    KeyRoundTrip(vals, PkAffinities(tbl));
    var row := FieldRow(tbl, f);
    forall c | 0 <= c < |tbl.columns|
      ensures ValuesFromSnapshot(tbl, pk, f)[c] == Null || Fits(ValuesFromSnapshot(tbl, pk, f)[c], tbl.columns[c].aff)
    {
      if PkPosition(tbl.pkCols, c) < 0 && tbl.columns[c].name in f {
        assert ValuesFromSnapshot(tbl, pk, f)[c] == row[c];
      }
    }
  }

  lemma DeleteRan(s: Store, es: seq<Effect>, s1: Store, es1: seq<Effect>, s2: Store, es2: seq<Effect>, tbl: Table, pk: bytes)
    requires ValidTable(tbl) && Tidy(s, tbl) && IndexOnly(s, es, s1, es1) && WellKeyed(tbl, pk)
    requires RowNow(s1, s2, tbl, pk, AllNull(tbl)) && RowTouched(es2) == RowTouched(es1) + {RowKey(tbl.tid, pk)}
    ensures Ran(s, es, s2, es2, tbl, DeleteRow(pk), Ok(pk))
  {
    hide RowNow, RowsBecome, Tidy, SameRows, RowTouched, RowFits, AllNull, RowKeys;
    RowKeysOne(tbl.tid, pk);
    AllNullFits(tbl);
    OneRowBecomes(s, s1, s2, tbl, pk, AllNull(tbl));
    TidyAfter(s, s2, tbl, map[pk := AllNull(tbl)]);
  }

  /** The body of `DeleteRow`, and the first half of `emitPKChange`; returns the row that was there. */
  method DeleteBody(ctx: Context, tbl: Table, pk: bytes, ghost rows: Rows, ghost known: bool) returns (oldRow: Row)
    requires Known(ctx.View(), tbl, rows, known) && Tidy(ctx.View(), tbl) && WellKeyed(tbl, pk)
    modifies ctx
    ensures Ran(old(ctx.View()), old(ctx.pending), ctx.View(), ctx.pending, tbl, DeleteRow(pk), Ok(pk))
    ensures known ==> StoreIs(ctx.View(), tbl, rows - {pk})
    ensures known ==> oldRow == if pk in rows then rows[pk] else AllNull(tbl)
  {
    hide *;
    ghost var s, es := ctx.View(), ctx.pending;
    KnownIndexes(s, tbl, rows, known);
    TidyAt(s, tbl, pk);
    ghost var cur := CurRow(s, tbl, pk);
    KeyColumnsExist(tbl);
    var snap := ctx.GetSnapshot(RowKey(tbl.tid, pk));
    RowsFitDrop(tbl, rows, pk);
    IndexOnlyStart(s, es);
    if known {
      LiveRow(s, tbl, rows, pk);
    }
    oldRow := AllNull(tbl);
    if snap != map[] {
      TidyFieldsAt(s, tbl, pk);
      SnapshotFits(tbl, pk, snap);
      oldRow := ValuesFromSnapshot(tbl, pk, snap);
      EmitIndexRemoves(ctx, tbl, pk, oldRow, rows, known);
    } else if known {
      assert rows - {pk} == rows;
    }
    ghost var s1, es1 := ctx.View(), ctx.pending;
    IndexOnlyRows(s, es, s1, es1);
    SameCurRow(s, s1, tbl, pk);
    EmitRowDelete(ctx, tbl, pk, cur);
    DeleteRan(s, es, s1, es1, ctx.View(), ctx.pending, tbl, pk);
    if known {
      StoreAfterDrop(s, s1, ctx.View(), tbl, rows, pk);
    }
  }

  lemma TidyFieldsAt(s: Store, tbl: Table, pk: bytes)
    requires Tidy(s, tbl)
    ensures TidyFields(FieldsAt(s, RowKey(tbl.tid, pk)), tbl)
  {
  }

  lemma KeyColumnsExist(tbl: Table)
    requires ValidTable(tbl)
    ensures forall i :: 0 <= i < |tbl.pkCols| ==> tbl.pkCols[i] < |tbl.columns|
  {
  }

  /** A live row has its key columns stored, so its fields are never empty. */
  lemma LiveHasFields(tbl: Table, rows: Rows, pk: bytes, f: Fields)
    requires ValidTable(tbl) && RowsFit(tbl, rows)
    requires if pk in rows then RowIs(f, tbl, rows[pk]) else f == map[]
    ensures pk in rows <==> f != map[]
  {
    if pk in rows {
      var c := tbl.pkCols[0];
      assert rows[pk][c] != Null;
      assert tbl.columns[c].name in f;
    }
  }

  /** What the store shows of a key when it holds exactly `rows`. */
  lemma LiveRow(s: Store, tbl: Table, rows: Rows, pk: bytes)
    requires ValidTable(tbl) && RowsFit(tbl, rows) && RowsAre(s, tbl, rows)
    ensures var f := FieldsAt(s, RowKey(tbl.tid, pk));
            (pk in rows <==> f != map[]) && (pk in rows ==> ValuesFromSnapshot(tbl, pk, f) == rows[pk])
  {
    assert RowAt(s, tbl, rows, pk);
    LiveHasFields(tbl, rows, pk, FieldsAt(s, RowKey(tbl.tid, pk)));
    if pk in rows {
      SnapshotReadsRow(tbl, rows[pk], FieldsAt(s, RowKey(tbl.tid, pk)));
    }
  }

  lemma KeyChangeRan(s: Store, es: seq<Effect>, s1: Store, es1: seq<Effect>, s2: Store, es2: seq<Effect>,
                     tbl: Table, oldPK: bytes, row: Row, r: Outcome<bytes>)
    requires ValidTable(tbl) && RowFits(tbl, row) && WellKeyed(tbl, oldPK) && KeyOf(tbl, row) != oldPK && Tidy(s, tbl)
    requires Ran(s, es, s1, es1, tbl, DeleteRow(oldPK), Ok(oldPK)) && Ran(s1, es1, s2, es2, tbl, InsertRow(row), r)
    ensures Ran(s, es, s2, es2, tbl, UpdateRow(oldPK, row), r)
  {
    hide RowsBecome, Tidy, Landed, RowTouched, CurRow, KeyOf, RowFits, AllNull, RowKeys, LandedOn, WellKeyed;
    var pk := KeyOf(tbl, row);
    AllNullFits(tbl);
    TidyAfter(s, s1, tbl, map[oldPK := AllNull(tbl)]);
    assert CurRow(s1, tbl, pk) == CurRow(s, tbl, pk);
    TwoRowsBecome(s, s1, s2, tbl, oldPK, AllNull(tbl), pk, Written(s1, tbl, InsertRow(row), r)[pk]);
    RowKeysJoin(tbl.tid, {oldPK}, LandedOn(tbl, row, r));
  }

  lemma RowKeysJoin(tid: ID, a: set<bytes>, b: set<bytes>)
    ensures RowKeys(tid, a + b) == RowKeys(tid, a) + RowKeys(tid, b)
  {
  }

  /**
    `emitPKChange`: the old row goes, the new one is inserted under its own key.
    When the new row is refused the old one is already gone from the context: only discarding the
    context undoes it, which an explicit transaction does not do for a failed statement.
  */
  method PKChangeBody(ctx: Context, tbl: Table, oldPK: bytes, row: Row, ghost rows: Rows, ghost known: bool)
    returns (r: Outcome<bytes>, oldRow: Row, ghost n: nat)
    requires Known(ctx.View(), tbl, rows, known) && Tidy(ctx.View(), tbl)
    requires RowFits(tbl, row) && WellKeyed(tbl, oldPK) && KeyOf(tbl, row) != oldPK
    modifies ctx
    ensures Ran(old(ctx.View()), old(ctx.pending), ctx.View(), ctx.pending, tbl, UpdateRow(oldPK, row), r)
    ensures known ==> oldRow == if oldPK in rows then rows[oldPK] else AllNull(tbl)
    ensures RowsFit(tbl, rows - {oldPK})
    ensures known ==> (r.UniqueViolation? <==> Conflict(tbl, rows - {oldPK}, KeyOf(tbl, row), row))
    ensures known && r.Ok? && r.value !in rows ==> StoreIs(ctx.View(), tbl, (rows - {oldPK})[r.value := row])
    ensures known && r.Ok? && r.value in rows - {oldPK} ==>
              var left := rows - {oldPK};
              (StoreIs(ctx.View(), tbl, left[r.value := Merged(tbl, left, r.value, row)]) <==> KeepsEntries(tbl, left[r.value], row))
    ensures var left, pk := rows - {oldPK}, KeyOf(tbl, row);
            FitRows(tbl, left) && FitRows(tbl, left[pk := row]) && (r.UniqueViolation? <==> n < |tbl.indexes|)
            && (known && pk !in rows ==> IndexesMoved(ctx.View(), tbl, left, left[pk := row], n))
  {
    hide *;
    ghost var s, es := ctx.View(), ctx.pending;
    KnownIndexes(s, tbl, rows, known);
    oldRow := DeleteBody(ctx, tbl, oldPK, rows, known);
    ghost var s1, es1 := ctx.View(), ctx.pending;
    RowsFitDrop(tbl, rows, oldPK);
    KnownAgain(s, es, s1, es1, tbl, oldPK, rows, known);
    r, n := InsertBody(ctx, tbl, row, rows - {oldPK}, known);
    KeyChangeRan(s, es, s1, es1, ctx.View(), ctx.pending, tbl, oldPK, row, r);
  }

  lemma KnownAgain(s: Store, es: seq<Effect>, s1: Store, es1: seq<Effect>, tbl: Table, pk: bytes, rows: Rows, known: bool)
    requires ValidTable(tbl) && WellKeyed(tbl, pk) && RowsFit(tbl, rows - {pk})
    requires Ran(s, es, s1, es1, tbl, DeleteRow(pk), Ok(pk)) && (known ==> StoreIs(s1, tbl, rows - {pk}))
    ensures Known(s1, tbl, rows - {pk}, known) && Tidy(s1, tbl)
  {
  }

  lemma InsertFits(tbl: Table, row: Row)
    requires ValidTable(tbl) && RowFits(tbl, row)
    ensures StatementFits(tbl, InsertRow(row))
  {
  }

  lemma UpdateFits(tbl: Table, oldPK: bytes, row: Row)
    requires ValidTable(tbl) && RowFits(tbl, row) && WellKeyed(tbl, oldPK)
    ensures StatementFits(tbl, UpdateRow(oldPK, row))
  {
  }

  /** A refused key change has taken the old row away and put none in its place. */
  lemma RefusedKeyChange(s: Store, es: seq<Effect>, s': Store, es': seq<Effect>, tbl: Table, rows: Rows, oldPK: bytes, row: Row)
    requires ValidTable(tbl) && RowsFit(tbl, rows) && RowsAre(s, tbl, rows)
    requires StatementFits(tbl, UpdateRow(oldPK, row)) && KeyOf(tbl, row) != oldPK
    requires Ran(s, es, s', es', tbl, UpdateRow(oldPK, row), UniqueViolation)
    ensures RowsAre(s', tbl, rows - {oldPK})
  {
    hide Tidy, KeyOf, RowFits, PkPresent, WellKeyed, RowTouched, CurRow, RowIs;
    StoreIsTidy(s, tbl, rows);
    forall pk ensures RowAt(s', tbl, rows - {oldPK}, pk) {
      assert RowAt(s, tbl, rows, pk);
      RowIsAllNull(FieldsAt(s', RowKey(tbl.tid, pk)), tbl);
    }
  }

  // ---- Statements on a table that is known ----

  /** A row put under a key that is live keeps the entries of the row it is merged into. */
  ghost predicate PutKeeps(tbl: Table, rows: Rows, row: Row)
    requires ValidTable(tbl) && RowsFit(tbl, rows) && RowFits(tbl, row)
  {
    var pk := KeyOf(tbl, row);
    pk in rows ==> KeepsEntries(tbl, rows[pk], row)
  }

  /** An update on the same key is stored as it was indexed. */
  ghost predicate AmendKeeps(tbl: Table, rows: Rows, pk: bytes, row: Row)
    requires ValidTable(tbl) && RowsFit(tbl, rows) && pk in rows && RowFits(tbl, row)
  {
    AmendedFits(tbl, rows, pk, row);
    SameEntries(tbl, row, Amended(tbl, rows[pk], row))
  }

  /** Rows are put under fresh keys or keep the entries they meet; updates start from a live row. */
  ghost predicate Proper(tbl: Table, rows: Rows, st: Statement)
    requires ValidTable(tbl) && RowsFit(tbl, rows)
  {
    && StatementFits(tbl, st)
    && (st.InsertRow? ==> PutKeeps(tbl, rows, st.row))
    && (st.UpdateRow? ==> st.oldPK in rows && RowsFit(tbl, rows - {st.oldPK})
                          && if KeyOf(tbl, st.row) == st.oldPK then AmendKeeps(tbl, rows, st.oldPK, st.row) else PutKeeps(tbl, rows - {st.oldPK}, st.row))
  }

  /** Why a statement is refused, decided on the rows alone. */
  ghost function Verdict(tbl: Table, rows: Rows, st: Statement): (r: Outcome<bytes>)
    requires ValidTable(tbl) && RowsFit(tbl, rows) && Proper(tbl, rows, st)
  {
    if st.DeleteRow? then Ok(st.pk)
    else
      var others := if st.UpdateRow? then rows - {st.oldPK} else rows;
      if Conflict(tbl, others, KeyOf(tbl, st.row), st.row) then UniqueViolation
      else if !PkPresent(tbl, st.row) && (st.InsertRow? || KeyOf(tbl, st.row) != st.oldPK) then NullKey
      else Ok(KeyOf(tbl, st.row))
  }

  /** The table's contents after the statement. */
  ghost function Outcomes(tbl: Table, rows: Rows, st: Statement): (after: Rows)
    requires ValidTable(tbl) && RowsFit(tbl, rows) && Proper(tbl, rows, st)
    ensures RowsFit(tbl, after)
  {
    if !Verdict(tbl, rows, st).Ok? then rows
    else
      match st
      case InsertRow(row) => Put(tbl, rows, row)
      case UpdateRow(oldPK, row) => if KeyOf(tbl, row) == oldPK then Amend(tbl, rows, oldPK, row) else Put(tbl, rows - {oldPK}, row)
      case DeleteRow(pk) => rows - {pk}
  }

  ghost function Amend(tbl: Table, rows: Rows, pk: bytes, row: Row): (after: Rows)
    requires ValidTable(tbl) && RowsFit(tbl, rows) && pk in rows && RowFits(tbl, row)
    ensures RowsFit(tbl, after)
  {
    AmendedFits(tbl, rows, pk, row);
    RowsFitPut(tbl, rows, pk, Amended(tbl, rows[pk], row));
    rows[pk := Amended(tbl, rows[pk], row)]
  }

  /** The row under its own key, merged into the row that is there. */
  ghost function Put(tbl: Table, rows: Rows, row: Row): (after: Rows)
    requires ValidTable(tbl) && RowsFit(tbl, rows) && RowFits(tbl, row) && PkPresent(tbl, row)
    ensures RowsFit(tbl, after)
  {
    PutFits(tbl, rows, row);
    rows[KeyOf(tbl, row) := Merged(tbl, rows, KeyOf(tbl, row), row)]
  }

  lemma PutFits(tbl: Table, rows: Rows, row: Row)
    requires ValidTable(tbl) && RowsFit(tbl, rows) && RowFits(tbl, row) && PkPresent(tbl, row)
    ensures KeyOf(tbl, row) in rows ==> RowFits(tbl, rows[KeyOf(tbl, row)])
    ensures RowsFit(tbl, rows[KeyOf(tbl, row) := Merged(tbl, rows, KeyOf(tbl, row), row)])
  {
    var pk := KeyOf(tbl, row);
    KeyOfPresent(tbl, row);
    if pk in rows {
      OverlaidKey(tbl, rows[pk], row);
    }
    hide KeyOf, PkOf, PkPresent, RowFits, ValidTable;
    RowsFitPut(tbl, rows, pk, Merged(tbl, rows, pk, row));
  }

  lemma ConflictIgnoresSelf(tbl: Table, rows: Rows, pk: bytes, row: Row)
    requires ValidTable(tbl) && RowsFit(tbl, rows) && RowFits(tbl, row) && RowsFit(tbl, rows - {pk})
    ensures Conflict(tbl, rows, pk, row) <==> Conflict(tbl, rows - {pk}, pk, row)
  {
    if Conflict(tbl, rows, pk, row) {
      var j, q :| 0 <= j < |tbl.indexes| && tbl.indexes[j].unique && q in rows && q != pk
        && IndexEntry(tbl, tbl.indexes[j], row).Some?
        && IndexEntry(tbl, tbl.indexes[j], rows[q]) == IndexEntry(tbl, tbl.indexes[j], row);
      assert q in rows - {pk};
    }
  }

  // ---- The table outside a transaction ----

  lemma EmptyStore(tbl: Table)
    requires ValidTable(tbl)
    ensures StoreIs(map[], tbl, map[])
  {
  }

  lemma StoreIsKnown(s: Store, tbl: Table, rows: Rows)
    requires StoreIs(s, tbl, rows)
    ensures ValidTable(tbl) && RowsFit(tbl, rows) && Known(s, tbl, rows, true) && Tidy(s, tbl)
  {
    hide Tidy;
    StoreIsTidy(s, tbl, rows);
  }

  lemma RanOutcome(s: Store, es: seq<Effect>, s': Store, es': seq<Effect>, tbl: Table, st: Statement, r: Outcome<bytes>)
    requires ValidTable(tbl) && StatementFits(tbl, st) && Ran(s, es, s', es', tbl, st, r)
    ensures OutcomeFits(tbl, st, r) && (r.Ok? && !st.DeleteRow? ==> r.value == KeyOf(tbl, st.row))
  {
    hide KeyOf, RowsBecome, Tidy, RowTouched, PkPresent, Written;
  }

  /** The rows written, as recorded for the predicates of concurrent readers. */
  function Recorded(tbl: Table, rows: Rows, st: Statement): (w: seq<RowWrite>)
    requires ValidTable(tbl) && (!st.DeleteRow? ==> RowFits(tbl, st.row))
  {
    match st
    case InsertRow(row) => [RowWrite(WriteInsert, KeyOf(tbl, row), row)]
    case UpdateRow(oldPK, row) =>
      if KeyOf(tbl, row) == oldPK then [RowWrite(WriteUpdate, oldPK, Effective(tbl, oldPK, row))]
      else [RowWrite(WriteDelete, oldPK, RowOr(tbl, rows, oldPK)), RowWrite(WriteInsert, KeyOf(tbl, row), row)]
    case DeleteRow(pk) => [RowWrite(WriteDelete, pk, RowOr(tbl, rows, pk))]
  }

  /** `mergeSamePKRow`: the key columns come from the key. */
  function Effective(tbl: Table, pk: bytes, row: Row): (r: Row)
    requires ValidTable(tbl) && |row| == |tbl.columns|
    ensures |r| == |row|
  {
    KeyColumnsExist(tbl);
    var pkVals := DecodeKey(pk, PkAffinities(tbl));
    seq(|row|, c requires 0 <= c < |row| => if PkPosition(tbl.pkCols, c) >= 0 then pkVals[PkPosition(tbl.pkCols, c)] else row[c])
  }

  /** The tuple an update records is the row it leaves. */
  lemma EffectiveIsAmended(tbl: Table, rows: Rows, pk: bytes, row: Row)
    requires ValidTable(tbl) && RowsFit(tbl, rows) && pk in rows && RowFits(tbl, row)
    ensures |rows[pk]| == |row| && Effective(tbl, pk, row) == Amended(tbl, rows[pk], row)
  {
    RowsFitAt(tbl, rows, pk);
    KeyRoundTrip(PkValues(tbl, rows[pk]), PkAffinities(tbl));
    hide KeyOf, PkOf, EncodeKey, DecodeKey, ValidTable;
  }

  function RowOr(tbl: Table, rows: Rows, pk: bytes): Row
  {
    if pk in rows then rows[pk] else AllNull(tbl)
  }

  lemma ProperFits(tbl: Table, rows: Rows, st: Statement)
    requires ValidTable(tbl) && RowsFit(tbl, rows) && Proper(tbl, rows, st)
    ensures StatementFits(tbl, st) && (st.InsertRow? ==> RowFits(tbl, st.row) && PutKeeps(tbl, rows, st.row))
    ensures st.UpdateRow? ==> RowFits(tbl, st.row) && WellKeyed(tbl, st.oldPK) && st.oldPK in rows && RowsFit(tbl, rows - {st.oldPK})
                              && if KeyOf(tbl, st.row) == st.oldPK then AmendKeeps(tbl, rows, st.oldPK, st.row) else PutKeeps(tbl, rows - {st.oldPK}, st.row)
    ensures st.DeleteRow? ==> WellKeyed(tbl, st.pk)
  {
    hide PutKeeps, AmendKeeps, RowFits, WellKeyed, PkPresent;
  }

  lemma InsertVerdict(tbl: Table, rows: Rows, row: Row, r: Outcome<bytes>)
    requires ValidTable(tbl) && RowsFit(tbl, rows) && Proper(tbl, rows, InsertRow(row)) && RowFits(tbl, row)
    requires StatementFits(tbl, InsertRow(row)) && OutcomeFits(tbl, InsertRow(row), r)
    requires r.UniqueViolation? <==> Conflict(tbl, rows, KeyOf(tbl, row), row)
    ensures r == Verdict(tbl, rows, InsertRow(row))
    ensures r.Ok? ==> PkPresent(tbl, row) && r.value == KeyOf(tbl, row)
    ensures Outcomes(tbl, rows, InsertRow(row)) == if r.Ok? then Put(tbl, rows, row) else rows
    ensures r.Ok? ==> Recorded(tbl, rows, InsertRow(row)) == [RowWrite(WriteInsert, r.value, row)]
  {
    hide Conflict, KeyOf, RowFits, PkPresent, RowsFit, ValidTable;
  }

  lemma UpdateVerdict(tbl: Table, rows: Rows, oldPK: bytes, row: Row, r: Outcome<bytes>)
    requires ValidTable(tbl) && RowsFit(tbl, rows) && Proper(tbl, rows, UpdateRow(oldPK, row)) && RowFits(tbl, row)
    requires StatementFits(tbl, UpdateRow(oldPK, row)) && OutcomeFits(tbl, UpdateRow(oldPK, row), r)
    requires RowsFit(tbl, rows - {oldPK})
    requires r.UniqueViolation? <==> (if KeyOf(tbl, row) == oldPK then Conflict(tbl, rows, oldPK, row)
                                      else Conflict(tbl, rows - {oldPK}, KeyOf(tbl, row), row))
    ensures r == Verdict(tbl, rows, UpdateRow(oldPK, row))
    ensures oldPK in rows && (r.Ok? ==> r.value == KeyOf(tbl, row) && (r.value == oldPK || PkPresent(tbl, row)))
    ensures Outcomes(tbl, rows, UpdateRow(oldPK, row)) ==
            if !r.Ok? then rows else if r.value == oldPK then Amend(tbl, rows, oldPK, row) else Put(tbl, rows - {oldPK}, row)
    ensures Recorded(tbl, rows, UpdateRow(oldPK, row)) ==
            if KeyOf(tbl, row) == oldPK then [RowWrite(WriteUpdate, oldPK, Effective(tbl, oldPK, row))]
            else [RowWrite(WriteDelete, oldPK, if oldPK in rows then rows[oldPK] else AllNull(tbl)), RowWrite(WriteInsert, KeyOf(tbl, row), row)]
  {
    hide Conflict, KeyOf, RowFits, PkPresent, RowsFit, ValidTable, AllNull, Put, PutKeeps, Amend, AmendKeeps, Effective;
    ConflictIgnoresSelf(tbl, rows, oldPK, row);
  }

  /** What a body leaves is what `Put` says, whether the key was fresh, live, or the row's own. */
  lemma PutStore(s: Store, tbl: Table, rows: Rows, row: Row, pk: bytes)
    requires ValidTable(tbl) && RowsFit(tbl, rows) && RowFits(tbl, row) && PkPresent(tbl, row) && pk == KeyOf(tbl, row)
    requires PutKeeps(tbl, rows, row)
    requires pk !in rows ==> StoreIs(s, tbl, rows[pk := row])
    requires pk in rows && RowFits(tbl, rows[pk]) ==>
               (StoreIs(s, tbl, rows[pk := Merged(tbl, rows, pk, row)]) <==> KeepsEntries(tbl, rows[pk], row))
    ensures StoreIs(s, tbl, Put(tbl, rows, row))
  {
    hide StoreIs, KeyOf, RowFits, PkPresent, ValidTable, KeepsEntries, Overlaid;
    PutFits(tbl, rows, row);
  }

  lemma AmendStore(s: Store, tbl: Table, rows: Rows, pk: bytes, row: Row)
    requires ValidTable(tbl) && RowsFit(tbl, rows) && pk in rows && RowFits(tbl, row) && AmendKeeps(tbl, rows, pk, row)
    requires |rows[pk]| == |row| && RowFits(tbl, Amended(tbl, rows[pk], row))
    requires StoreIs(s, tbl, rows[pk := Amended(tbl, rows[pk], row)]) <==> SameEntries(tbl, row, Amended(tbl, rows[pk], row))
    ensures StoreIs(s, tbl, Amend(tbl, rows, pk, row))
  {
    hide StoreIs, RowFits, ValidTable, SameEntries, Amended;
  }

  lemma DropThenPut(rows: Rows, pk: bytes, row: Row)
    ensures (rows - {pk})[pk := row] == rows[pk := row] && pk !in rows - {pk}
    ensures forall q :: q in rows - {pk} <==> q in rows && q != pk
  {
  }

  lemma DeleteVerdict(tbl: Table, rows: Rows, pk: bytes)
    requires ValidTable(tbl) && RowsFit(tbl, rows) && Proper(tbl, rows, DeleteRow(pk))
    ensures Verdict(tbl, rows, DeleteRow(pk)) == Ok(pk) && Outcomes(tbl, rows, DeleteRow(pk)) == rows - {pk}
    ensures Recorded(tbl, rows, DeleteRow(pk)) == [RowWrite(WriteDelete, pk, if pk in rows then rows[pk] else AllNull(tbl))]
  {
  }

  /** A statement runs in a context of its own, whose effects are committed only when it succeeds. */
  class SwytchTable {
    const tbl: Table
    var committed: Store
    var lastRowWrites: seq<RowWrite>
    ghost var rows: Rows

    /** Every index lists exactly the live rows with no NULL component, under their encoded tuples. */
    ghost predicate Valid()
      reads this
    {
      StoreIs(committed, tbl, rows)
    }

    lemma ValidIs()
      ensures Valid() <==> StoreIs(committed, tbl, rows)
    {
    }

    /** CREATE TABLE on an empty store. */
    constructor (tbl: Table)
      requires ValidTable(tbl)
      ensures Valid() && this.tbl == tbl && rows == map[] && committed == map[] && lastRowWrites == []
    {
      EmptyStore(tbl);
      this.tbl, committed, lastRowWrites, rows := tbl, map[], [], map[];
    }

    method Insert(row: Row) returns (r: Outcome<bytes>)
      requires Valid() && Proper(tbl, rows, InsertRow(row))
      modifies this
      ensures Valid() && r == Verdict(tbl, old(rows), InsertRow(row)) && rows == Outcomes(tbl, old(rows), InsertRow(row))
      ensures if r.Ok? then lastRowWrites == Recorded(tbl, old(rows), InsertRow(row))
              else committed == old(committed) && lastRowWrites == old(lastRowWrites)
    {
      hide *;
      ValidIs();
      StoreIsKnown(committed, tbl, rows);
      ProperFits(tbl, rows, InsertRow(row));
      var ctx := new Context(committed);
      ghost var n;
      r, n := InsertBody(ctx, tbl, row, rows, true);
      RanOutcome(committed, [], ctx.View(), ctx.pending, tbl, InsertRow(row), r);
      InsertVerdict(tbl, rows, row, r);
      if r.Ok? {
        PutStore(ctx.View(), tbl, rows, row, r.value);
        committed := ctx.View();
        rows := Outcomes(tbl, rows, InsertRow(row));
        lastRowWrites := [RowWrite(WriteInsert, r.value, row)];
      }
      ValidIs();
    }

    method Update(oldPK: bytes, row: Row) returns (r: Outcome<bytes>)
      requires Valid() && Proper(tbl, rows, UpdateRow(oldPK, row))
      modifies this
      ensures Valid() && r == Verdict(tbl, old(rows), UpdateRow(oldPK, row)) && rows == Outcomes(tbl, old(rows), UpdateRow(oldPK, row))
      ensures if r.Ok? then lastRowWrites == Recorded(tbl, old(rows), UpdateRow(oldPK, row))
              else committed == old(committed) && lastRowWrites == old(lastRowWrites)
    {
      hide *;
      ValidIs();
      StoreIsKnown(committed, tbl, rows);
      ProperFits(tbl, rows, UpdateRow(oldPK, row));
      var newPK := KeyOf(tbl, row);
      var ctx := new Context(committed);
      var written;
      RowsFitDrop(tbl, rows, oldPK);
      if newPK != oldPK {
        var oldRow;
        ghost var n;
        r, oldRow, n := PKChangeBody(ctx, tbl, oldPK, row, rows, true);
        written := [RowWrite(WriteDelete, oldPK, oldRow), RowWrite(WriteInsert, newPK, row)];
      } else {
        r := UpdateBody(ctx, tbl, oldPK, row, rows, true);
        RowLength(tbl, row);
        written := [RowWrite(WriteUpdate, oldPK, Effective(tbl, oldPK, row))];
      }
      RanOutcome(committed, [], ctx.View(), ctx.pending, tbl, UpdateRow(oldPK, row), r);
      UpdateVerdict(tbl, rows, oldPK, row, r);
      if r.Ok? {
        if newPK == oldPK {
          AmendStore(ctx.View(), tbl, rows, oldPK, row);
        } else {
          DropThenPut(rows, oldPK, row);
          PutStore(ctx.View(), tbl, rows - {oldPK}, row, newPK);
        }
        committed := ctx.View();
        rows := Outcomes(tbl, rows, UpdateRow(oldPK, row));
        lastRowWrites := written;
      }
      ValidIs();
    }

    method Delete(pk: bytes) returns (r: Outcome<bytes>)
      requires Valid() && Proper(tbl, rows, DeleteRow(pk))
      modifies this
      ensures Valid() && r == Verdict(tbl, old(rows), DeleteRow(pk)) && rows == Outcomes(tbl, old(rows), DeleteRow(pk))
      ensures if r.Ok? then lastRowWrites == Recorded(tbl, old(rows), DeleteRow(pk))
              else committed == old(committed) && lastRowWrites == old(lastRowWrites)
    {
      hide *;
      ValidIs();
      StoreIsKnown(committed, tbl, rows);
      ProperFits(tbl, rows, DeleteRow(pk));
      var ctx := new Context(committed);
      var oldRow := DeleteBody(ctx, tbl, pk, rows, true);
      DeleteVerdict(tbl, rows, pk);
      committed := ctx.View();
      rows := Outcomes(tbl, rows, DeleteRow(pk));
      lastRowWrites := [RowWrite(WriteDelete, pk, oldRow)];
      r := Ok(pk);
      ValidIs();
    }
  }

  // ---- Whole runs ----

  ghost predicate ProperRun(tbl: Table, rows: Rows, sts: seq<Statement>)
    requires ValidTable(tbl) && RowsFit(tbl, rows)
    decreases |sts|
  {
    sts == [] || (Proper(tbl, rows, sts[0]) && ProperRun(tbl, Outcomes(tbl, rows, sts[0]), sts[1..]))
  }

  /** The table's contents after the statements, each accepted or refused on the contents before it. */
  ghost function Replay(tbl: Table, rows: Rows, sts: seq<Statement>): (after: Rows)
    requires ValidTable(tbl) && RowsFit(tbl, rows) && ProperRun(tbl, rows, sts)
    ensures RowsFit(tbl, after)
    decreases |sts|
  {
    if sts == [] then rows else Replay(tbl, Outcomes(tbl, rows, sts[0]), sts[1..])
  }

  lemma RunUnfolds(tbl: Table, rows: Rows, sts: seq<Statement>)
    requires ValidTable(tbl) && RowsFit(tbl, rows) && ProperRun(tbl, rows, sts)
    ensures sts == [] ==> Replay(tbl, rows, sts) == rows
    ensures sts != [] ==> Proper(tbl, rows, sts[0]) && ProperRun(tbl, Outcomes(tbl, rows, sts[0]), sts[1..])
                          && Replay(tbl, rows, sts) == Replay(tbl, Outcomes(tbl, rows, sts[0]), sts[1..])
  {
  }

  /**
    Every run from an empty table: the store ends up holding exactly the rows of the replay and exactly their
    index entries, and no two of them clash in a UNIQUE index.
  */
  method RunStatements(tbl: Table, sts: seq<Statement>) returns (t: SwytchTable)
    requires ValidTable(tbl) && RowsFit(tbl, map[]) && ProperRun(tbl, map[], sts)
    ensures t.tbl == tbl && t.Valid() && t.rows == Replay(tbl, map[], sts) && StoreIs(t.committed, tbl, t.rows)
  {
    hide *;
    t := new SwytchTable(tbl);
    var rest := sts;
    while rest != []
      invariant fresh(t) && t.tbl == tbl && t.Valid() && RowsFit(tbl, t.rows)
      invariant ProperRun(tbl, t.rows, rest) && Replay(tbl, t.rows, rest) == Replay(tbl, map[], sts)
      decreases |rest|
    {
      RunUnfolds(tbl, t.rows, rest);
      var r;
      match rest[0] {
        case InsertRow(row) => r := t.Insert(row);
        case UpdateRow(oldPK, row) => r := t.Update(oldPK, row);
        case DeleteRow(pk) => r := t.Delete(pk);
      }
      rest := rest[1..];
    }
    RunUnfolds(tbl, t.rows, rest);
    t.ValidIs();
  }
}
