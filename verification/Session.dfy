/** A client's transaction: dirty rows, savepoints, and what a full scan inside it sees (sql/session.go, sql/vtab.go). */
module Session {
  import opened Common
  import opened Bytes
  import opened Engine
  import opened Schema
  import opened Keys
  import opened Encoding
  import opened Executor
  import VTable

  // ---- The transaction as a value ----

  datatype Saved = Saved(name: string, pending: seq<Effect>, dirty: map<string, set<bytes>>)
  datatype Tx = Tx(pending: seq<Effect>, dirty: map<string, set<bytes>>, frames: seq<Saved>)

  function MarkedIn(dirty: map<string, set<bytes>>, table: string): set<bytes>
  {
    if table in dirty then dirty[table] else {}
  }

  function Mark(tx: Tx, table: string, pk: bytes): Tx
  {
    tx.(dirty := tx.dirty[table := MarkedIn(tx.dirty, table) + {pk}])
  }

  function MarkAll(tx: Tx, table: string, pks: seq<bytes>): Tx
  {
    if pks == [] then tx else Mark(MarkAll(tx, table, pks[..|pks| - 1]), table, pks[|pks| - 1])
  }

  /** The newest frame of that name, or -1. */
  function Newest(frames: seq<Saved>, name: string): (r: int)
    ensures -1 <= r < |frames|
    ensures r >= 0 ==> frames[r].name == name
    ensures forall i :: r < i < |frames| ==> frames[i].name != name
  {
    if frames == [] then -1
    else if frames[|frames| - 1].name == name then |frames| - 1
    else Newest(frames[..|frames| - 1], name)
  }

  datatype Action =
    | Execute(table: string, st: VTable.Statement, r: VTable.Outcome<bytes>, pending: seq<Effect>)
    | Savepoint(name: string)
    | Release(name: string)
    | RollbackTo(name: string)

  /** The rows a statement marks: those it wrote, and only when it succeeds. */
  function Marks(st: VTable.Statement, r: VTable.Outcome<bytes>): seq<bytes>
  {
    if !r.Ok? then []
    else if st.UpdateRow? && r.value != st.oldPK then [st.oldPK, r.value]
    else [r.value]
  }

  /** A statement that ended with `r` leaves the context with `pending`; an unknown savepoint name changes nothing. */
  function Step(tx: Tx, a: Action): Tx
  {
    match a
    case Execute(table, st, r, pending) => MarkAll(tx.(pending := pending), table, Marks(st, r))
    case Savepoint(name) => tx.(frames := tx.frames + [Saved(name, tx.pending, tx.dirty)])
    case Release(name) => if Newest(tx.frames, name) < 0 then tx else tx.(frames := tx.frames[..Newest(tx.frames, name)])
    case RollbackTo(name) =>
      var i := Newest(tx.frames, name);
      if i < 0 then tx else Tx(tx.frames[i].pending, tx.frames[i].dirty, tx.frames[..i + 1])
  }

  function Run(tx: Tx, acts: seq<Action>): Tx
  {
    if acts == [] then tx else Step(Run(tx, acts[..|acts| - 1]), acts[|acts| - 1])
  }

  function SetOf(pks: seq<bytes>): set<bytes>
  {
    set i | 0 <= i < |pks| :: pks[i]
  }

  // ---- Rolling back ----

  lemma {:induction false} MarkAllFrames(tx: Tx, table: string, pks: seq<bytes>)
    ensures MarkAll(tx, table, pks).frames == tx.frames && MarkAll(tx, table, pks).pending == tx.pending
    ensures forall t :: MarkedIn(MarkAll(tx, table, pks).dirty, t) == MarkedIn(tx.dirty, t) + if t == table then SetOf(pks) else {}
  {
    if pks != [] {
      MarkAllFrames(tx, table, pks[..|pks| - 1]);
      assert SetOf(pks) == SetOf(pks[..|pks| - 1]) + {pks[|pks| - 1]};
    }
  }

  /** The stack never falls below `depth` frames. */
  predicate Above(tx: Tx, acts: seq<Action>, depth: nat)
  {
    |Run(tx, acts).frames| >= depth && (acts == [] || Above(tx, acts[..|acts| - 1], depth))
  }

  /** Live frames are never touched, whatever is written, saved or rolled back above them. */
  lemma {:induction false} FramesStay(tx: Tx, acts: seq<Action>, depth: nat)
    requires Above(tx, acts, depth)
    ensures |tx.frames| >= depth && Run(tx, acts).frames[..depth] == tx.frames[..depth]
  {
    if acts != [] {
      var init, a := acts[..|acts| - 1], acts[|acts| - 1];
      FramesStay(tx, init, depth);
      if a.Execute? {
        MarkAllFrames(Run(tx, init).(pending := a.pending), a.table, Marks(a.st, a.r));
      }
      assert Run(tx, acts).frames[..depth] == Run(tx, init).frames[..depth];
    }
  }

  /**
    However the run goes on after SAVEPOINT, as long as the savepoint is live and is the newest of its name,
    rolling back to it restores the pending writes and the dirty rows of that moment and keeps the savepoint.
  */
  lemma RollbackRestores(tx: Tx, name: string, acts: seq<Action>)
    requires Above(Step(tx, Savepoint(name)), acts, |tx.frames| + 1)
    requires Newest(Run(Step(tx, Savepoint(name)), acts).frames, name) == |tx.frames|
    ensures Step(Run(Step(tx, Savepoint(name)), acts), RollbackTo(name)) == Step(tx, Savepoint(name))
  {
    var saved, d := Step(tx, Savepoint(name)), |tx.frames|;
    FramesStay(saved, acts, d + 1);
    var end := Run(saved, acts);
    assert saved.frames[..d + 1] == saved.frames && end.frames[d] == end.frames[..d + 1][d];
  }

  /** A repeated name shadows: releasing the newest brings the earlier one back. */
  lemma ReleaseUncovers(tx: Tx, name: string)
    ensures Step(Step(tx, Savepoint(name)), Release(name)) == tx
  {
    var saved := Step(tx, Savepoint(name));
    assert Newest(saved.frames, name) == |tx.frames|;
    assert saved.frames[..|tx.frames|] == tx.frames;
  }

  // ---- Dirty rows cover what the committed keys do not show ----

  ghost predicate Visible(s: Store, tid: ID, pk: bytes)
  {
    FieldsAt(s, RowKey(tid, pk)) != map[]
  }

  /** Every visible row of the table is committed or dirty. */
  ghost predicate Covers(committed: Store, tid: ID, pending: seq<Effect>, pks: set<bytes>)
  {
    forall pk :: Visible(Reduce(committed, pending), tid, pk) ==> Visible(committed, tid, pk) || pk in pks
  }

  /** Every row the pending effects write to is dirty. */
  ghost predicate PendingDirty(tid: ID, pending: seq<Effect>, pks: set<bytes>)
  {
    forall pk :: RowKey(tid, pk) in VTable.RowTouched(pending) ==> pk in pks
  }

  /** A row is inserted: a new one, or one that changes its key. */
  ghost predicate Inserts(tbl: Table, st: VTable.Statement)
    requires ValidTable(tbl) && VTable.StatementFits(tbl, st)
  {
    st.InsertRow? || (st.UpdateRow? && KeyOf(tbl, st.row) != st.oldPK)
  }

  /** NULL in a later key column: the key columns before it are written, under a key where NULL counts as zero. */
  ghost predicate HalfKeyed(tbl: Table, st: VTable.Statement)
    requires ValidTable(tbl) && VTable.StatementFits(tbl, st)
  {
    Inserts(tbl, st) && !PkPresent(tbl, st.row) && st.row[tbl.pkCols[0]] != Null
  }

  /** The refused statement has left such a row where no scan looks. */
  ghost predicate LeavesBare(committed: Store, tbl: Table, st: VTable.Statement, r: VTable.Outcome<bytes>, pks: set<bytes>)
    requires ValidTable(tbl) && VTable.StatementFits(tbl, st)
  {
    r.NullKey? && HalfKeyed(tbl, st) && KeyOf(tbl, st.row) !in pks && !Visible(committed, tbl.tid, KeyOf(tbl, st.row))
  }

  /** The refused statement has written to a row that is not dirty. */
  ghost predicate WritesUnmarked(tbl: Table, st: VTable.Statement, r: VTable.Outcome<bytes>, pks: set<bytes>)
    requires ValidTable(tbl) && VTable.StatementFits(tbl, st)
  {
    || (!r.Ok? && st.UpdateRow? && Inserts(tbl, st) && st.oldPK !in pks)
    || (r.NullKey? && HalfKeyed(tbl, st) && KeyOf(tbl, st.row) !in pks)
  }

  // ---- One statement ----

  ghost predicate SomeValue(row: Row)
  {
    exists c :: 0 <= c < |row| && row[c] != Null
  }

  lemma RowIsVisible(f: Fields, tbl: Table, row: Row)
    requires RowIs(f, tbl, row)
    ensures f != map[] <==> SomeValue(row)
  {
    if f != map[] {
      var n :| n in f;
      assert row[FindColumn(tbl.columns, n)] != Null;
    }
  }

  lemma AllNullShowsNothing(tbl: Table)
    ensures !SomeValue(AllNull(tbl))
  {
  }

  lemma BecomeVisible(s: Store, s': Store, tbl: Table, w: map<bytes, Row>, pk: bytes)
    requires VTable.Tidy(s, tbl) && VTable.RowsBecome(s, s', tbl, w)
    ensures Visible(s, tbl.tid, pk) <==> SomeValue(VTable.CurRow(s, tbl, pk))
    ensures Visible(s', tbl.tid, pk) <==> if pk in w then SomeValue(w[pk]) else Visible(s, tbl.tid, pk)
  {
    VTable.TidyFieldsAt(s, tbl, pk);
    RowIsVisible(FieldsAt(s, RowKey(tbl.tid, pk)), tbl, VTable.CurRow(s, tbl, pk));
    if pk in w {
      RowIsVisible(FieldsAt(s', RowKey(tbl.tid, pk)), tbl, w[pk]);
    }
  }

  /** What is visible under the key an INSERT went to. */
  lemma LandedVisible(tbl: Table, cur: Row, st: VTable.Statement, r: VTable.Outcome<bytes>)
    requires ValidTable(tbl) && VTable.StatementFits(tbl, st) && Inserts(tbl, st) && VTable.OutcomeFits(tbl, st, r)
    requires |cur| == |tbl.columns| && !r.Ok?
    ensures |st.row| == |tbl.columns|
    ensures SomeValue(VTable.Landed(tbl, cur, st.row, r)) <==> SomeValue(cur) || (r.NullKey? && HalfKeyed(tbl, st))
  {
    if r.NullKey? {
      var n := VTable.LeadingKey(tbl, st.row);
      VTable.WithKeyNext(tbl, cur, st.row, 0);
      if n > 0 {
        var c := tbl.pkCols[0];
        assert c in tbl.pkCols[..n];
        assert VTable.Landed(tbl, cur, st.row, r)[c] == st.row[c];
      }
    }
  }

  ghost predicate Ran(committed: Store, before: seq<Effect>, after: seq<Effect>, tbl: Table, st: VTable.Statement,
                      r: VTable.Outcome<bytes>)
    requires ValidTable(tbl) && VTable.StatementFits(tbl, st)
  {
    VTable.Tidy(Reduce(committed, before), tbl) && VTable.Ran(Reduce(committed, before), before, Reduce(committed, after), after, tbl, st, r)
  }

  lemma RanParts(committed: Store, before: seq<Effect>, after: seq<Effect>, tbl: Table, st: VTable.Statement, r: VTable.Outcome<bytes>)
    requires ValidTable(tbl) && VTable.StatementFits(tbl, st) && Ran(committed, before, after, tbl, st, r)
    ensures VTable.OutcomeFits(tbl, st, r) && VTable.Tidy(Reduce(committed, before), tbl) && VTable.Tidy(Reduce(committed, after), tbl)
    ensures VTable.RowsBecome(Reduce(committed, before), Reduce(committed, after), tbl, VTable.Written(Reduce(committed, before), tbl, st, r))
    ensures VTable.RowTouched(after) == VTable.RowTouched(before) + VTable.RowKeys(tbl.tid, VTable.TouchedBy(tbl, st, r))
  {
  }

  /** The keys a successful statement wrote to are the keys it marks. */
  lemma OkIsMarked(s: Store, tbl: Table, st: VTable.Statement, r: VTable.Outcome<bytes>)
    requires ValidTable(tbl) && VTable.StatementFits(tbl, st) && VTable.OutcomeFits(tbl, st, r) && r.Ok?
    ensures VTable.Written(s, tbl, st, r).Keys == SetOf(Marks(st, r)) && VTable.TouchedBy(tbl, st, r) <= SetOf(Marks(st, r))
  {
    hide VTable.Landed, VTable.CurRow, KeyOf, RowFits, PkPresent, ValidTable, WellKeyed, AllNull, VTable.LeadingKey, VTable.Amended;
    if st.UpdateRow? && r.value != st.oldPK {
      assert SetOf(Marks(st, r)) == {st.oldPK, r.value} by {
        assert Marks(st, r)[0] == st.oldPK && Marks(st, r)[1] == r.value;
      }
    } else {
      assert SetOf(Marks(st, r)) == {r.value} by {
        assert Marks(st, r)[0] == r.value;
      }
    }
  }

  /** A refused statement makes nothing visible but a row it half keyed. */
  lemma RefusedVisible(committed: Store, before: seq<Effect>, after: seq<Effect>, tbl: Table, st: VTable.Statement,
                       r: VTable.Outcome<bytes>, pk: bytes)
    requires ValidTable(tbl) && VTable.StatementFits(tbl, st) && Ran(committed, before, after, tbl, st, r) && !r.Ok?
    ensures Visible(Reduce(committed, after), tbl.tid, pk) ==>
              Visible(Reduce(committed, before), tbl.tid, pk) || (r.NullKey? && HalfKeyed(tbl, st) && pk == KeyOf(tbl, st.row))
    ensures r.NullKey? && HalfKeyed(tbl, st) && pk == KeyOf(tbl, st.row) ==> Visible(Reduce(committed, after), tbl.tid, pk)
  {
    hide Ran, VTable.RowsBecome, VTable.Tidy, VTable.Landed, VTable.CurRow, KeyOf, SomeValue, Visible, PkPresent, ValidTable, RowFits,
      WellKeyed, VTable.RowTouched, VTable.TouchedBy, Reduce, AllNull, VTable.Amended, HalfKeyed, VTable.LeadingKey;
    RanParts(committed, before, after, tbl, st, r);
    var s, s' := Reduce(committed, before), Reduce(committed, after);
    BecomeVisible(s, s', tbl, VTable.Written(s, tbl, st, r), pk);
    AllNullShowsNothing(tbl);
    if Inserts(tbl, st) {
      LandedVisible(tbl, VTable.CurRow(s, tbl, KeyOf(tbl, st.row)), st, r);
    }
  }

  /** A statement keeps the rows covered exactly when it does not leave a bare row. */
  lemma StatementCovers(committed: Store, before: seq<Effect>, after: seq<Effect>, tbl: Table, st: VTable.Statement,
                        r: VTable.Outcome<bytes>, pks: set<bytes>)
    requires ValidTable(tbl) && VTable.StatementFits(tbl, st) && Ran(committed, before, after, tbl, st, r)
    requires Covers(committed, tbl.tid, before, pks)
    ensures Covers(committed, tbl.tid, after, pks + SetOf(Marks(st, r))) <==> !LeavesBare(committed, tbl, st, r, pks)
  {
    hide Ran, VTable.RowsBecome, VTable.Tidy, KeyOf, Visible, PkPresent, ValidTable, RowFits, VTable.Written, VTable.OutcomeFits,
      WellKeyed, VTable.RowTouched, VTable.TouchedBy, Reduce;
    RanParts(committed, before, after, tbl, st, r);
    var s, s' := Reduce(committed, before), Reduce(committed, after);
    if r.Ok? {
      OkIsMarked(s, tbl, st, r);
      forall pk | Visible(s', tbl.tid, pk) ensures Visible(committed, tbl.tid, pk) || pk in pks + SetOf(Marks(st, r)) {
        BecomeVisible(s, s', tbl, VTable.Written(s, tbl, st, r), pk);
      }
    } else {
      forall pk | Visible(s', tbl.tid, pk)
        ensures Visible(committed, tbl.tid, pk) || pk in pks || (r.NullKey? && HalfKeyed(tbl, st) && pk == KeyOf(tbl, st.row))
      {
        RefusedVisible(committed, before, after, tbl, st, r, pk);
      }
      if LeavesBare(committed, tbl, st, r, pks) {
        RefusedVisible(committed, before, after, tbl, st, r, KeyOf(tbl, st.row));
      }
    }
  }

  /** What a refused statement wrote to. */
  lemma RefusedTouches(tbl: Table, st: VTable.Statement, r: VTable.Outcome<bytes>)
    requires ValidTable(tbl) && VTable.StatementFits(tbl, st) && VTable.OutcomeFits(tbl, st, r) && !r.Ok?
    ensures forall pk :: pk in VTable.TouchedBy(tbl, st, r) <==>
              || (st.UpdateRow? && Inserts(tbl, st) && pk == st.oldPK)
              || (r.NullKey? && HalfKeyed(tbl, st) && pk == KeyOf(tbl, st.row))
  {
    hide KeyOf, RowFits, WellKeyed;
  }

  lemma RowKeyIn(tid: ID, pks: set<bytes>, pk: bytes)
    ensures RowKey(tid, pk) in VTable.RowKeys(tid, pks) <==> pk in pks
  {
    if RowKey(tid, pk) in VTable.RowKeys(tid, pks) {
      var q :| q in pks && RowKey(tid, q) == RowKey(tid, pk);
      if q != pk {
        VTable.RowKeysDiffer(tid, q, tid, pk);
      }
    }
  }

  /** All written rows stay dirty exactly when the statement does not write to an unmarked row. */
  lemma StatementMarks(committed: Store, before: seq<Effect>, after: seq<Effect>, tbl: Table, st: VTable.Statement,
                       r: VTable.Outcome<bytes>, pks: set<bytes>)
    requires ValidTable(tbl) && VTable.StatementFits(tbl, st) && Ran(committed, before, after, tbl, st, r)
    requires PendingDirty(tbl.tid, before, pks)
    ensures PendingDirty(tbl.tid, after, pks + SetOf(Marks(st, r))) <==> !WritesUnmarked(tbl, st, r, pks)
  {
    hide Ran, VTable.RowsBecome, VTable.Tidy, KeyOf, PkPresent, ValidTable, RowFits, VTable.Written, VTable.OutcomeFits, RowKey,
      WellKeyed, VTable.RowTouched, VTable.TouchedBy, Reduce, HalfKeyed, VTable.StatementFits, VTable.RowKeys, Inserts;
    RanParts(committed, before, after, tbl, st, r);
    var touched := VTable.TouchedBy(tbl, st, r);
    forall pk ensures RowKey(tbl.tid, pk) in VTable.RowKeys(tbl.tid, touched) <==> pk in touched {
      RowKeyIn(tbl.tid, touched, pk);
    }
    if r.Ok? {
      OkIsMarked(Reduce(committed, before), tbl, st, r);
    } else {
      RefusedTouches(tbl, st, r);
      assert forall pk :: RowKey(tbl.tid, pk) in VTable.RowTouched(after) <==> RowKey(tbl.tid, pk) in VTable.RowTouched(before) || pk in touched;
    }
  }

  // ---- Whole transactions ----

  type Catalog = map<string, Table>

  ghost predicate ValidCatalog(cat: Catalog)
  {
    && (forall t :: t in cat ==> ValidTable(cat[t]))
    && (forall t, u :: t in cat && u in cat && t != u ==> cat[t].tid != cat[u].tid)
  }

  /** The table's stored rows are tidy, and those visible are committed or dirty. */
  ghost predicate TableCovered(committed: Store, tbl: Table, pending: seq<Effect>, pks: set<bytes>)
  {
    VTable.Tidy(Reduce(committed, pending), tbl) && Covers(committed, tbl.tid, pending, pks)
  }

  ghost predicate CoveredAt(cat: Catalog, committed: Store, pending: seq<Effect>, dirty: map<string, set<bytes>>)
  {
    forall t :: t in cat ==> TableCovered(committed, cat[t], pending, MarkedIn(dirty, t))
  }

  /** Now, and after rolling back to any live savepoint. */
  ghost predicate Covered(cat: Catalog, committed: Store, tx: Tx)
  {
    && CoveredAt(cat, committed, tx.pending, tx.dirty)
    && forall i :: 0 <= i < |tx.frames| ==> CoveredAt(cat, committed, tx.frames[i].pending, tx.frames[i].dirty)
  }

  /** The action can happen here: a statement on a table of the catalog, with what it really does to the store. */
  ghost predicate Happens(cat: Catalog, committed: Store, tx: Tx, a: Action)
    requires ValidCatalog(cat)
  {
    a.Execute? ==> a.table in cat && VTable.StatementFits(cat[a.table], a.st)
                   && Ran(committed, tx.pending, a.pending, cat[a.table], a.st, a.r)
  }

  /** No row is inserted under a key that is NULL only in a later column. */
  ghost predicate WholeKeys(cat: Catalog, a: Action)
    requires ValidCatalog(cat)
  {
    a.Execute? && a.table in cat && VTable.StatementFits(cat[a.table], a.st) ==> !HalfKeyed(cat[a.table], a.st)
  }

  lemma OtherTable(committed: Store, before: seq<Effect>, after: seq<Effect>, tbl: Table, st: VTable.Statement,
                   r: VTable.Outcome<bytes>,
                   other: Table, pks: set<bytes>)
    requires ValidTable(tbl) && VTable.StatementFits(tbl, st) && Ran(committed, before, after, tbl, st, r)
    requires other.tid != tbl.tid && TableCovered(committed, other, before, pks)
    ensures TableCovered(committed, other, after, pks)
  {
    hide Ran, ValidTable, VTable.StatementFits, VTable.Written, VTable.TidyFields, Reduce, RowKey, VTable.TouchedBy, VTable.OutcomeFits;
    RanParts(committed, before, after, tbl, st, r);
  }

  lemma ThisTable(committed: Store, before: seq<Effect>, after: seq<Effect>, tbl: Table, st: VTable.Statement,
                  r: VTable.Outcome<bytes>, pks: set<bytes>)
    requires ValidTable(tbl) && VTable.StatementFits(tbl, st) && Ran(committed, before, after, tbl, st, r)
    requires TableCovered(committed, tbl, before, pks)
    ensures TableCovered(committed, tbl, after, pks + SetOf(Marks(st, r))) <==> !LeavesBare(committed, tbl, st, r, pks)
  {
    hide Ran, Covers, VTable.Tidy, ValidTable, VTable.StatementFits, Reduce, LeavesBare, SetOf, Marks, VTable.RowsBecome, VTable.OutcomeFits, VTable.Written;
    RanParts(committed, before, after, tbl, st, r);
    StatementCovers(committed, before, after, tbl, st, r, pks);
  }

  lemma CatalogTables(cat: Catalog, t: string, u: string)
    requires ValidCatalog(cat) && t in cat && u in cat
    ensures ValidTable(cat[t]) && (t != u ==> cat[t].tid != cat[u].tid)
  {
  }

  lemma HappensParts(cat: Catalog, committed: Store, tx: Tx, a: Action)
    requires ValidCatalog(cat) && Happens(cat, committed, tx, a) && a.Execute?
    ensures a.table in cat && ValidTable(cat[a.table]) && VTable.StatementFits(cat[a.table], a.st)
    ensures Ran(committed, tx.pending, a.pending, cat[a.table], a.st, a.r)
  {
    hide Ran, ValidTable, VTable.StatementFits;
  }

  lemma ExecuteMarks(tx: Tx, a: Action)
    requires a.Execute?
    ensures Step(tx, a).pending == a.pending && Step(tx, a).frames == tx.frames
    ensures forall t :: MarkedIn(Step(tx, a).dirty, t) == MarkedIn(tx.dirty, t) + if t == a.table then SetOf(Marks(a.st, a.r)) else {}
  {
    MarkAllFrames(tx.(pending := a.pending), a.table, Marks(a.st, a.r));
  }

  lemma CoveredTable(cat: Catalog, committed: Store, pending: seq<Effect>, dirty: map<string, set<bytes>>, t: string)
    requires CoveredAt(cat, committed, pending, dirty) && t in cat
    ensures TableCovered(committed, cat[t], pending, MarkedIn(dirty, t))
  {
  }

  lemma AllCovered(cat: Catalog, committed: Store, pending: seq<Effect>, dirty: map<string, set<bytes>>)
    requires forall t :: t in cat ==> TableCovered(committed, cat[t], pending, MarkedIn(dirty, t))
    ensures CoveredAt(cat, committed, pending, dirty)
  {
  }

  lemma ExecuteCovered(cat: Catalog, committed: Store, tx: Tx, a: Action)
    requires ValidCatalog(cat) && CoveredAt(cat, committed, tx.pending, tx.dirty) && a.Execute? && Happens(cat, committed, tx, a)
    ensures var after := Step(tx, a);
            after.frames == tx.frames
            && (CoveredAt(cat, committed, after.pending, after.dirty)
                <==> !LeavesBare(committed, cat[a.table], a.st, a.r, MarkedIn(tx.dirty, a.table)))
  {
    hide *;
    HappensParts(cat, committed, tx, a);
    ExecuteMarks(tx, a);
    var tbl, after := cat[a.table], Step(tx, a);
    CoveredTable(cat, committed, tx.pending, tx.dirty, a.table);
    ThisTable(committed, tx.pending, a.pending, tbl, a.st, a.r, MarkedIn(tx.dirty, a.table));
    forall u | u in cat && u != a.table
      ensures TableCovered(committed, cat[u], after.pending, MarkedIn(after.dirty, u))
    {
      CatalogTables(cat, a.table, u);
      CoveredTable(cat, committed, tx.pending, tx.dirty, u);
      OtherTable(committed, tx.pending, a.pending, tbl, a.st, a.r, cat[u], MarkedIn(tx.dirty, u));
      assert MarkedIn(after.dirty, u) == MarkedIn(tx.dirty, u);
    }
    if !LeavesBare(committed, tbl, a.st, a.r, MarkedIn(tx.dirty, a.table)) {
      AllCovered(cat, committed, after.pending, after.dirty);
    } else if CoveredAt(cat, committed, after.pending, after.dirty) {
      CoveredTable(cat, committed, after.pending, after.dirty, a.table);
    }
  }

  lemma StepCovered(cat: Catalog, committed: Store, tx: Tx, a: Action)
    requires ValidCatalog(cat) && Covered(cat, committed, tx) && Happens(cat, committed, tx, a) && WholeKeys(cat, a)
    ensures Covered(cat, committed, Step(tx, a))
  {
    hide CoveredAt, ValidCatalog, Ran, VTable.StatementFits, HalfKeyed, Newest, MarkAll, Visible, KeyOf;
    if a.Execute? {
      HappensParts(cat, committed, tx, a);
      ExecuteCovered(cat, committed, tx, a);
    }
  }

  /** Every action of the run can happen where it does, and inserts whole keys. */
  ghost predicate Runs(cat: Catalog, committed: Store, tx: Tx, acts: seq<Action>)
    requires ValidCatalog(cat)
  {
    acts == [] ||
    (var init, a := acts[..|acts| - 1], acts[|acts| - 1];
     Runs(cat, committed, tx, init) && Happens(cat, committed, Run(tx, init), a) && WholeKeys(cat, a))
  }

  /**
    Whatever inserts, updates, deletes, savepoints, releases and rollbacks make up a transaction, accepted or refused:
    every row it shows is committed or dirty, now and at every live savepoint.
  */
  lemma {:induction false} RunCovered(cat: Catalog, committed: Store, tx: Tx, acts: seq<Action>)
    requires ValidCatalog(cat) && Covered(cat, committed, tx) && Runs(cat, committed, tx, acts)
    ensures Covered(cat, committed, Run(tx, acts))
  {
    if acts != [] {
      RunCovered(cat, committed, tx, acts[..|acts| - 1]);
      StepCovered(cat, committed, Run(tx, acts[..|acts| - 1]), acts[|acts| - 1]);
    }
  }

  /** BEGIN: nothing is pending and nothing is dirty. */
  lemma BeginCovered(cat: Catalog, committed: Store)
    requires forall t :: t in cat ==> VTable.Tidy(committed, cat[t])
    ensures Covered(cat, committed, Tx([], map[], []))
  {
  }

  // ---- The session object ----

  /** The inner map of `txDirtyRows`: a set updated in place. */
  class PkSet {
    var pks: set<bytes>

    constructor (pks: set<bytes>)
      ensures this.pks == pks
    {
      this.pks := pks;
    }
  }

  datatype Frame = Frame(name: string, pending: seq<Effect>, dirty: map<string, PkSet>)

  ghost function Contents(m: map<string, PkSet>): map<string, set<bytes>>
    reads m.Values
  {
    map t | t in m :: m[t].pks
  }

  ghost function Objects(frames: seq<Frame>): set<PkSet>
  {
    set i, t | 0 <= i < |frames| && t in frames[i].dirty :: frames[i].dirty[t]
  }

  ghost function SavedOf(frames: seq<Frame>): (r: seq<Saved>)
    reads Objects(frames)
    ensures |r| == |frames|
    ensures forall i :: 0 <= i < |r| ==> r[i] == Saved(frames[i].name, frames[i].pending, Contents(frames[i].dirty))
  {
    seq(|frames|, i requires 0 <= i < |frames| reads Objects(frames) =>
      Saved(frames[i].name, frames[i].pending, Contents(frames[i].dirty)))
  }

  lemma SavedSnoc(frames: seq<Frame>, f: Frame)
    ensures forall o :: o in Objects(frames + [f]) ==> o in Objects(frames) || exists t :: t in f.dirty && o == f.dirty[t]
    ensures SavedOf(frames + [f]) == SavedOf(frames) + [Saved(f.name, f.pending, Contents(f.dirty))]
  {
    var all := frames + [f];
    forall o | o in Objects(all) ensures o in Objects(frames) || exists t :: t in f.dirty && o == f.dirty[t] {
      var i, t :| 0 <= i < |all| && t in all[i].dirty && o == all[i].dirty[t];
      assert i < |frames| ==> frames[i].dirty[t] == o;
    }
  }

  lemma ObjectsAllocated(frames: seq<Frame>)
    ensures forall o :: o in Objects(frames) ==> allocated(o)
  {
  }

  lemma SavedPrefix(frames: seq<Frame>, n: nat)
    requires n <= |frames|
    ensures Objects(frames[..n]) <= Objects(frames) && SavedOf(frames[..n]) == SavedOf(frames)[..n]
  {
    forall o | o in Objects(frames[..n]) ensures o in Objects(frames) {
      var i, t :| 0 <= i < n && t in frames[..n][i].dirty && o == frames[..n][i].dirty[t];
      assert frames[i].dirty[t] == o;
    }
  }

  /** `cloneDirtyRows`: the same rows in sets of their own. */
  method CloneDirtyRows(src: map<string, PkSet>) returns (out: map<string, PkSet>)
    ensures Contents(out) == Contents(src)
    ensures forall t :: t in out ==> fresh(out[t])
    ensures forall t, u :: t in out && u in out && t != u ==> out[t] != out[u]
  {
    out := map[];
    var todo := src.Keys;
    while todo != {}
      invariant todo <= src.Keys && out.Keys == src.Keys - todo
      invariant forall t :: t in out ==> fresh(out[t]) && out[t].pks == src[t].pks
      invariant forall t, u :: t in out && u in out && t != u ==> out[t] != out[u]
      decreases |todo|
    {
      var t :| t in todo;
      var cloned := new PkSet(src[t].pks);
      out := out[t := cloned];
      todo := todo - {t};
    }
  }

  lemma ReleaseIs(tx: Tx, name: string)
    ensures var i := Newest(tx.frames, name); Step(tx, Release(name)) == if i < 0 then tx else tx.(frames := tx.frames[..i])
  {
  }

  class Session {
    var tx: Context?
    var dirty: map<string, PkSet>
    var savepoints: seq<Frame>

    /** No set of dirty rows is shared: not between tables, not with any savepoint. */
    ghost predicate Valid()
      reads this
    {
      && (forall t, u :: t in dirty && u in dirty && t != u ==> dirty[t] != dirty[u])
      && (forall t :: t in dirty ==> dirty[t] !in Objects(savepoints))
      && (tx == null ==> dirty == map[] && savepoints == [])
    }

    ghost function Value(): Tx
      requires tx != null
      reads this, tx, dirty.Values, Objects(savepoints)
    {
      Tx(tx.pending, Contents(dirty), SavedOf(savepoints))
    }

    constructor ()
      ensures Valid() && tx == null && dirty == map[] && savepoints == []
    {
      tx, dirty, savepoints := null, map[], [];
    }

    /** BEGIN. */
    method Begin(ctx: Context)
      requires Valid() && tx == null
      modifies this
      ensures Valid() && tx == ctx && dirty == map[] && savepoints == [] && Value() == Tx(ctx.pending, map[], [])
    {
      tx := ctx;
    }

    /** `clearTxState`, after COMMIT or ROLLBACK. */
    method Clear()
      modifies this
      ensures Valid() && tx == null
    {
      tx, dirty, savepoints := null, map[], [];
    }

    /** The table's set, made when it is missing. */
    method SetFor(table: string) returns (rows: PkSet)
      requires Valid() && tx != null
      modifies this`dirty
      ensures Valid() && table in dirty && dirty[table] == rows
      ensures if table in old(dirty) then dirty == old(dirty) else fresh(rows) && rows.pks == {} && dirty == old(dirty)[table := rows]
    {
      if table in dirty {
        return dirty[table];
      }
      hide Objects;
      ObjectsAllocated(savepoints);
      rows := new PkSet({});
      dirty := dirty[table := rows];
    }

    /** `markRowDirty`: does nothing outside a transaction. */
    method MarkRowDirty(table: string, pk: bytes)
      requires Valid()
      modifies this`dirty, dirty.Values
      ensures Valid() && savepoints == old(savepoints) && tx == old(tx)
      ensures tx == null ==> dirty == old(dirty)
      ensures tx != null ==> Value() == Mark(old(Value()), table, pk)
      ensures forall t :: t in dirty ==> fresh(dirty[t]) || dirty[t] in old(dirty.Values)
    {
      if tx == null {
        return;
      }
      hide Objects, SavedOf;
      ghost var was, kept := Contents(dirty), SavedOf(savepoints);
      var rows := SetFor(table);
      rows.pks := rows.pks + {pk};
      assert Contents(dirty) == was[table := MarkedIn(was, table) + {pk}];
      assert SavedOf(savepoints) == kept;
    }

    method PushSavepoint(name: string)
      requires Valid()
      modifies this`savepoints
      ensures Valid() && tx == old(tx) && dirty == old(dirty)
      ensures tx == null ==> savepoints == old(savepoints)
      ensures tx != null ==> Value() == Step(old(Value()), Savepoint(name))
    {
      hide Objects, SavedOf, Contents;
      if tx == null {
        return;
      }
      ghost var was, kept, now := savepoints, SavedOf(savepoints), Contents(dirty);
      var pending := tx.TakeSavepoint();
      var rows := CloneDirtyRows(dirty);
      assert SavedOf(was) == kept && Contents(dirty) == now;
      SavedSnoc(was, Frame(name, pending, rows));
      savepoints := savepoints + [Frame(name, pending, rows)];
    }

    method FindSavepoint(name: string) returns (idx: int)
      requires Valid() && tx != null
      ensures idx == Newest(Value().frames, name)
    {
      idx := |savepoints| - 1;
      assert SavedOf(savepoints)[..idx + 1] == SavedOf(savepoints);
      while idx >= 0
        invariant -1 <= idx < |savepoints|
        invariant Newest(SavedOf(savepoints), name) == Newest(SavedOf(savepoints)[..idx + 1], name)
      {
        if savepoints[idx].name == name {
          return;
        }
        assert SavedOf(savepoints)[..idx + 1][..idx] == SavedOf(savepoints)[..idx];
        idx := idx - 1;
      }
    }

    method ReleaseSavepoint(name: string) returns (found: bool)
      requires Valid() && tx != null
      modifies this`savepoints
      ensures Valid() && tx == old(tx) && dirty == old(dirty)
      ensures found <==> Newest(old(Value()).frames, name) >= 0
      ensures Value() == Step(old(Value()), Release(name))
    {
      hide Objects, SavedOf, Contents, Newest, Step, Session.Valid;
      ReleaseIs(Value(), name);
      var idx := FindSavepoint(name);
      if idx < 0 {
        return false;
      }
      Truncate(idx);
      return true;
    }

    method Truncate(n: nat)
      requires Valid() && tx != null && n <= |savepoints|
      modifies this`savepoints
      ensures Valid() && Value() == old(Value()).(frames := old(Value()).frames[..n])
    {
      hide Objects, SavedOf, Contents;
      SavedPrefix(savepoints, n);
      savepoints := savepoints[..n];
    }

    method Restore(idx: nat)
      requires Valid() && tx != null && idx < |savepoints|
      modifies this`savepoints, this`dirty, tx
      ensures Valid() && tx == old(tx)
      ensures forall t :: t in dirty ==> fresh(dirty[t]) || dirty[t] in old(dirty.Values)
      ensures var was := old(Value()); Value() == Tx(was.frames[idx].pending, was.frames[idx].dirty, was.frames[..idx + 1])
    {
      hide Objects, SavedOf, Contents;
      var frame := savepoints[idx];
      SavedPrefix(savepoints, idx + 1);
      ObjectsAllocated(savepoints);
      ghost var objs, kept, rows := Objects(savepoints), SavedOf(savepoints[..idx + 1]), Contents(frame.dirty);
      assert SavedOf(savepoints)[idx] == Saved(frame.name, frame.pending, rows);
      tx.RestoreSavepoint(frame.pending);
      dirty := CloneDirtyRows(frame.dirty);
      assert forall t :: t in dirty ==> dirty[t] !in objs;
      savepoints := savepoints[..idx + 1];
      assert SavedOf(savepoints) == kept && Contents(dirty) == rows;
    }

    /** Restores the newest savepoint of that name; the session gets copies, so the savepoint can be used again. */
    method RollbackToSavepoint(name: string) returns (found: bool)
      requires Valid() && tx != null
      modifies this`savepoints, this`dirty, tx
      ensures Valid() && tx == old(tx)
      ensures forall t :: t in dirty ==> fresh(dirty[t]) || dirty[t] in old(dirty.Values)
      ensures found <==> Newest(old(Value()).frames, name) >= 0
      ensures Value() == Step(old(Value()), RollbackTo(name))
    {
      hide Objects, SavedOf, Contents;
      var idx := FindSavepoint(name);
      if idx < 0 {
        return false;
      }
      Restore(idx);
      return true;
    }

    /** `dirtyRowPKs`. */
    method DirtyRowPKs(table: string) returns (pks: set<bytes>)
      requires Valid()
      ensures tx == null ==> pks == {}
      ensures tx != null ==> pks == MarkedIn(Value().dirty, table)
    {
      if tx == null || table !in dirty {
        return {};
      }
      return dirty[table].pks;
    }

    // ---- Statements inside the transaction, and what they see ----

    lemma ValueIs()
      requires tx != null
      ensures Value() == Tx(tx.pending, Contents(dirty), SavedOf(savepoints))
    {
    }

    /** The marks after a statement: none when it was refused. */
    method MarkWritten(table: string, st: VTable.Statement, r: VTable.Outcome<bytes>)
      requires Valid() && tx != null
      modifies this`dirty, dirty.Values
      ensures Valid() && tx == old(tx) && savepoints == old(savepoints)
      ensures Value() == MarkAll(old(Value()), table, Marks(st, r))
      ensures forall t :: t in dirty ==> fresh(dirty[t]) || dirty[t] in old(dirty.Values)
    {
      hide *;
      MarksOf(Value(), table, st, r);
      if !r.Ok? {
        return;
      }
      if st.UpdateRow? && r.value != st.oldPK {
        MarkRowDirty(table, st.oldPK);
      }
      MarkRowDirty(table, r.value);
    }

    /** INSERT on the transaction's own context, whatever it holds. */
    method Insert(table: string, tbl: Table, row: Row, ghost rows: Rows, ghost known: bool) returns (r: VTable.Outcome<bytes>)
      requires Valid() && tx != null && VTable.Known(tx.View(), tbl, rows, known) && VTable.Tidy(tx.View(), tbl) && RowFits(tbl, row)
      modifies this`dirty, dirty.Values, tx
      ensures Valid() && tx == old(tx) && savepoints == old(savepoints)
      ensures forall t :: t in dirty ==> fresh(dirty[t]) || dirty[t] in old(dirty.Values)
      ensures Did(tx.committed, old(Value()), Value(), table, tbl, VTable.InsertRow(row), r)
      ensures known ==> (r.UniqueViolation? <==> Conflict(tbl, rows, KeyOf(tbl, row), row))
      ensures known && r.Ok? && r.value !in rows ==> StoreIs(tx.View(), tbl, rows[r.value := row])
    {
      hide *;
      ghost var before := Value();
      ValueIs();
      VTable.KnownIndexes(tx.View(), tbl, rows, known);
      ViewIs(tx);
      ghost var n;
      r, n := VTable.InsertBody(tx, tbl, row, rows, known);
      ViewIs(tx);
      ValueIs();
      ghost var mid := Value();
      MarkWritten(table, VTable.InsertRow(row), r);
      DidIs(tx.committed, before, mid, Value(), table, tbl, VTable.InsertRow(row), r);
    }

    /**
      UPDATE: on the same key, or as a delete and an insert when the key changes. Refused, a key change leaves the old
      row deleted, unmarked, and the indexes before the one that refused already holding the new row.
    */
    method Update(table: string, tbl: Table, oldPK: bytes, row: Row, ghost rows: Rows, ghost known: bool)
      returns (r: VTable.Outcome<bytes>, ghost n: nat)
      requires Valid() && tx != null && VTable.Known(tx.View(), tbl, rows, known) && VTable.Tidy(tx.View(), tbl)
      requires RowFits(tbl, row) && WellKeyed(tbl, oldPK)
      modifies this`dirty, dirty.Values, tx
      ensures Valid() && tx == old(tx) && savepoints == old(savepoints)
      ensures forall t :: t in dirty ==> fresh(dirty[t]) || dirty[t] in old(dirty.Values)
      ensures Did(tx.committed, old(Value()), Value(), table, tbl, VTable.UpdateRow(oldPK, row), r)
      ensures RowsFit(tbl, rows - {oldPK})
      ensures known && oldPK in rows ==> (r.UniqueViolation? <==> Conflict(tbl, rows - {oldPK}, KeyOf(tbl, row), row))
      ensures known && oldPK in rows && r.Ok? && PkPresent(tbl, row) && (r.value == oldPK || r.value !in rows) ==>
                StoreIs(tx.View(), tbl, (rows - {oldPK})[r.value := row])
      ensures known && KeyOf(tbl, row) != oldPK && r.UniqueViolation? ==>
                var left := rows - {oldPK};
                RowsAre(tx.View(), tbl, left)
                && (KeyOf(tbl, row) !in rows ==> n < |tbl.indexes| && VTable.IndexesMoved(tx.View(), tbl, left, left[KeyOf(tbl, row) := row], n))
    {
      hide *;
      ghost var before := Value();
      ValueIs();
      VTable.KnownIndexes(tx.View(), tbl, rows, known);
      VTable.RowsFitDrop(tbl, rows, oldPK);
      VTable.UpdateFits(tbl, oldPK, row);
      ViewIs(tx);
      ghost var s, es := tx.View(), tx.pending;
      n := 0;
      if KeyOf(tbl, row) != oldPK {
        var oldRow;
        r, oldRow, n := VTable.PKChangeBody(tx, tbl, oldPK, row, rows, known);
        if known && r.UniqueViolation? {
          VTable.RefusedKeyChange(s, es, tx.View(), tx.pending, tbl, rows, oldPK, row);
        }
      } else {
        r := VTable.UpdateBody(tx, tbl, oldPK, row, rows, known);
        VTable.ConflictIgnoresSelf(tbl, rows, oldPK, row);
        PutAgain(rows, oldPK, row);
        if oldPK in rows {
          VTable.WholeKeyAmends(tbl, rows, oldPK, row);
        }
      }
      VTable.RanOutcome(s, es, tx.View(), tx.pending, tbl, VTable.UpdateRow(oldPK, row), r);
      ViewIs(tx);
      ValueIs();
      ghost var mid := Value();
      MarkWritten(table, VTable.UpdateRow(oldPK, row), r);
      DidIs(tx.committed, before, mid, Value(), table, tbl, VTable.UpdateRow(oldPK, row), r);
    }

    /** DELETE. */
    method Delete(table: string, tbl: Table, pk: bytes, ghost rows: Rows, ghost known: bool) returns (r: VTable.Outcome<bytes>)
      requires Valid() && tx != null && VTable.Known(tx.View(), tbl, rows, known) && VTable.Tidy(tx.View(), tbl) && WellKeyed(tbl, pk)
      modifies this`dirty, dirty.Values, tx
      ensures Valid() && tx == old(tx) && savepoints == old(savepoints)
      ensures forall t :: t in dirty ==> fresh(dirty[t]) || dirty[t] in old(dirty.Values)
      ensures r.Ok? && r.value == pk && Did(tx.committed, old(Value()), Value(), table, tbl, VTable.DeleteRow(pk), r)
      ensures known ==> StoreIs(tx.View(), tbl, rows - {pk})
    {
      hide *;
      ghost var before := Value();
      ValueIs();
      VTable.KnownIndexes(tx.View(), tbl, rows, known);
      ViewIs(tx);
      var oldRow := VTable.DeleteBody(tx, tbl, pk, rows, known);
      ViewIs(tx);
      ValueIs();
      ghost var mid := Value();
      r := VTable.Ok(pk);
      MarkWritten(table, VTable.DeleteRow(pk), r);
      DidIs(tx.committed, before, mid, Value(), table, tbl, VTable.DeleteRow(pk), r);
    }

    /**
      `filterFullScan` in a transaction: the rows under the committed keys and the dirty rows, as the transaction sees them.
      When every visible row is committed or dirty, the scan is the table's contents.
    */
    method FullScan(table: string, keys: seq<bytes>, tbl: Table, ghost rows: Rows) returns (out: Rows)
      requires Valid() && tx != null && ValidTable(tbl) && ScanOrder(tx.committed, keys)
      ensures forall pk :: pk in out ==> LoadRow(tx.View(), tbl, pk) == Some(out[pk])
      ensures forall pk :: pk in out <==>
                Visible(tx.View(), tbl.tid, pk) && (RowKey(tbl.tid, pk) in keys || pk in MarkedIn(Value().dirty, table))
      ensures (&& RowsFit(tbl, rows) && RowsAre(tx.View(), tbl, rows)
               && Covers(tx.committed, tbl.tid, tx.pending, MarkedIn(Value().dirty, table))) ==> out == rows
    {
      hide *;
      VTable.KeyColumnsExist(tbl);
      var pks := ScannedPKs(keys, tbl.tid);
      var dirtyPKs := DirtyRowPKs(table);
      ValueIs();
      out := LoadRows(tx.View(), tbl, pks + dirtyPKs);
      ValueIs();
      forall pk
        ensures pk in out <==> Visible(tx.View(), tbl.tid, pk) && (RowKey(tbl.tid, pk) in keys || pk in MarkedIn(Value().dirty, table))
      {
        VisibleLoads(tx.View(), tbl, pk);
        assert pk in pks <==> RowKey(tbl.tid, pk) in keys;
        assert pk in out <==> pk in pks + dirtyPKs && LoadRow(tx.View(), tbl, pk).Some?;
      }
      ViewIs(tx);
      if RowsFit(tbl, rows) && RowsAre(tx.View(), tbl, rows) && Covers(tx.committed, tbl.tid, tx.pending, dirtyPKs) {
        LoadedExact(tx.View(), tbl, pks + dirtyPKs, rows);
        forall pk | pk in rows ensures pk in pks + dirtyPKs {
          LoadRowExact(tx.View(), tbl, rows, pk);
          VisibleLoads(tx.View(), tbl, pk);
          CoveredKey(tx.committed, keys, tbl, tx.pending, dirtyPKs, pk);
        }
      }
    }
  }

  lemma ViewIs(ctx: Context)
    ensures ctx.View() == Reduce(ctx.committed, ctx.pending)
  {
  }

  lemma VisibleLoads(s: Store, tbl: Table, pk: bytes)
    requires forall i :: 0 <= i < |tbl.pkCols| ==> tbl.pkCols[i] < |tbl.columns|
    ensures Visible(s, tbl.tid, pk) <==> LoadRow(s, tbl, pk).Some?
  {
  }

  lemma CoveredKey(committed: Store, keys: seq<bytes>, tbl: Table, pending: seq<Effect>, pks: set<bytes>, pk: bytes)
    requires ScanOrder(committed, keys) && Covers(committed, tbl.tid, pending, pks) && Visible(Reduce(committed, pending), tbl.tid, pk)
    ensures RowKey(tbl.tid, pk) in keys || pk in pks
  {
  }

  lemma PutAgain(rows: Rows, pk: bytes, row: Row)
    ensures (rows - {pk})[pk := row] == rows[pk := row]
  {
  }

  lemma MarkOne(tx: Tx, table: string, pk: bytes)
    ensures MarkAll(tx, table, [pk]) == Mark(tx, table, pk)
  {
    assert [pk][..0] == [];
  }

  lemma MarksOf(tx: Tx, table: string, st: VTable.Statement, r: VTable.Outcome<bytes>)
    ensures MarkAll(tx, table, Marks(st, r)) ==
            if !r.Ok? then tx
            else if st.UpdateRow? && r.value != st.oldPK then Mark(Mark(tx, table, st.oldPK), table, r.value)
            else Mark(tx, table, r.value)
  {
    var marks := Marks(st, r);
    if |marks| == 1 {
      MarkOne(tx, table, r.value);
    } else if |marks| == 2 {
      assert marks[..1] == [st.oldPK];
      MarkOne(tx, table, st.oldPK);
    }
  }

  /** A statement was carried out: its effects are pending and its rows are marked, as `Step` says. */
  ghost predicate Did(committed: Store, before: Tx, after: Tx, table: string, tbl: Table, st: VTable.Statement,
                      r: VTable.Outcome<bytes>)
  {
    && ValidTable(tbl) && VTable.StatementFits(tbl, st) && Ran(committed, before.pending, after.pending, tbl, st, r)
    && after == Step(before, Execute(table, st, r, after.pending))
  }

  lemma DidIs(committed: Store, before: Tx, mid: Tx, after: Tx, table: string, tbl: Table, st: VTable.Statement,
              r: VTable.Outcome<bytes>)
    requires ValidTable(tbl) && VTable.Tidy(Reduce(committed, before.pending), tbl)
    requires st.DeleteRow? || RowFits(tbl, st.row)
    requires st.InsertRow? || WellKeyed(tbl, if st.DeleteRow? then st.pk else st.oldPK)
    requires VTable.StatementFits(tbl, st) ==>
               VTable.Ran(Reduce(committed, before.pending), before.pending, Reduce(committed, mid.pending), mid.pending, tbl, st, r)
    requires mid == before.(pending := mid.pending) && after == MarkAll(mid, table, Marks(st, r))
    ensures Did(committed, before, after, table, tbl, st, r)
  {
    MarkAllFrames(mid, table, Marks(st, r));
    hide VTable.Ran, VTable.Tidy, MarkAll, ValidTable, RowFits, WellKeyed;
  }

  // ---- Commands ----

  datatype Command =
    | Exec(table: string, st: VTable.Statement)
    | Save(name: string)
    | Drop(name: string)
    | Back(name: string)

  /** The action is this command, with its outcome. */
  ghost predicate Asked(c: Command, a: Action)
  {
    match c
    case Exec(table, st) => a.Execute? && a.table == table && a.st == st
    case Save(name) => a == Savepoint(name)
    case Drop(name) => a == Release(name)
    case Back(name) => a == RollbackTo(name)
  }

  ghost predicate CommandFits(cat: Catalog, c: Command)
    requires ValidCatalog(cat)
  {
    c.Exec? ==> c.table in cat && VTable.StatementFits(cat[c.table], c.st) && !HalfKeyed(cat[c.table], c.st)
  }

  lemma ExecFits(cat: Catalog, c: Command)
    requires ValidCatalog(cat) && CommandFits(cat, c) && c.Exec?
    ensures c.table in cat && ValidTable(cat[c.table]) && VTable.StatementFits(cat[c.table], c.st) && !HalfKeyed(cat[c.table], c.st)
    ensures c.st.DeleteRow? || RowFits(cat[c.table], c.st.row)
    ensures c.st.InsertRow? || WellKeyed(cat[c.table], if c.st.DeleteRow? then c.st.pk else c.st.oldPK)
  {
    hide ValidTable, RowFits, WellKeyed;
  }

  lemma CoveredTidy(cat: Catalog, committed: Store, tx: Tx, t: string)
    requires ValidCatalog(cat) && Covered(cat, committed, tx) && t in cat
    ensures VTable.Tidy(Reduce(committed, tx.pending), cat[t])
  {
    hide VTable.Tidy, Covers, ValidTable;
  }

  lemma DidHappens(cat: Catalog, committed: Store, before: Tx, after: Tx, c: Command, r: VTable.Outcome<bytes>)
    requires ValidCatalog(cat) && CommandFits(cat, c) && c.Exec? && c.table in cat
    requires Did(committed, before, after, c.table, cat[c.table], c.st, r)
    ensures var a := Execute(c.table, c.st, r, after.pending);
            after == Step(before, a) && Happens(cat, committed, before, a) && WholeKeys(cat, a)
  {
    hide Ran, ValidTable, VTable.StatementFits, HalfKeyed;
  }

  lemma Unknown(s: Store, tbl: Table)
    requires ValidTable(tbl)
    ensures VTable.Known(s, tbl, map[], false)
  {
  }

  method Perform(sess: Session, cat: Catalog, c: Command) returns (ghost a: Action)
    requires sess.Valid() && sess.tx != null && ValidCatalog(cat) && Covered(cat, sess.tx.committed, sess.Value())
    requires CommandFits(cat, c)
    modifies sess, sess.tx, sess.dirty.Values
    ensures sess.Valid() && sess.tx == old(sess.tx)
    ensures forall t :: t in sess.dirty ==> fresh(sess.dirty[t]) || sess.dirty[t] in old(sess.dirty.Values)
    ensures Asked(c, a) && Happens(cat, sess.tx.committed, old(sess.Value()), a) && WholeKeys(cat, a)
    ensures sess.Value() == Step(old(sess.Value()), a)
  {
    hide *;
    ghost var before := sess.Value();
    sess.ValueIs();
    match c {
      case Exec(table, st) =>
        ExecFits(cat, c);
        CoveredTidy(cat, sess.tx.committed, before, table);
        ViewIs(sess.tx);
        var tbl := cat[table];
        Unknown(sess.tx.View(), tbl);
        var r;
        match st {
          case InsertRow(row) =>
            r := sess.Insert(table, tbl, row, map[], false);
          case UpdateRow(oldPK, row) =>
            ghost var n;
            r, n := sess.Update(table, tbl, oldPK, row, map[], false);
          case DeleteRow(pk) =>
            r := sess.Delete(table, tbl, pk, map[], false);
        }
        DidHappens(cat, sess.tx.committed, before, sess.Value(), c, r);
        a := Execute(table, st, r, sess.Value().pending);
      case Save(name) =>
        sess.PushSavepoint(name);
        a := Savepoint(name);
      case Drop(name) =>
        var found := sess.ReleaseSavepoint(name);
        a := Release(name);
      case Back(name) =>
        var found := sess.RollbackToSavepoint(name);
        a := RollbackTo(name);
    }
    AskedFor(cat, sess.tx.committed, before, c, a);
  }

  lemma AskedFor(cat: Catalog, committed: Store, tx: Tx, c: Command, a: Action)
    requires ValidCatalog(cat)
    requires match c
             case Exec(table, st) => a.Execute? && a.table == table && a.st == st && Happens(cat, committed, tx, a) && WholeKeys(cat, a)
             case Save(name) => a == Savepoint(name)
             case Drop(name) => a == Release(name)
             case Back(name) => a == RollbackTo(name)
    ensures Asked(c, a) && Happens(cat, committed, tx, a) && WholeKeys(cat, a)
  {
  }

  lemma RunSnoc(cat: Catalog, committed: Store, tx: Tx, acts: seq<Action>, a: Action)
    requires ValidCatalog(cat) && Runs(cat, committed, tx, acts) && Happens(cat, committed, Run(tx, acts), a) && WholeKeys(cat, a)
    ensures Runs(cat, committed, tx, acts + [a]) && Run(tx, acts + [a]) == Step(Run(tx, acts), a)
  {
    assert (acts + [a])[..|acts|] == acts;
  }

  lemma RunNothing(cat: Catalog, committed: Store, tx: Tx)
    requires ValidCatalog(cat)
    ensures Runs(cat, committed, tx, []) && Run(tx, []) == tx
  {
  }

  /** Any list of commands, carried out one after the other on a session, is such a run. */
  method RunCommands(sess: Session, cat: Catalog, cmds: seq<Command>) returns (ghost acts: seq<Action>)
    requires sess.Valid() && sess.tx != null && ValidCatalog(cat) && Covered(cat, sess.tx.committed, sess.Value())
    requires forall i :: 0 <= i < |cmds| ==> CommandFits(cat, cmds[i])
    modifies sess, sess.tx, sess.dirty.Values
    ensures sess.Valid() && sess.tx == old(sess.tx)
    ensures |acts| == |cmds| && forall i :: 0 <= i < |cmds| ==> Asked(cmds[i], acts[i])
    ensures Runs(cat, sess.tx.committed, old(sess.Value()), acts) && sess.Value() == Run(old(sess.Value()), acts)
    ensures Covered(cat, sess.tx.committed, sess.Value())
  {
    hide *;
    acts := [];
    ghost var committed, start := sess.tx.committed, sess.Value();
    RunNothing(cat, committed, start);
    for i := 0 to |cmds|
      invariant sess.Valid() && sess.tx != null && sess.tx == old(sess.tx)
      invariant forall t :: t in sess.dirty ==> fresh(sess.dirty[t]) || sess.dirty[t] in old(sess.dirty.Values)
      invariant |acts| == i && forall j :: 0 <= j < i ==> Asked(cmds[j], acts[j])
      invariant Runs(cat, committed, start, acts) && sess.Value() == Run(start, acts)
      invariant Covered(cat, committed, sess.Value())
    {
      ghost var a := Perform(sess, cat, cmds[i]);
      RunSnoc(cat, committed, start, acts, a);
      acts := acts + [a];
      RunCovered(cat, committed, start, acts);
    }
  }

  // ---- What statements leave behind ----

  /** `t(a INTEGER, b INTEGER, PRIMARY KEY (a, b))`. */
  function HalfTable(): Table
  {
    Table([3], [Column([97], INTEGER), Column([98], INTEGER)], [0, 1], [])
  }

  lemma HalfRow(row: Row)
    requires row == [Integer(1), Null]
    ensures ValidTable(HalfTable()) && RowFits(HalfTable(), row) && !PkPresent(HalfTable(), row)
    ensures VTable.StatementFits(HalfTable(), VTable.InsertRow(row)) && HalfKeyed(HalfTable(), VTable.InsertRow(row))
    ensures RowsFit(HalfTable(), map[]) && !Conflict(HalfTable(), map[], KeyOf(HalfTable(), row), row)
    ensures VTable.Known(map[], HalfTable(), map[], true) && VTable.Tidy(map[], HalfTable())
  {
    var tbl := HalfTable();
    assert tbl.pkCols[0] == 0 && tbl.pkCols[1] == 1;
    assert ValidTable(tbl) by {
      assert tbl.columns[0].name != tbl.columns[1].name;
    }
    hide ValidTable, KeyOf;
    VTable.EmptyStore(tbl);
    VTable.StoreIsKnown(map[], tbl, map[]);
  }

  lemma HalfInserted(before: Tx, after: Tx, row: Row, r: VTable.Outcome<bytes>)
    requires row == [Integer(1), Null] && before == Tx([], map[], []) && !r.UniqueViolation?
    requires Did(map[], before, after, "t", HalfTable(), VTable.InsertRow(row), r)
    ensures ValidTable(HalfTable()) && RowFits(HalfTable(), row)
    ensures r.NullKey? && MarkedIn(after.dirty, "t") == {}
    ensures Visible(Reduce(map[], after.pending), HalfTable().tid, KeyOf(HalfTable(), row))
  {
    hide *;
    var tbl, st := HalfTable(), VTable.InsertRow(row);
    HalfRow(row);
    DidParts(map[], before, after, "t", tbl, st, r);
    RanParts(map[], before.pending, after.pending, tbl, st, r);
    NullIsRefused(tbl, row, r);
    RefusedVisible(map[], before.pending, after.pending, tbl, st, r, KeyOf(tbl, row));
    NothingMarked(before, after, "t", st, r);
  }

  method InsertHalfKey(row: Row) returns (sess: Session, r: VTable.Outcome<bytes>)
    requires row == [Integer(1), Null]
    ensures sess.Valid() && sess.tx != null && sess.tx.committed == map[] && r.NullKey? && MarkedIn(sess.Value().dirty, "t") == {}
    ensures ValidTable(HalfTable()) && RowFits(HalfTable(), row) && Visible(sess.tx.View(), HalfTable().tid, KeyOf(HalfTable(), row))
  {
    hide *;
    HalfRow(row);
    var ctx := new Context(map[]);
    sess := new Session();
    sess.Begin(ctx);
    r := sess.Insert("t", HalfTable(), row, map[], true);
    HalfInserted(Tx([], map[], []), sess.Value(), row, r);
    sess.ValueIs();
    ViewIs(sess.tx);
  }

  /** INSERT of (1, NULL) in a transaction: refused, yet it leaves a row the transaction sees by key and its full scan misses. */
  method HalfKeyIsMissed() returns (sess: Session, r: VTable.Outcome<bytes>, out: Rows)
    ensures sess.tx != null && r.NullKey? && out == map[]
    ensures ValidTable(HalfTable()) && RowFits(HalfTable(), [Integer(1), Null])
    ensures Visible(sess.tx.View(), HalfTable().tid, KeyOf(HalfTable(), [Integer(1), Null]))
  {
    var row := [Integer(1), Null];
    hide *;
    sess, r := InsertHalfKey(row);
    NoKeys();
    out := sess.FullScan("t", [], HalfTable(), map[]);
  }

  lemma NoKeys()
    ensures ScanOrder(map[], [])
  {
  }

  lemma NullIsRefused(tbl: Table, row: Row, r: VTable.Outcome<bytes>)
    requires ValidTable(tbl) && VTable.StatementFits(tbl, VTable.InsertRow(row)) && VTable.OutcomeFits(tbl, VTable.InsertRow(row), r)
    requires RowFits(tbl, row) && !PkPresent(tbl, row) && !r.UniqueViolation?
    ensures r.NullKey?
  {
  }

  lemma DidParts(committed: Store, before: Tx, after: Tx, table: string, tbl: Table, st: VTable.Statement, r: VTable.Outcome<bytes>)
    requires Did(committed, before, after, table, tbl, st, r)
    ensures ValidTable(tbl) && VTable.StatementFits(tbl, st) && Ran(committed, before.pending, after.pending, tbl, st, r)
    ensures after == Step(before, Execute(table, st, r, after.pending))
  {
  }

  lemma NothingMarked(before: Tx, after: Tx, table: string, st: VTable.Statement, r: VTable.Outcome<bytes>)
    requires after == Step(before, Execute(table, st, r, after.pending)) && !r.Ok?
    ensures after.dirty == before.dirty && (before.dirty == map[] ==> MarkedIn(after.dirty, table) == {})
  {
  }

  /** `t(b TEXT PRIMARY KEY, a INTEGER UNIQUE)`. */
  function UniqueTable(): Table
  {
    Table([2], [Column([98], TEXT), Column([97], INTEGER)], [0], [Index([120], [1], [[97]], true)])
  }

  function UniqueRow(key: byte, v: int64): Row
  {
    [Text([key]), Integer(v)]
  }

  lemma UniqueRowFits(key: byte, v: int64)
    ensures ValidTable(UniqueTable()) && RowFits(UniqueTable(), UniqueRow(key, v)) && PkPresent(UniqueTable(), UniqueRow(key, v))
    ensures |UniqueTable().indexes| == 1 && UniqueTable().indexes[0].unique
    ensures KeyOf(UniqueTable(), UniqueRow(key, v)) == [key] && WellKeyed(UniqueTable(), [key])
    ensures IndexEntry(UniqueTable(), UniqueTable().indexes[0], UniqueRow(key, v)) == Some(EncodeIndexValue(Integer(v), INTEGER))
  {
    var tbl, row := UniqueTable(), UniqueRow(key, v);
    assert tbl.columns[1..] == [Column([97], INTEGER)];
    assert FindColumn(tbl.columns[1..], [97]) == 0;
    assert FindColumn(tbl.columns, [97]) == 1;
    assert ValidIndex(tbl, tbl.indexes[0]);
    assert PkValues(tbl, row) == [Text([key])] && PkAffinities(tbl) == [TEXT];
    assert PkOf(tbl, row) == [key];
    KeyOfPresent(tbl, row);
    assert AllFit(PkValues(tbl, row), PkAffinities(tbl));
    assert IndexValues(tbl, tbl.indexes[0], row) == [Integer(v)] && IndexAffinities(tbl, tbl.indexes[0]) == [INTEGER];
  }

  /** Two rows, committed. */
  method TwoRows() returns (t: VTable.SwytchTable)
    ensures t.tbl == UniqueTable() && t.Valid() && t.rows == map[[7] := UniqueRow(7, 1), [8] := UniqueRow(8, 2)]
  {
    var tbl, first, second := UniqueTable(), UniqueRow(7, 1), UniqueRow(8, 2);
    FirstInsert();
    hide *;
    t := new VTable.SwytchTable(tbl);
    t.ValidIs();
    VTable.StoreIsKnown(t.committed, tbl, t.rows);
    var r := t.Insert(first);
    t.ValidIs();
    VTable.StoreIsKnown(t.committed, tbl, t.rows);
    SecondInsert();
    r := t.Insert(second);
  }

  lemma FirstInsert()
    ensures var tbl, st := UniqueTable(), VTable.InsertRow(UniqueRow(7, 1));
            && ValidTable(tbl) && RowsFit(tbl, map[]) && VTable.Proper(tbl, map[], st)
            && VTable.Outcomes(tbl, map[], st) == map[[7] := UniqueRow(7, 1)]
  {
    UniqueRowFits(7, 1);
    var tbl, row := UniqueTable(), UniqueRow(7, 1);
    hide ValidTable, RowFits, PkPresent, PkOf, KeyOf, UniqueTable, UniqueRow;
    assert VTable.Proper(tbl, map[], VTable.InsertRow(row));
    assert !Conflict(tbl, map[], [7], row);
  }

  lemma SecondInsert()
    requires ValidTable(UniqueTable()) && RowsFit(UniqueTable(), map[[7] := UniqueRow(7, 1)])
    ensures var tbl, st, rows := UniqueTable(), VTable.InsertRow(UniqueRow(8, 2)), map[[7] := UniqueRow(7, 1)];
            && VTable.Proper(tbl, rows, st)
            && VTable.Outcomes(tbl, rows, st) == map[[7] := UniqueRow(7, 1), [8] := UniqueRow(8, 2)]
  {
    var one: int64, two: int64 := 1, 2;
    hide *;
    UniqueRowFits(7, one);
    UniqueRowFits(8, two);
    var tbl, row, rows := UniqueTable(), UniqueRow(8, two), map[[7] := UniqueRow(7, one)];
    assert rows.Keys == {[7]} && [7][0] != [8][0];
    EntriesDiffer(one, two);
    FreshInsert(tbl, rows, row, [8], [7]);
  }

  lemma EntriesDiffer(a: int64, b: int64)
    requires a != b
    ensures EncodeIndexValue(Integer(a), INTEGER) != EncodeIndexValue(Integer(b), INTEGER)
  {
    IndexValueOrder(Integer(a), Integer(b), INTEGER);
  }

  /** A second row goes into a table with one index when the entries differ. */
  lemma FreshInsert(tbl: Table, rows: Rows, row: Row, pk: bytes, q: bytes)
    requires ValidTable(tbl) && RowsFit(tbl, rows) && RowFits(tbl, row) && PkPresent(tbl, row) && KeyOf(tbl, row) == pk
    requires rows.Keys == {q} && q != pk && |tbl.indexes| == 1
    requires RowFits(tbl, rows[q]) && IndexEntry(tbl, tbl.indexes[0], rows[q]) != IndexEntry(tbl, tbl.indexes[0], row)
    ensures VTable.Proper(tbl, rows, VTable.InsertRow(row))
    ensures VTable.Outcomes(tbl, rows, VTable.InsertRow(row)) == rows[pk := row]
  {
    hide RowFits, PkPresent, KeyOf, IndexEntry, ValidTable, RowsFit, WellKeyed;
    assert !Conflict(tbl, rows, pk, row);
  }

  lemma RowTaken(rows: Rows)
    requires rows == map[[7] := UniqueRow(7, 1), [8] := UniqueRow(8, 2)]
    requires ValidTable(UniqueTable()) && RowsFit(UniqueTable(), rows)
    ensures var tbl, row := UniqueTable(), UniqueRow(9, 1);
            && RowFits(tbl, row) && WellKeyed(tbl, [8]) && KeyOf(tbl, row) == [9] && RowsFit(tbl, rows - {[8]})
            && Conflict(tbl, rows - {[8]}, [9], row) && rows - {[8]} == map[[7] := UniqueRow(7, 1)]
            && VTable.StatementFits(tbl, VTable.UpdateRow([8], row)) && PkPresent(tbl, row)
  {
    var one: int64, two: int64 := 1, 2;
    hide *;
    var tbl, row := UniqueTable(), UniqueRow(9, one);
    UniqueRowFits(7, one);
    UniqueRowFits(8, two);
    UniqueRowFits(9, one);
    ClashAfterDrop(tbl, rows, [7], UniqueRow(7, one), [8], UniqueRow(8, two), [9], row);
  }

  lemma ClashAfterDrop(tbl: Table, rows: Rows, a: bytes, ra: Row, b: bytes, rb: Row, c: bytes, row: Row)
    requires ValidTable(tbl) && RowsFit(tbl, rows) && rows == map[a := ra, b := rb] && a != b && a != c
    requires RowFits(tbl, row) && RowFits(tbl, ra) && WellKeyed(tbl, b)
    requires |tbl.indexes| > 0 && tbl.indexes[0].unique && IndexEntry(tbl, tbl.indexes[0], row).Some?
    requires IndexEntry(tbl, tbl.indexes[0], ra) == IndexEntry(tbl, tbl.indexes[0], row)
    ensures RowsFit(tbl, rows - {b}) && Conflict(tbl, rows - {b}, c, row) && rows - {b} == map[a := ra]
    ensures VTable.StatementFits(tbl, VTable.UpdateRow(b, row))
  {
    hide *;
    var left := rows - {b};
    assert left == map[a := ra];
    VTable.RowsFitDrop(tbl, rows, b);
    Clash(tbl, left, c, row, a);
    VTable.UpdateFits(tbl, b, row);
  }

  lemma Clash(tbl: Table, rows: Rows, pk: bytes, row: Row, q: bytes)
    requires ValidTable(tbl) && RowsFit(tbl, rows) && RowFits(tbl, row) && q in rows && q != pk && RowFits(tbl, rows[q])
    requires |tbl.indexes| > 0 && tbl.indexes[0].unique && IndexEntry(tbl, tbl.indexes[0], row).Some?
    requires IndexEntry(tbl, tbl.indexes[0], rows[q]) == IndexEntry(tbl, tbl.indexes[0], row)
    ensures Conflict(tbl, rows, pk, row)
  {
    hide IndexEntry, ValidTable, RowsFit, RowFits;
  }

  lemma KeyChangeRefused(committed: Store, before: Tx, after: Tx, rows: Rows, row: Row, r: VTable.Outcome<bytes>)
    requires before == Tx([], map[], []) && Did(committed, before, after, "t", UniqueTable(), VTable.UpdateRow([8], row), r)
    requires RowFits(UniqueTable(), row) && ValidTable(UniqueTable()) && KeyOf(UniqueTable(), row) == [9] && r.UniqueViolation?
    ensures after.dirty == map[] && MarkedIn(after.dirty, "t") == {}
    ensures Covers(committed, UniqueTable().tid, after.pending, {}) && !PendingDirty(UniqueTable().tid, after.pending, {})
  {
    hide *;
    var tbl, st := UniqueTable(), VTable.UpdateRow([8], row);
    DidParts(committed, before, after, "t", tbl, st, r);
    NothingMarked(before, after, "t", st, r);
    RefusedUpdate(committed, before, after, tbl, st, r);
  }

  method ChangeKey(committed: Store, row: Row, ghost rows: Rows) returns (sess: Session, r: VTable.Outcome<bytes>)
    requires StoreIs(committed, UniqueTable(), rows) && rows == map[[7] := UniqueRow(7, 1), [8] := UniqueRow(8, 2)]
    requires row == UniqueRow(9, 1)
    ensures fresh(sess) && sess.Valid() && sess.tx != null && sess.tx.committed == committed && r.UniqueViolation?
    ensures sess.Value().dirty == map[] && MarkedIn(sess.Value().dirty, "t") == {}
    ensures Covers(committed, UniqueTable().tid, sess.tx.pending, {}) && !PendingDirty(UniqueTable().tid, sess.tx.pending, {})
    ensures RowsFit(UniqueTable(), rows - {[8]}) && RowsAre(sess.tx.View(), UniqueTable(), rows - {[8]})
  {
    hide *;
    VTable.StoreIsKnown(committed, UniqueTable(), rows);
    RowTaken(rows);
    var ctx := new Context(committed);
    sess := new Session();
    sess.Begin(ctx);
    ghost var n;
    r, n := sess.Update("t", UniqueTable(), [8], row, rows, true);
    KeyChangeRefused(committed, Tx([], map[], []), sess.Value(), rows, row, r);
    sess.ValueIs();
  }

  /**
    UPDATE of (8, 2) to (9, 1) in a transaction, where (7, 1) holds the value: refused, and from then on the
    transaction no longer has the row (8, 2), though nothing is marked dirty.
  */
  method KeyChangeLosesTheRow() returns (t: VTable.SwytchTable, sess: Session, r: VTable.Outcome<bytes>, out: Rows)
    ensures t.tbl == UniqueTable() && t.Valid() && t.rows == map[[7] := UniqueRow(7, 1), [8] := UniqueRow(8, 2)]
    ensures sess.tx != null && sess.tx.committed == t.committed && r.UniqueViolation?
    ensures sess.Value().dirty == map[] && out == map[[7] := UniqueRow(7, 1)]
    ensures !PendingDirty(UniqueTable().tid, sess.tx.pending, {})
  {
    var row := UniqueRow(9, 1);
    hide *;
    t := TwoRows();
    t.ValidIs();
    VTable.StoreIsKnown(t.committed, t.tbl, t.rows);
    RowTaken(t.rows);
    sess, r := ChangeKey(t.committed, row, t.rows);
    var keys := SortedKeys(t.committed);
    sess.ValueIs();
    out := sess.FullScan("t", keys, t.tbl, t.rows - {[8]});
    sess.ValueIs();
  }

  lemma RefusedUpdate(committed: Store, before: Tx, after: Tx, tbl: Table, st: VTable.Statement, r: VTable.Outcome<bytes>)
    requires ValidTable(tbl) && VTable.StatementFits(tbl, st) && Ran(committed, before.pending, after.pending, tbl, st, r)
    requires before.pending == [] && r.UniqueViolation? && st.UpdateRow? && KeyOf(tbl, st.row) != st.oldPK
    ensures Covers(committed, tbl.tid, after.pending, {}) && !PendingDirty(tbl.tid, after.pending, {})
  {
    assert SetOf(Marks(st, r)) == {} && {} + SetOf(Marks(st, r)) == {};
    assert !LeavesBare(committed, tbl, st, r, {}) && WritesUnmarked(tbl, st, r, {});
    assert Covers(committed, tbl.tid, [], {}) && PendingDirty(tbl.tid, [], {});
    hide *;
    StatementCovers(committed, before.pending, after.pending, tbl, st, r, {});
    StatementMarks(committed, before.pending, after.pending, tbl, st, r, {});
  }

  lemma ReplacesEntry(rows: Rows, row: Row)
    requires rows == map[[7] := UniqueRow(7, 1), [8] := UniqueRow(8, 2)] && row == UniqueRow(7, 3)
    requires ValidTable(UniqueTable()) && RowsFit(UniqueTable(), rows)
    ensures RowFits(UniqueTable(), row) && PkPresent(UniqueTable(), row) && KeyOf(UniqueTable(), row) == [7]
    ensures RowFits(UniqueTable(), rows[[7]])
    ensures !Conflict(UniqueTable(), rows, [7], row) && !VTable.KeepsEntries(UniqueTable(), rows[[7]], row)
    ensures VTable.Merged(UniqueTable(), rows, [7], row) == row
  {
    var one: int64, two: int64, three: int64 := 1, 2, 3;
    assert VTable.Overlaid(UniqueRow(7, 1), UniqueRow(7, 3)) == UniqueRow(7, 3);
    assert VTable.Merged(UniqueTable(), rows, [7], row) == row by {
      UniqueRowFits(7, one);
      UniqueRowFits(7, three);
    }
    hide *;
    UniqueRowFits(7, one);
    UniqueRowFits(8, two);
    UniqueRowFits(7, three);
    EntriesDiffer(one, three);
    EntriesDiffer(two, three);
    NewTuple(UniqueTable(), rows, [7], [8], row);
  }

  lemma NewTuple(tbl: Table, rows: Rows, pk: bytes, q: bytes, row: Row)
    requires ValidTable(tbl) && RowsFit(tbl, rows) && RowFits(tbl, row) && pk in rows && RowFits(tbl, rows[pk])
    requires rows.Keys == {pk, q} && RowFits(tbl, rows[q]) && |tbl.indexes| == 1
    requires IndexEntry(tbl, tbl.indexes[0], row).Some? && IndexEntry(tbl, tbl.indexes[0], rows[pk]).Some?
    requires IndexEntry(tbl, tbl.indexes[0], row) != IndexEntry(tbl, tbl.indexes[0], rows[pk])
    requires IndexEntry(tbl, tbl.indexes[0], row) != IndexEntry(tbl, tbl.indexes[0], rows[q])
    ensures !Conflict(tbl, rows, pk, row) && !VTable.KeepsEntries(tbl, rows[pk], row)
  {
    hide IndexEntry, RowsFit, RowFits, FindColumn, VTable.Overlaid;
    assert !VTable.EntryKept(tbl, tbl.indexes[0], rows[pk], row);
  }

  /** INSERT of (7, 3) where (7, 1) is live: accepted, and the index still lists the row under 1 as well. */
  method ReinsertLeavesEntry() returns (t: VTable.SwytchTable, ctx: Context, r: VTable.Outcome<bytes>)
    ensures t.tbl == UniqueTable() && t.Valid() && t.rows == map[[7] := UniqueRow(7, 1), [8] := UniqueRow(8, 2)]
    ensures ctx.committed == t.committed && r.Ok? && r.value == [7]
    ensures !StoreIs(ctx.View(), UniqueTable(), t.rows[[7] := UniqueRow(7, 3)])
  {
    var row := UniqueRow(7, 3);
    hide *;
    t := TwoRows();
    t.ValidIs();
    VTable.StoreIsKnown(t.committed, t.tbl, t.rows);
    ReplacesEntry(t.rows, row);
    ctx := new Context(t.committed);
    ghost var n;
    r, n := VTable.InsertBody(ctx, t.tbl, row, t.rows, true);
    VTable.InsertFits(t.tbl, row);
    VTable.RanOutcome(t.committed, [], ctx.View(), ctx.pending, t.tbl, VTable.InsertRow(row), r);
    Accepted(t.tbl, row, r);
  }

  lemma Accepted(tbl: Table, row: Row, r: VTable.Outcome<bytes>)
    requires ValidTable(tbl) && VTable.StatementFits(tbl, VTable.InsertRow(row)) && VTable.OutcomeFits(tbl, VTable.InsertRow(row), r)
    requires RowFits(tbl, row) && PkPresent(tbl, row) && !r.UniqueViolation?
    ensures r.Ok? && r.value == KeyOf(tbl, row)
  {
  }
}
