/** ALTER TABLE RENAME/DROP COLUMN and CREATE INDEX (sql/ddl.go): the layout follows the schema. */
module Ddl {
  import opened Common
  import opened Bytes
  import opened Encoding
  import opened Keys
  import opened Engine
  import opened Schema
  import opened VTable
  import opened Executor

  datatype DdlError = NoSuchColumn | DuplicateColumn | PrimaryKeyColumn | DuplicateIndex | WouldCollide

  datatype Result<T> = Done(value: T) | Failed(error: DdlError)

  // ---- Names: `strings.EqualFold` on ASCII ----

  function FoldByte(b: byte): byte { if 65 <= b <= 90 then b + 32 else b }

  function Fold(s: bytes): bytes { seq(|s|, i requires 0 <= i < |s| => FoldByte(s[i])) }

  predicate EqualFold(a: bytes, b: bytes) { Fold(a) == Fold(b) }

  /** Column names differ even when case is ignored. */
  ghost predicate FoldDistinct(cols: seq<Column>)
  {
    forall c, d :: 0 <= c < d < |cols| ==> !EqualFold(cols[c].name, cols[d].name)
  }

  // ---- What every statement does to the rows: one field change per row key ----

  /** Row fields have gone through `change`, for the keys in `done`; index entries are untouched. */
  ghost predicate RowsChanged(s0: Store, s: Store, tid: ID, done: seq<bytes>, change: Fields -> Fields)
  {
    forall key :: FieldsAt(s, key) ==
      if key in done && ParseRowKey(key, tid).Some? then change(FieldsAt(s0, key)) else FieldsAt(s0, key)
  }

  lemma RowsChangedAll(s0: Store, s: Store, keys: seq<bytes>, tid: ID, change: Fields -> Fields)
    requires ScanOrder(s0, keys) && RowsChanged(s0, s, tid, keys, change) && change(map[]) == map[]
    ensures forall pk :: FieldsAt(s, RowKey(tid, pk)) == change(FieldsAt(s0, RowKey(tid, pk)))
    ensures forall iid, encoded :: FieldsAt(s, IndexKey(iid, encoded)) == FieldsAt(s0, IndexKey(iid, encoded))
  {
    forall pk
      ensures FieldsAt(s, RowKey(tid, pk)) == change(FieldsAt(s0, RowKey(tid, pk)))
    {
      assert ParseRowKey(RowKey(tid, pk), tid) == Some(pk);
    }
    forall iid, encoded
      ensures FieldsAt(s, IndexKey(iid, encoded)) == FieldsAt(s0, IndexKey(iid, encoded))
    {
      var key := IndexKey(iid, encoded);
      assert key[0] == INDEX;
      assert forall pk :: RowKey(tid, pk)[0] == ROW;
      assert ParseRowKey(key, tid).None?;
    }
  }

  lemma RowsChangedStep(s0: Store, s: Store, s': Store, keys: seq<bytes>, i: nat, tid: ID, change: Fields -> Fields)
    requires ScanOrder(s0, keys) && i < |keys| && RowsChanged(s0, s, tid, keys[..i], change)
    requires forall key :: key != keys[i] ==> FieldsAt(s', key) == FieldsAt(s, key)
    requires FieldsAt(s', keys[i]) ==
               if ParseRowKey(keys[i], tid).Some? then change(FieldsAt(s, keys[i])) else FieldsAt(s, keys[i])
    ensures RowsChanged(s0, s', tid, keys[..i + 1], change)
  {
    assert keys[..i + 1] == keys[..i] + [keys[i]];
    forall k | 0 <= k < i
      ensures keys[k] != keys[i]
    {
      assert Compare(keys[k], keys[i]) < 0;
    }
  }

  // ---- RENAME COLUMN ----

  function RenamedField(f: Fields, from: bytes, to: bytes): (r: Fields)
  {
    if from in f then f[to := f[from]] - {from} else f
  }

  function RenamedNames(names: seq<bytes>, from: bytes, to: bytes): (r: seq<bytes>)
    ensures |r| == |names|
    ensures forall i :: 0 <= i < |names| ==> r[i] == if EqualFold(names[i], from) then to else names[i]
  {
    seq(|names|, i requires 0 <= i < |names| => if EqualFold(names[i], from) then to else names[i])
  }

  function RenamedTable(tbl: Table, c: nat, to: bytes): (r: Table)
    requires c < |tbl.columns|
  {
    var from := tbl.columns[c].name;
    tbl.(columns := tbl.columns[c := tbl.columns[c].(name := to)],
         indexes := seq(|tbl.indexes|, j requires 0 <= j < |tbl.indexes| =>
           tbl.indexes[j].(columns := RenamedNames(tbl.indexes[j].columns, from, to))))
  }

  /** The target of a rename: the column called `from`, with `to` free. */
  method FindRename(tbl: Table, from: bytes, to: bytes) returns (r: Result<nat>)
    requires FoldDistinct(tbl.columns) && !EqualFold(from, to)
    ensures r.Done? ==> r.value < |tbl.columns| && EqualFold(tbl.columns[r.value].name, from)
                        && forall d :: 0 <= d < |tbl.columns| ==> !EqualFold(tbl.columns[d].name, to)
    ensures r == Failed(DuplicateColumn) <==> exists d :: 0 <= d < |tbl.columns| && EqualFold(tbl.columns[d].name, to)
    ensures r == Failed(NoSuchColumn) ==> forall d :: 0 <= d < |tbl.columns| ==> !EqualFold(tbl.columns[d].name, from)
    ensures r.Failed? ==> r.error in {DuplicateColumn, NoSuchColumn}
  {
    var found := -1;
    for i := 0 to |tbl.columns|
      invariant -1 <= found < i
      invariant found >= 0 ==> EqualFold(tbl.columns[found].name, from)
      invariant found == -1 ==> forall d :: 0 <= d < i ==> !EqualFold(tbl.columns[d].name, from)
      invariant forall d :: 0 <= d < i ==> !EqualFold(tbl.columns[d].name, to)
    {
      if EqualFold(tbl.columns[i].name, from) {
        found := i;
      } else if EqualFold(tbl.columns[i].name, to) {
        return Failed(DuplicateColumn);
      }
    }
    if found < 0 {
      return Failed(NoSuchColumn);
    }
    return Done(found);
  }

  ghost predicate CanRename(tbl: Table, c: nat, to: bytes)
  {
    && ValidTable(tbl) && FoldDistinct(tbl.columns) && c < |tbl.columns|
    && forall d :: 0 <= d < |tbl.columns| ==> !EqualFold(tbl.columns[d].name, to)
  }

  lemma RenamedOrd(tbl: Table, c: nat, to: bytes, name: bytes)
    requires CanRename(tbl, c, to) && FindColumn(tbl.columns, name) >= 0
    ensures var name' := if EqualFold(name, tbl.columns[c].name) then to else name;
            FindColumn(RenamedTable(tbl, c, to).columns, name') == FindColumn(tbl.columns, name)
  {
    var cols, cols' := tbl.columns, RenamedTable(tbl, c, to).columns;
    var k := FindColumn(cols, name);
    var name' := if EqualFold(name, cols[c].name) then to else name;
    assert k == c <==> EqualFold(name, cols[c].name);
    assert forall d :: 0 <= d < |cols| ==> cols[d].name != to;
    assert cols'[k].name == name';
    forall d | 0 <= d < |cols| && d != k
      ensures cols'[d].name != name'
    {
      assert !EqualFold(cols[d].name, cols[k].name);
    }
    FirstIsOnly(cols', name', k);
  }

  lemma FirstIsOnly(cols: seq<Column>, name: bytes, k: nat)
    requires k < |cols| && cols[k].name == name
    requires forall d :: 0 <= d < |cols| && d != k ==> cols[d].name != name
    ensures FindColumn(cols, name) == k
  {
  }

  lemma RenamedValid(tbl: Table, c: nat, to: bytes)
    requires CanRename(tbl, c, to)
    ensures ValidTable(RenamedTable(tbl, c, to))
  {
    var tbl' := RenamedTable(tbl, c, to);
    assert forall d :: 0 <= d < |tbl.columns| ==> tbl.columns[d].name != to;
    forall j | 0 <= j < |tbl.indexes|
      ensures ValidIndex(tbl', tbl'.indexes[j])
    {
      var idx, idx' := tbl.indexes[j], tbl'.indexes[j];
      assert ValidIndex(tbl, idx);
      forall i | 0 <= i < |idx.columns|
        ensures FindColumn(tbl'.columns, idx'.columns[i]) == FindColumn(tbl.columns, idx.columns[i]) >= 0
      {
        RenamedOrd(tbl, c, to, idx.columns[i]);
      }
      forall i, k | 0 <= i < k < |idx.columns|
        ensures idx'.columns[i] != idx'.columns[k]
      {
        assert idx.columns[i] != idx.columns[k];
        assert FindColumn(tbl.columns, idx.columns[i]) != FindColumn(tbl.columns, idx.columns[k]);
      }
    }
  }

  /** Renaming changes no entry of any row in any index, and no primary key. */
  lemma RenamedEntries(tbl: Table, c: nat, to: bytes, j: nat, row: Row)
    requires CanRename(tbl, c, to) && j < |tbl.indexes| && RowFits(tbl, row)
    requires ValidTable(RenamedTable(tbl, c, to))
    ensures var tbl' := RenamedTable(tbl, c, to);
            RowFits(tbl', row) && IndexEntry(tbl', tbl'.indexes[j], row) == IndexEntry(tbl, tbl.indexes[j], row)
  {
    var tbl' := RenamedTable(tbl, c, to);
    var idx, idx' := tbl.indexes[j], tbl'.indexes[j];
    forall i | 0 <= i < |idx.columns|
      ensures IndexOrd(tbl', idx', i) == IndexOrd(tbl, idx, i)
    {
      RenamedOrd(tbl, c, to, idx.columns[i]);
    }
    assert IndexValues(tbl', idx', row) == IndexValues(tbl, idx, row);
    assert IndexAffinities(tbl', idx') == IndexAffinities(tbl, idx);
  }

  lemma RenamedRow(tbl: Table, c: nat, to: bytes, row: Row, f: Fields)
    requires CanRename(tbl, c, to) && RowIs(f, tbl, row)
    ensures RowIs(RenamedField(f, tbl.columns[c].name, to), RenamedTable(tbl, c, to), row)
  {
    var tbl', f' := RenamedTable(tbl, c, to), RenamedField(f, tbl.columns[c].name, to);
    FindColumnAt(tbl, c);
    assert forall d :: 0 <= d < |tbl.columns| ==> tbl.columns[d].name != to;
    assert to !in f;
    forall d | 0 <= d < |row| && d != c
      ensures tbl.columns[d].name != tbl.columns[c].name
    {
      FindColumnAt(tbl, d);
    }
    forall n | n in f'
      ensures FindColumn(tbl'.columns, n) >= 0
    {
      if n == to {
        assert tbl'.columns[c].name == to;
      } else {
        var k := FindColumn(tbl.columns, n);
        assert k != c && tbl'.columns[k].name == n;
      }
    }
  }

  /** The rewrite of one row key. */
  method RenameInRow(ctx: Context, key: bytes, from: bytes, to: bytes)
    modifies ctx
    requires from != to
    ensures FieldsAt(ctx.View(), key) == RenamedField(old(FieldsAt(ctx.View(), key)), from, to)
    ensures forall k :: k != key ==> FieldsAt(ctx.View(), k) == old(FieldsAt(ctx.View(), k))
  {
    var snap := ctx.GetSnapshot(key);
    if from in snap {
      ctx.Emit(Insert(key, to, snap[from]));
      ctx.Emit(Remove(key, from));
    }
  }

  /** The row loop of `handleAlterRenameColumn`. */
  method RenameRows(ctx: Context, keys: seq<bytes>, tid: ID, from: bytes, to: bytes)
    requires ScanOrder(ctx.View(), keys) && from != to
    modifies ctx
    ensures RowsChanged(old(ctx.View()), ctx.View(), tid, keys, f => RenamedField(f, from, to))
  {
    ghost var s0 := ctx.View();
    ghost var change := (f: Fields) => RenamedField(f, from, to);
    for i := 0 to |keys|
      invariant RowsChanged(s0, ctx.View(), tid, keys[..i], change)
    {
      ghost var s := ctx.View();
      if ParseRowKey(keys[i], tid).Some? {
        RenameInRow(ctx, keys[i], from, to);
      }
      RowsChangedStep(s0, s, ctx.View(), keys, i, tid, change);
    }
    assert keys[..|keys|] == keys;
  }

  /** RENAME COLUMN leaves every row as it was, under a schema that agrees with the rewritten store. */
  method RenameColumn(ctx: Context, keys: seq<bytes>, tbl: Table, from: bytes, to: bytes, ghost rows: Rows)
    returns (r: Result<Table>)
    requires StoreIs(ctx.View(), tbl, rows) && ScanOrder(ctx.View(), keys) && FoldDistinct(tbl.columns)
    modifies ctx
    ensures r.Done? ==> StoreIs(ctx.View(), r.value, rows)
    ensures r.Done? && !EqualFold(from, to) ==>
              exists c :: 0 <= c < |tbl.columns| && EqualFold(tbl.columns[c].name, from) && r.value == RenamedTable(tbl, c, to)
    ensures r.Failed? ==> ctx.View() == old(ctx.View())
    ensures EqualFold(from, to) ==> r == Done(tbl)
    ensures r == Failed(DuplicateColumn) <==>
              !EqualFold(from, to) && exists d :: 0 <= d < |tbl.columns| && EqualFold(tbl.columns[d].name, to)
    ensures r.Failed? && r.error != DuplicateColumn <==>
              !EqualFold(from, to) && forall d :: 0 <= d < |tbl.columns| ==> !EqualFold(tbl.columns[d].name, to) && !EqualFold(tbl.columns[d].name, from)
    ensures r.Failed? ==> r.error in {DuplicateColumn, NoSuchColumn}
  {
    if EqualFold(from, to) {
      return Done(tbl);
    }
    var target := FindRename(tbl, from, to);
    if target.Failed? {
      return Failed(target.error);
    }
    var c := target.value;
    ghost var s0 := ctx.View();
    RenameRows(ctx, keys, tbl.tid, tbl.columns[c].name, to);
    RenamedStore(s0, ctx.View(), keys, tbl, c, to, rows);
    return Done(RenamedTable(tbl, c, to));
  }

  lemma RenamedStore(s0: Store, s: Store, keys: seq<bytes>, tbl: Table, c: nat, to: bytes, rows: Rows)
    requires StoreIs(s0, tbl, rows) && ScanOrder(s0, keys) && CanRename(tbl, c, to)
    requires RowsChanged(s0, s, tbl.tid, keys, f => RenamedField(f, tbl.columns[c].name, to))
    ensures StoreIs(s, RenamedTable(tbl, c, to), rows)
  {
    var tbl' := RenamedTable(tbl, c, to);
    RenamedValid(tbl, c, to);
    RowsChangedAll(s0, s, keys, tbl.tid, f => RenamedField(f, tbl.columns[c].name, to));
    assert PkAffinities(tbl') == PkAffinities(tbl);
    forall pk | pk in rows
      ensures RowFits(tbl', rows[pk]) && PkPresent(tbl', rows[pk]) && PkOf(tbl', rows[pk]) == pk
    {
      assert PkValues(tbl', rows[pk]) == PkValues(tbl, rows[pk]);
    }
    forall pk
      ensures RowAt(s, tbl', rows, pk)
    {
      assert RowAt(s0, tbl, rows, pk);
      if pk in rows {
        RenamedRow(tbl, c, to, rows[pk], FieldsAt(s0, RowKey(tbl.tid, pk)));
      }
    }
    forall j | 0 <= j < |tbl.indexes|
      ensures IndexIs(s, tbl', rows, tbl'.indexes[j])
      ensures forall pk :: pk in rows ==> IndexEntry(tbl', tbl'.indexes[j], rows[pk]) == IndexEntry(tbl, tbl.indexes[j], rows[pk])
    {
      assert IndexIs(s0, tbl, rows, tbl.indexes[j]);
      forall pk | pk in rows
        ensures IndexEntry(tbl', tbl'.indexes[j], rows[pk]) == IndexEntry(tbl, tbl.indexes[j], rows[pk])
      {
        RenamedEntries(tbl, c, to, j, rows[pk]);
      }
      forall encoded
        ensures FieldsAt(s, IndexKey(tbl'.indexes[j].iid, encoded)).Keys == Entries(tbl', rows, tbl'.indexes[j], encoded)
      {
        assert Entries(tbl', rows, tbl'.indexes[j], encoded) == Entries(tbl, rows, tbl.indexes[j], encoded);
      }
    }
  }

  // ---- DROP COLUMN ----

  function Without<T>(s: seq<T>, c: nat): (r: seq<T>)
    requires c < |s|
    ensures |r| == |s| - 1
    ensures forall i :: 0 <= i < |r| ==> r[i] == if i < c then s[i] else s[i + 1]
  {
    s[..c] + s[c + 1..]
  }

  function DroppedField(f: Fields, name: bytes): (r: Fields) { f - {name} }

  /** Where ordinal `d` stands once ordinal `c` is gone. */
  function Shifted(d: nat, c: nat): (r: nat)
    requires d != c
  {
    if d > c then d - 1 else d
  }

  function ShiftedAll(ords: seq<nat>, c: nat): (r: seq<nat>)
    requires c !in ords
    ensures |r| == |ords| && forall i :: 0 <= i < |ords| ==> r[i] == Shifted(ords[i], c)
  {
    seq(|ords|, i requires 0 <= i < |ords| => Shifted(ords[i], c))
  }

  predicate Mentions(idx: Index, name: bytes)
  {
    exists i :: 0 <= i < |idx.columns| && EqualFold(idx.columns[i], name)
  }

  function Surviving(indexes: seq<Index>, name: bytes): (r: seq<Index>)
    ensures forall j :: 0 <= j < |r| ==> r[j] in indexes && !Mentions(r[j], name)
    ensures forall idx :: idx in indexes && !Mentions(idx, name) ==> idx in r
  {
    if indexes == [] then []
    else (if Mentions(indexes[0], name) then [] else [indexes[0]]) + Surviving(indexes[1..], name)
  }

  ghost predicate Separate(indexes: seq<Index>)
  {
    forall j, k :: 0 <= j < k < |indexes| ==> indexes[j].iid != indexes[k].iid && indexes[j].name != indexes[k].name
  }

  /** Survivors keep their pairwise differences. */
  lemma {:induction false} SurvivingSeparate(indexes: seq<Index>, name: bytes)
    requires Separate(indexes)
    ensures Separate(Surviving(indexes, name))
  {
    if indexes != [] {
      SurvivingSeparate(indexes[1..], name);
      var r, rest := Surviving(indexes, name), Surviving(indexes[1..], name);
      forall k | 0 <= k < |rest|
        ensures rest[k].iid != indexes[0].iid && rest[k].name != indexes[0].name
      {
        assert rest[k] in indexes[1..];
        var j :| 0 <= j < |indexes| - 1 && indexes[1..][j] == rest[k];
        assert indexes[j + 1] == rest[k];
      }
      assert r == if Mentions(indexes[0], name) then rest else [indexes[0]] + rest;
    }
  }

  function DroppedTable(tbl: Table, c: nat): (r: Table)
    requires c < |tbl.columns| && c !in tbl.pkCols
  {
    tbl.(columns := Without(tbl.columns, c), pkCols := ShiftedAll(tbl.pkCols, c),
         indexes := Surviving(tbl.indexes, tbl.columns[c].name))
  }

  ghost function DroppedRows(rows: Rows, c: nat): (r: Rows)
    requires forall pk :: pk in rows ==> c < |rows[pk]|
  {
    map pk | pk in rows :: Without(rows[pk], c)
  }

  ghost predicate CanDrop(tbl: Table, c: nat)
  {
    ValidTable(tbl) && FoldDistinct(tbl.columns) && c < |tbl.columns| && c !in tbl.pkCols
  }

  lemma DroppedOrd(tbl: Table, c: nat, name: bytes)
    requires CanDrop(tbl, c) && FindColumn(tbl.columns, name) >= 0 && name != tbl.columns[c].name
    ensures FindColumn(tbl.columns, name) != c
    ensures FindColumn(Without(tbl.columns, c), name) == Shifted(FindColumn(tbl.columns, name), c)
  {
    var k := FindColumn(tbl.columns, name);
    var cols := Without(tbl.columns, c);
    var k' := Shifted(k, c);
    assert cols[k'] == tbl.columns[k];
    forall d | 0 <= d < |cols| && d != k'
      ensures cols[d].name != name
    {
      assert cols[d] == tbl.columns[if d < c then d else d + 1];
    }
    FirstIsOnly(cols, name, k');
  }

  lemma SurvivorNames(tbl: Table, c: nat, idx: Index, i: nat)
    requires CanDrop(tbl, c) && ValidIndex(tbl, idx) && !Mentions(idx, tbl.columns[c].name) && i < |idx.columns|
    ensures idx.columns[i] != tbl.columns[c].name
  {
  }

  lemma DroppedValid(tbl: Table, c: nat)
    requires CanDrop(tbl, c)
    ensures ValidTable(DroppedTable(tbl, c))
  {
    var tbl' := DroppedTable(tbl, c);
    SurvivingSeparate(tbl.indexes, tbl.columns[c].name);
    assert Separate(tbl'.indexes);
    forall j | 0 <= j < |tbl'.indexes|
      ensures ValidIndex(tbl', tbl'.indexes[j])
    {
      var idx := tbl'.indexes[j];
      assert idx in tbl.indexes;
      forall i | 0 <= i < |idx.columns|
        ensures FindColumn(tbl'.columns, idx.columns[i]) >= 0
      {
        SurvivorNames(tbl, c, idx, i);
        DroppedOrd(tbl, c, idx.columns[i]);
      }
    }
    forall i, k | 0 <= i < k < |tbl'.pkCols|
      ensures tbl'.pkCols[i] != tbl'.pkCols[k]
    {
      assert tbl.pkCols[i] in tbl.pkCols && tbl.pkCols[k] in tbl.pkCols;
      assert tbl.pkCols[i] != tbl.pkCols[k];
    }
    forall i | 0 <= i < |tbl'.pkCols|
      ensures tbl'.pkCols[i] < |tbl'.columns|
    {
      assert tbl.pkCols[i] in tbl.pkCols;
    }
  }

  /** A surviving index lists the shortened row under the same entry. */
  lemma DroppedEntry(tbl: Table, c: nat, idx: Index, row: Row)
    requires CanDrop(tbl, c) && idx in tbl.indexes && !Mentions(idx, tbl.columns[c].name) && RowFits(tbl, row)
    requires ValidIndex(DroppedTable(tbl, c), idx)
    ensures ValidIndex(tbl, idx) && RowFits(DroppedTable(tbl, c), Without(row, c))
    ensures IndexEntry(DroppedTable(tbl, c), idx, Without(row, c)) == IndexEntry(tbl, idx, row)
  {
    hide EncodeKey, FindColumn, Mentions, ShiftedAll, FoldDistinct;
    var tbl' := DroppedTable(tbl, c);
    forall i | 0 <= i < |idx.columns|
      ensures IndexOrd(tbl, idx, i) != c && IndexOrd(tbl', idx, i) == Shifted(IndexOrd(tbl, idx, i), c)
    {
      SurvivorNames(tbl, c, idx, i);
      DroppedOrd(tbl, c, idx.columns[i]);
    }
    assert IndexValues(tbl', idx, Without(row, c)) == IndexValues(tbl, idx, row);
    assert IndexAffinities(tbl', idx) == IndexAffinities(tbl, idx);
  }

  lemma DroppedKey(tbl: Table, c: nat, row: Row)
    requires CanDrop(tbl, c) && ValidTable(DroppedTable(tbl, c)) && RowFits(tbl, row) && PkPresent(tbl, row)
    ensures var tbl', row' := DroppedTable(tbl, c), Without(row, c);
            RowFits(tbl', row') && PkPresent(tbl', row') && PkOf(tbl', row') == PkOf(tbl, row)
  {
    var tbl', row' := DroppedTable(tbl, c), Without(row, c);
    forall i | 0 <= i < |tbl.pkCols|
      ensures row'[tbl'.pkCols[i]] == row[tbl.pkCols[i]] && tbl'.columns[tbl'.pkCols[i]] == tbl.columns[tbl.pkCols[i]]
    {
      assert tbl.pkCols[i] in tbl.pkCols;
    }
    assert PkValues(tbl', row') == PkValues(tbl, row) && PkAffinities(tbl') == PkAffinities(tbl);
  }

  lemma DroppedRow(tbl: Table, c: nat, row: Row, f: Fields)
    requires CanDrop(tbl, c) && RowIs(f, tbl, row)
    ensures RowIs(f - {tbl.columns[c].name}, DroppedTable(tbl, c), Without(row, c))
  {
    var tbl', row', f' := DroppedTable(tbl, c), Without(row, c), f - {tbl.columns[c].name};
    hide ValidTable, ShiftedAll, Surviving, FoldDistinct, FindColumn, CanDrop, Without;
    DroppedShape(tbl, c, row);
    forall d | 0 <= d < |row'|
      ensures if row'[d] == Null then tbl'.columns[d].name !in f'
              else tbl'.columns[d].name in f' && f'[tbl'.columns[d].name] == Stored(row'[d])
    {
      var d' := if d < c then d else d + 1;
      assert row'[d] == row[d'] && tbl'.columns[d] == tbl.columns[d'] && tbl.columns[d'].name != tbl.columns[c].name;
    }
    forall n | n in f'
      ensures FindColumn(tbl'.columns, n) >= 0
    {
      DroppedOrd(tbl, c, n);
      assert FindColumn(tbl.columns, n) >= 0;
    }
  }

  lemma DroppedShape(tbl: Table, c: nat, row: Row)
    requires CanDrop(tbl, c) && |row| == |tbl.columns|
    ensures var tbl', row' := DroppedTable(tbl, c), Without(row, c);
            && |row'| == |tbl'.columns| == |row| - 1 && tbl'.columns == Without(tbl.columns, c)
            && forall d :: 0 <= d < |row'| ==>
                 var d' := if d < c then d else d + 1;
                 row'[d] == row[d'] && tbl'.columns[d] == tbl.columns[d'] && tbl.columns[d'].name != tbl.columns[c].name
  {
    forall d | 0 <= d < |tbl.columns| && d != c
      ensures tbl.columns[d].name != tbl.columns[c].name
    {
      FindColumnAt(tbl, d);
      FindColumnAt(tbl, c);
    }
  }

  /** The row loop of `handleAlterDropColumn`. */
  method DropFieldInRows(ctx: Context, keys: seq<bytes>, tid: ID, name: bytes)
    requires ScanOrder(ctx.View(), keys)
    modifies ctx
    ensures RowsChanged(old(ctx.View()), ctx.View(), tid, keys, f => DroppedField(f, name))
  {
    ghost var s0 := ctx.View();
    ghost var change := (f: Fields) => DroppedField(f, name);
    for i := 0 to |keys|
      invariant RowsChanged(s0, ctx.View(), tid, keys[..i], change)
    {
      ghost var s := ctx.View();
      if ParseRowKey(keys[i], tid).Some? {
        ctx.Emit(Remove(keys[i], name));
      }
      RowsChangedStep(s0, s, ctx.View(), keys, i, tid, change);
    }
    assert keys[..|keys|] == keys;
  }

  /** Nothing of a table depends on the entries of an index it does not have. */
  lemma StoreOutsideIndex(s: Store, s': Store, tbl: Table, rows: Rows, iid: ID)
    requires StoreIs(s, tbl, rows) && OnlyIndex(s, s', iid)
    requires forall j :: 0 <= j < |tbl.indexes| ==> tbl.indexes[j].iid != iid
    ensures StoreIs(s', tbl, rows)
  {
    forall pk
      ensures RowAt(s', tbl, rows, pk)
    {
      assert RowAt(s, tbl, rows, pk);
    }
    forall j | 0 <= j < |tbl.indexes|
      ensures IndexIs(s', tbl, rows, tbl.indexes[j])
    {
      assert IndexIs(s, tbl, rows, tbl.indexes[j]);
    }
  }

  /** Removes every field of one key. */
  method ClearKey(ctx: Context, key: bytes)
    modifies ctx
    ensures FieldsAt(ctx.View(), key) == map[]
    ensures forall k :: k != key ==> FieldsAt(ctx.View(), k) == old(FieldsAt(ctx.View(), k))
  {
    var snap := ctx.GetSnapshot(key);
    var left := snap.Keys;
    while left != {}
      invariant FieldsAt(ctx.View(), key).Keys == left
      invariant forall k :: k != key ==> FieldsAt(ctx.View(), k) == old(FieldsAt(ctx.View(), k))
      decreases left
    {
      var field :| field in left;
      ctx.Emit(Remove(key, field));
      left := left - {field};
    }
  }

  /** `dropIndexEntries`: empties every entry key of an index. */
  method DropIndexEntries(ctx: Context, keys: seq<bytes>, iid: ID)
    requires forall encoded :: FieldsAt(ctx.View(), IndexKey(iid, encoded)) != map[] ==> IndexKey(iid, encoded) in keys
    modifies ctx
    ensures forall encoded :: FieldsAt(ctx.View(), IndexKey(iid, encoded)) == map[]
    ensures OnlyIndex(old(ctx.View()), ctx.View(), iid)
  {
    for i := 0 to |keys|
      invariant OnlyIndex(old(ctx.View()), ctx.View(), iid)
      invariant forall encoded :: FieldsAt(ctx.View(), IndexKey(iid, encoded)) != map[] ==> IndexKey(iid, encoded) in keys[i..]
    {
      IndexPrefixExact(keys[i], iid, []);
      if IDHeader(INDEX, iid) + [] <= keys[i] {
        ClearKey(ctx, keys[i]);
      }
      assert keys[i..] == [keys[i]] + keys[i + 1..];
      forall encoded | FieldsAt(ctx.View(), IndexKey(iid, encoded)) != map[]
        ensures IndexKey(iid, encoded) in keys[i + 1..]
      {
        assert [] + encoded == encoded;
      }
    }
  }

  /** DROP COLUMN: every row loses just that position, key ordinals shift, and surviving indexes still agree. */
  method DropColumn(ctx: Context, keys: seq<bytes>, tbl: Table, name: bytes, ghost rows: Rows) returns (r: Result<Table>)
    requires StoreIs(ctx.View(), tbl, rows) && ScanOrder(ctx.View(), keys) && FoldDistinct(tbl.columns)
    modifies ctx
    ensures r == Failed(NoSuchColumn) <==> forall d :: 0 <= d < |tbl.columns| ==> !EqualFold(tbl.columns[d].name, name)
    ensures r == Failed(PrimaryKeyColumn) <==>
              exists d :: 0 <= d < |tbl.columns| && EqualFold(tbl.columns[d].name, name) && d in tbl.pkCols
    ensures r.Failed? ==> r.error in {NoSuchColumn, PrimaryKeyColumn} && ctx.View() == old(ctx.View())
    ensures r.Done? ==> exists c :: 0 <= c < |tbl.columns| && EqualFold(tbl.columns[c].name, name) && c !in tbl.pkCols
                          && r.value == DroppedTable(tbl, c) && (forall pk :: pk in rows ==> c < |rows[pk]|)
                          && StoreIs(ctx.View(), r.value, DroppedRows(rows, c))
    ensures r.Done? ==> forall j :: 0 <= j < |tbl.indexes| && tbl.indexes[j] !in r.value.indexes ==>
                          Emptied(ctx.View(), tbl.indexes[j].iid)
  {
    var c := 0;
    while c < |tbl.columns| && !EqualFold(tbl.columns[c].name, name)
      invariant 0 <= c <= |tbl.columns|
      invariant forall d :: 0 <= d < c ==> !EqualFold(tbl.columns[d].name, name)
    {
      c := c + 1;
    }
    if c == |tbl.columns| {
      return Failed(NoSuchColumn);
    }
    OnlyFold(tbl.columns, c, name);
    if c in tbl.pkCols {
      return Failed(PrimaryKeyColumn);
    }
    ghost var s0 := ctx.View();
    DropFieldInRows(ctx, keys, tbl.tid, tbl.columns[c].name);
    DroppedStore(s0, ctx.View(), keys, tbl, c, rows);
    RowsChangedAll(s0, ctx.View(), keys, tbl.tid, f => DroppedField(f, tbl.columns[c].name));
    assert CanDrop(tbl, c) && EqualFold(tbl.columns[c].name, name);
    assert IndexKeysIn(ctx.View(), tbl, keys, 0);
    hide StoreIs, ScanOrder, RowsChanged, CanDrop, DroppedRows, IndexKeysIn, EqualFold, FoldDistinct;
    DropCascaded(ctx, keys, tbl, c, rows);
    return Done(DroppedTable(tbl, c));
  }

  /** The scan covers the entries of the indexes from the `j`th on. */
  ghost predicate IndexKeysIn(s: Store, tbl: Table, keys: seq<bytes>, j: nat)
  {
    forall k, encoded :: j <= k < |tbl.indexes| && FieldsAt(s, IndexKey(tbl.indexes[k].iid, encoded)) != map[] ==>
      IndexKey(tbl.indexes[k].iid, encoded) in keys
  }

  ghost predicate Emptied(s: Store, iid: ID)
  {
    forall encoded :: FieldsAt(s, IndexKey(iid, encoded)) == map[]
  }

  /** The indexes before the `j`th that mention the column are empty, and the scan covers the others. */
  ghost predicate Cascaded(s: Store, tbl: Table, keys: seq<bytes>, name: bytes, j: nat)
  {
    IndexKeysIn(s, tbl, keys, j) && forall k :: 0 <= k < j && k < |tbl.indexes| && Mentions(tbl.indexes[k], name) ==> Emptied(s, tbl.indexes[k].iid)
  }

  /** The cascade: every index that mentions the column is emptied. */
  method DropCascaded(ctx: Context, keys: seq<bytes>, tbl: Table, c: nat, ghost rows: Rows)
    requires CanDrop(tbl, c) && (forall pk :: pk in rows ==> c < |rows[pk]|)
    requires StoreIs(ctx.View(), DroppedTable(tbl, c), DroppedRows(rows, c)) && IndexKeysIn(ctx.View(), tbl, keys, 0)
    modifies ctx
    ensures StoreIs(ctx.View(), DroppedTable(tbl, c), DroppedRows(rows, c))
    ensures forall j :: 0 <= j < |tbl.indexes| && tbl.indexes[j] !in DroppedTable(tbl, c).indexes ==> Emptied(ctx.View(), tbl.indexes[j].iid)
  {
    var name := tbl.columns[c].name;
    assert Cascaded(ctx.View(), tbl, keys, name, 0);
    MentionedGone(tbl, c);
    assert ValidTable(tbl);
    ghost var tbl', rows' := DroppedTable(tbl, c), DroppedRows(rows, c);
    assert forall j :: 0 <= j < |tbl.indexes| && tbl.indexes[j] !in tbl'.indexes ==> Mentions(tbl.indexes[j], name);
    hide StoreIs, ValidTable, CanDrop, Mentions, IndexKeysIn, Emptied, OnlyIndex, DroppedTable, DroppedRows, Context.View;
    for j := 0 to |tbl.indexes|
      invariant StoreIs(ctx.View(), tbl', rows') && Cascaded(ctx.View(), tbl, keys, name, j)
    {
      ghost var s := ctx.View();
      CascadeSteps(s, tbl, keys, name, j);
      if Mentions(tbl.indexes[j], name) {
        DropIndexEntries(ctx, keys, tbl.indexes[j].iid);
        CascadedIsGone(tbl, c, j);
        CascadeStep(s, ctx.View(), tbl, keys, name, j);
        StoreOutsideIndex(s, ctx.View(), tbl', rows', tbl.indexes[j].iid);
      }
    }
  }

  lemma CascadeSteps(s: Store, tbl: Table, keys: seq<bytes>, name: bytes, j: nat)
    requires Cascaded(s, tbl, keys, name, j) && j < |tbl.indexes|
    ensures forall encoded :: FieldsAt(s, IndexKey(tbl.indexes[j].iid, encoded)) != map[] ==> IndexKey(tbl.indexes[j].iid, encoded) in keys
    ensures !Mentions(tbl.indexes[j], name) ==> Cascaded(s, tbl, keys, name, j + 1)
  {
    hide Mentions, Emptied;
  }

  lemma CascadeStep(s: Store, s': Store, tbl: Table, keys: seq<bytes>, name: bytes, j: nat)
    requires ValidTable(tbl) && j < |tbl.indexes| && OnlyIndex(s, s', tbl.indexes[j].iid) && Cascaded(s, tbl, keys, name, j)
    requires forall encoded :: FieldsAt(s', IndexKey(tbl.indexes[j].iid, encoded)) == map[]
    ensures Cascaded(s', tbl, keys, name, j + 1)
  {
    hide Mentions;
    assert forall k :: 0 <= k < |tbl.indexes| && k != j ==> tbl.indexes[k].iid != tbl.indexes[j].iid;
  }

  lemma MentionedGone(tbl: Table, c: nat)
    requires CanDrop(tbl, c)
    ensures forall j :: 0 <= j < |tbl.indexes| && tbl.indexes[j] !in DroppedTable(tbl, c).indexes ==> Mentions(tbl.indexes[j], tbl.columns[c].name)
  {
    hide Mentions, Surviving, CanDrop, Without, ShiftedAll;
    assert forall j :: 0 <= j < |tbl.indexes| ==> tbl.indexes[j] in tbl.indexes;
  }

  lemma CascadedIsGone(tbl: Table, c: nat, j: nat)
    requires CanDrop(tbl, c) && j < |tbl.indexes| && Mentions(tbl.indexes[j], tbl.columns[c].name)
    ensures forall k :: 0 <= k < |DroppedTable(tbl, c).indexes| ==> DroppedTable(tbl, c).indexes[k].iid != tbl.indexes[j].iid
  {
    var left := Surviving(tbl.indexes, tbl.columns[c].name);
    forall k | 0 <= k < |left|
      ensures left[k].iid != tbl.indexes[j].iid
    {
      assert left[k] in tbl.indexes;
      var m :| 0 <= m < |tbl.indexes| && tbl.indexes[m] == left[k];
      assert m != j;
    }
  }

  lemma OnlyFold(cols: seq<Column>, c: nat, name: bytes)
    requires FoldDistinct(cols) && c < |cols| && EqualFold(cols[c].name, name)
    ensures forall d :: 0 <= d < |cols| && EqualFold(cols[d].name, name) ==> d == c
  {
  }

  lemma DroppedStore(s0: Store, s: Store, keys: seq<bytes>, tbl: Table, c: nat, rows: Rows)
    requires StoreIs(s0, tbl, rows) && ScanOrder(s0, keys) && CanDrop(tbl, c)
    requires RowsChanged(s0, s, tbl.tid, keys, f => DroppedField(f, tbl.columns[c].name))
    ensures forall pk :: pk in rows ==> c < |rows[pk]|
    ensures StoreIs(s, DroppedTable(tbl, c), DroppedRows(rows, c))
  {
    var tbl', rows' := DroppedTable(tbl, c), DroppedRows(rows, c);
    DroppedValid(tbl, c);
    RowsChangedAll(s0, s, keys, tbl.tid, f => DroppedField(f, tbl.columns[c].name));
    forall pk | pk in rows'
      ensures RowFits(tbl', rows'[pk]) && PkPresent(tbl', rows'[pk]) && PkOf(tbl', rows'[pk]) == pk
    {
      DroppedKey(tbl, c, rows[pk]);
    }
    forall pk
      ensures RowAt(s, tbl', rows', pk)
    {
      assert RowAt(s0, tbl, rows, pk);
      if pk in rows {
        DroppedRow(tbl, c, rows[pk], FieldsAt(s0, RowKey(tbl.tid, pk)));
      }
    }
    forall j | 0 <= j < |tbl'.indexes|
      ensures IndexIs(s, tbl', rows', tbl'.indexes[j])
    {
      DroppedIndex(s0, s, tbl, c, rows, j);
    }
    DroppedUnique(tbl, c, rows);
  }

  lemma DroppedIndex(s0: Store, s: Store, tbl: Table, c: nat, rows: Rows, j: nat)
    requires StoreIs(s0, tbl, rows) && CanDrop(tbl, c) && ValidTable(DroppedTable(tbl, c))
    requires j < |DroppedTable(tbl, c).indexes|
    requires RowsFit(DroppedTable(tbl, c), DroppedRows(rows, c))
    requires forall iid, encoded :: FieldsAt(s, IndexKey(iid, encoded)) == FieldsAt(s0, IndexKey(iid, encoded))
    ensures IndexIs(s, DroppedTable(tbl, c), DroppedRows(rows, c), DroppedTable(tbl, c).indexes[j])
  {
    var tbl', rows' := DroppedTable(tbl, c), DroppedRows(rows, c);
    var idx := tbl'.indexes[j];
    assert idx in tbl.indexes;
    var k :| 0 <= k < |tbl.indexes| && tbl.indexes[k] == idx;
    assert IndexIs(s0, tbl, rows, idx);
    forall encoded
      ensures FieldsAt(s, IndexKey(idx.iid, encoded)).Keys == Entries(tbl', rows', idx, encoded)
    {
      forall pk | pk in rows
        ensures IndexEntry(tbl', idx, rows'[pk]) == IndexEntry(tbl, idx, rows[pk])
      {
        DroppedEntry(tbl, c, idx, rows[pk]);
      }
      assert Entries(tbl', rows', idx, encoded) == Entries(tbl, rows, idx, encoded);
    }
  }

  lemma DroppedUnique(tbl: Table, c: nat, rows: Rows)
    requires CanDrop(tbl, c) && ValidTable(DroppedTable(tbl, c))
    requires RowsFit(tbl, rows) && UniqueHolds(tbl, rows) && (forall pk :: pk in rows ==> c < |rows[pk]|)
    requires RowsFit(DroppedTable(tbl, c), DroppedRows(rows, c))
    ensures UniqueHolds(DroppedTable(tbl, c), DroppedRows(rows, c))
  {
    hide IndexEntry, PkPresent, PkOf, Mentions;
    var tbl', rows' := DroppedTable(tbl, c), DroppedRows(rows, c);
    forall j, p, q | 0 <= j < |tbl'.indexes| && tbl'.indexes[j].unique && p in rows' && q in rows'
                     && IndexEntry(tbl', tbl'.indexes[j], rows'[p]).Some?
                     && IndexEntry(tbl', tbl'.indexes[j], rows'[p]) == IndexEntry(tbl', tbl'.indexes[j], rows'[q])
      ensures p == q
    {
      var idx := tbl'.indexes[j];
      assert idx in tbl.indexes;
      var k :| 0 <= k < |tbl.indexes| && tbl.indexes[k] == idx;
      DroppedEntry(tbl, c, idx, rows[p]);
      DroppedEntry(tbl, c, idx, rows[q]);
    }
  }

  // ---- CREATE INDEX ----

  function IndexedTable(tbl: Table, idx: Index): (r: Table)
  {
    tbl.(indexes := tbl.indexes + [idx])
  }

  /** The column checks of `handleCreateIndex`. */
  method CheckIndexColumns(tbl: Table, idx: Index) returns (e: Option<DdlError>)
    requires ValidTable(tbl) && idx.columns != []
    ensures e == None <==> ValidIndex(tbl, idx) && forall j :: 0 <= j < |tbl.indexes| ==> tbl.indexes[j].name != idx.name
    ensures e.Some? ==> e.value in {NoSuchColumn, DuplicateColumn, DuplicateIndex}
  {
    for i := 0 to |idx.columns|
      invariant forall k :: 0 <= k < i ==> FindColumn(tbl.columns, idx.columns[k]) >= 0
      invariant forall k, m :: 0 <= k < m < i ==> idx.columns[k] != idx.columns[m]
    {
      var ord := FindColumn(tbl.columns, idx.columns[i]);
      if ord < 0 {
        return Some(NoSuchColumn);
      }
      for k := 0 to i
        invariant forall m :: 0 <= m < k ==> idx.columns[m] != idx.columns[i]
      {
        if FindColumn(tbl.columns, idx.columns[k]) == ord {
          return Some(DuplicateColumn);
        }
      }
    }
    for j := 0 to |tbl.indexes|
      invariant forall k :: 0 <= k < j ==> tbl.indexes[k].name != idx.name
    {
      if tbl.indexes[j].name == idx.name {
        return Some(DuplicateIndex);
      }
    }
    return None;
  }

  /** Rows whose key is among `done`. */
  ghost function RowsAmong(tbl: Table, rows: Rows, done: seq<bytes>): (r: Rows)
  {
    map pk | pk in rows && RowKey(tbl.tid, pk) in done :: rows[pk]
  }

  /** Some two rows would share an entry of the new index. */
  ghost predicate Collides(tbl: Table, rows: Rows, idx: Index)
    requires ValidIndex(tbl, idx) && forall pk :: pk in rows ==> RowFits(tbl, rows[pk])
  {
    exists p, q :: p in rows && q in rows && p != q && IndexEntry(tbl, idx, rows[p]).Some?
      && IndexEntry(tbl, idx, rows[p]) == IndexEntry(tbl, idx, rows[q])
  }

  lemma RowsAmongNext(tbl: Table, rows: Rows, keys: seq<bytes>, i: nat)
    requires i < |keys|
    ensures var pk := ParseRowKey(keys[i], tbl.tid);
            RowsAmong(tbl, rows, keys[..i + 1])
            == if pk.Some? && pk.value in rows then RowsAmong(tbl, rows, keys[..i])[pk.value := rows[pk.value]]
               else RowsAmong(tbl, rows, keys[..i])
  {
    assert keys[..i + 1] == keys[..i] + [keys[i]];
    var pk := ParseRowKey(keys[i], tbl.tid);
    var now, next := RowsAmong(tbl, rows, keys[..i]), RowsAmong(tbl, rows, keys[..i + 1]);
    forall q
      ensures RowKey(tbl.tid, q) == keys[i] <==> pk == Some(q)
    {
    }
    assert next == if pk.Some? && pk.value in rows then now[pk.value := rows[pk.value]] else now;
  }

  /** `seen` maps each entry of the rows scanned back to its row. */
  ghost predicate Inverse(tbl: Table, part: Rows, idx: Index, seen: map<bytes, bytes>)
    requires ValidIndex(tbl, idx) && forall pk :: pk in part ==> RowFits(tbl, part[pk])
  {
    && (forall e :: e in seen ==> seen[e] in part && IndexEntry(tbl, idx, part[seen[e]]) == Some(e))
    && (forall p :: p in part && IndexEntry(tbl, idx, part[p]).Some? ==>
          IndexEntry(tbl, idx, part[p]).value in seen && seen[IndexEntry(tbl, idx, part[p]).value] == p)
  }

  lemma InverseNext(tbl: Table, part: Rows, idx: Index, seen: map<bytes, bytes>, pk: bytes, row: Row)
    requires ValidIndex(tbl, idx) && (forall pk :: pk in part ==> RowFits(tbl, part[pk])) && RowFits(tbl, row)
    requires Inverse(tbl, part, idx, seen) && pk !in part
    requires IndexEntry(tbl, idx, row).Some? ==> IndexEntry(tbl, idx, row).value !in seen
    ensures var entry := IndexEntry(tbl, idx, row);
            Inverse(tbl, part[pk := row], idx, if entry.Some? then seen[entry.value := pk] else seen)
  {
  }

  lemma InverseMeansUnique(tbl: Table, rows: Rows, idx: Index, seen: map<bytes, bytes>)
    requires ValidIndex(tbl, idx) && (forall pk :: pk in rows ==> RowFits(tbl, rows[pk])) && Inverse(tbl, rows, idx, seen)
    ensures !Collides(tbl, rows, idx)
  {
  }

  /** The entries built so far: the index lists the rows scanned, and for UNIQUE `seen` is its inverse. */
  ghost predicate Building(s0: Store, s: Store, tbl: Table, part: Rows, idx: Index, seen: map<bytes, bytes>)
    requires ValidIndex(tbl, idx) && forall pk :: pk in part ==> RowFits(tbl, part[pk])
  {
    OnlyIndex(s0, s, idx.iid) && IndexIs(s, tbl, part, idx) && (idx.unique ==> Inverse(tbl, part, idx, seen))
  }

  lemma PartFits(tbl: Table, rows: Rows, done: seq<bytes>)
    requires ValidTable(tbl) && RowsFit(tbl, rows)
    ensures forall pk :: pk in rows ==> RowFits(tbl, rows[pk])
    ensures forall pk :: pk in RowsAmong(tbl, rows, done) ==> RowFits(tbl, RowsAmong(tbl, rows, done)[pk])
  {
  }

  /** What the build loop reads of a row: its entry, from the stored fields. */
  method ReadEntry(ctx: Context, tbl: Table, idx: Index, pk: bytes, ghost rows: Rows, ghost s0: Store)
    returns (live: bool, entry: Option<bytes>)
    requires StoreIs(s0, tbl, rows) && ValidIndex(tbl, idx) && OnlyIndex(s0, ctx.View(), idx.iid)
    ensures live <==> pk in rows
    ensures live ==> RowFits(tbl, rows[pk]) && entry == IndexEntry(tbl, idx, rows[pk])
  {
    var snap := ctx.GetSnapshot(RowKey(tbl.tid, pk));
    assert RowAt(s0, tbl, rows, pk) && snap == FieldsAt(s0, RowKey(tbl.tid, pk));
    LiveHasFields(tbl, rows, pk, snap);
    if snap == map[] {
      return false, None;
    }
    FieldsFitIndex(tbl, idx, rows[pk], snap);
    EntryFromFieldsExact(tbl, idx, rows[pk], snap);
    return true, EntryFromFields(tbl, idx, snap);
  }

  lemma NotYetScanned(s0: Store, tbl: Table, rows: Rows, keys: seq<bytes>, i: nat, pk: bytes)
    requires ScanOrder(s0, keys) && i < |keys| && keys[i] == RowKey(tbl.tid, pk)
    ensures pk !in RowsAmong(tbl, rows, keys[..i])
  {
    forall k | 0 <= k < i
      ensures keys[k] != keys[i]
    {
      assert Compare(keys[k], keys[i]) < 0;
    }
  }

  /** One scanned row of the build loop. */
  method BuildEntry(ctx: Context, tbl: Table, idx: Index, pk: bytes, entry: Option<bytes>, seen: map<bytes, bytes>,
                    ghost part: Rows, ghost row: Row, ghost after: Rows, ghost s0: Store)
    returns (ok: bool, seen': map<bytes, bytes>)
    requires ValidIndex(tbl, idx) && (forall q :: q in part ==> RowFits(tbl, part[q])) && RowFits(tbl, row)
    requires after == part[pk := row] && forall q :: q in after ==> RowFits(tbl, after[q])
    requires Building(s0, ctx.View(), tbl, part, idx, seen) && pk !in part && entry == IndexEntry(tbl, idx, row)
    modifies ctx
    ensures ok ==> Building(s0, ctx.View(), tbl, after, idx, seen')
    ensures !ok ==> idx.unique && exists q :: q in part && entry.Some? && IndexEntry(tbl, idx, part[q]) == entry
  {
    assert part - {pk} == part;
    EntryInserted(ctx.View(), tbl, part, idx, pk, row);
    seen' := seen;
    if entry.Some? {
      if idx.unique {
        if entry.value in seen {
          assert IndexEntry(tbl, idx, part[seen[entry.value]]) == entry;
          return false, seen;
        }
        seen' := seen[entry.value := pk];
      }
      OnlyIndexApply(s0, ctx.View(), idx.iid, Insert(IndexKey(idx.iid, entry.value), pk, MARKER), entry.value);
      ctx.Emit(Insert(IndexKey(idx.iid, entry.value), pk, MARKER));
    }
    if idx.unique {
      InverseNext(tbl, part, idx, seen, pk, row);
    }
    return true, seen';
  }

  /** The body of `handleCreateIndex`: the new index lists every row it should, or UNIQUE refuses it. */
  method CreateIndex(ctx: Context, keys: seq<bytes>, tbl: Table, idx: Index, ghost rows: Rows) returns (r: Result<Table>)
    requires StoreIs(ctx.View(), tbl, rows) && ScanOrder(ctx.View(), keys) && idx.columns != []
    requires forall j :: 0 <= j < |tbl.indexes| ==> tbl.indexes[j].iid != idx.iid
    requires forall encoded :: FieldsAt(ctx.View(), IndexKey(idx.iid, encoded)) == map[]
    modifies ctx
    ensures r.Done? ==> r.value == IndexedTable(tbl, idx) && StoreIs(ctx.View(), r.value, rows)
    ensures r.Done? && idx.unique ==> ValidIndex(tbl, idx) && !Collides(tbl, rows, idx)
    ensures r == Failed(WouldCollide) ==> ValidIndex(tbl, idx) && idx.unique && Collides(tbl, rows, idx)
    ensures r.Failed? && r.error != WouldCollide <==>
              !(ValidIndex(tbl, idx) && forall j :: 0 <= j < |tbl.indexes| ==> tbl.indexes[j].name != idx.name)
  {
    var e := CheckIndexColumns(tbl, idx);
    if e.Some? {
      return Failed(e.value);
    }
    ghost var s0 := ctx.View();
    var seen: map<bytes, bytes> := map[];
    PartFits(tbl, rows, keys[..0]);
    StartBuilding(s0, tbl, rows, idx, keys);
    hide *;
    for i := 0 to |keys|
      invariant ValidTable(tbl) && RowsFit(tbl, rows)
      invariant forall pk :: pk in RowsAmong(tbl, rows, keys[..i]) ==> RowFits(tbl, RowsAmong(tbl, rows, keys[..i])[pk])
      invariant Building(s0, ctx.View(), tbl, RowsAmong(tbl, rows, keys[..i]), idx, seen)
    {
      ghost var part := RowsAmong(tbl, rows, keys[..i]);
      PartFits(tbl, rows, keys[..i + 1]);
      RowsAmongNext(tbl, rows, keys, i);
      BuildingKeepsRows(s0, ctx.View(), tbl, part, idx, seen);
      var parsed := ParseRowKey(keys[i], tbl.tid);
      if parsed.Some? {
        var live, entry := ReadEntry(ctx, tbl, idx, parsed.value, rows, s0);
        if live {
          NotYetScanned(s0, tbl, rows, keys, i, parsed.value);
          var ok;
          ok, seen := BuildEntry(ctx, tbl, idx, parsed.value, entry, seen, part, rows[parsed.value],
                                 RowsAmong(tbl, rows, keys[..i + 1]), s0);
          if !ok {
            PartCollides(tbl, rows, idx, keys[..i], parsed.value);
            return Failed(WouldCollide);
          }
        }
      }
    }
    BuiltIndex(s0, ctx.View(), keys, tbl, idx, rows, seen);
    return Done(IndexedTable(tbl, idx));
  }

  lemma BuildingKeepsRows(s0: Store, s: Store, tbl: Table, part: Rows, idx: Index, seen: map<bytes, bytes>)
    requires ValidIndex(tbl, idx) && forall pk :: pk in part ==> RowFits(tbl, part[pk])
    requires Building(s0, s, tbl, part, idx, seen)
    ensures OnlyIndex(s0, s, idx.iid)
  {
  }

  lemma StartBuilding(s0: Store, tbl: Table, rows: Rows, idx: Index, keys: seq<bytes>)
    requires StoreIs(s0, tbl, rows) && ValidIndex(tbl, idx)
    requires forall encoded :: FieldsAt(s0, IndexKey(idx.iid, encoded)) == map[]
    ensures forall pk :: pk in RowsAmong(tbl, rows, keys[..0]) ==> RowFits(tbl, RowsAmong(tbl, rows, keys[..0])[pk])
    ensures ValidTable(tbl) && RowsFit(tbl, rows) && Building(s0, s0, tbl, RowsAmong(tbl, rows, keys[..0]), idx, map[])
  {
    assert RowsAmong(tbl, rows, keys[..0]) == map[];
    forall encoded
      ensures FieldsAt(s0, IndexKey(idx.iid, encoded)).Keys == Entries(tbl, RowsAmong(tbl, rows, keys[..0]), idx, encoded)
    {
    }
  }

  lemma PartCollides(tbl: Table, rows: Rows, idx: Index, done: seq<bytes>, pk: bytes)
    requires ValidTable(tbl) && RowsFit(tbl, rows) && ValidIndex(tbl, idx) && pk in rows
    requires pk !in RowsAmong(tbl, rows, done) && IndexEntry(tbl, idx, rows[pk]).Some?
    requires exists q :: q in RowsAmong(tbl, rows, done)
               && IndexEntry(tbl, idx, RowsAmong(tbl, rows, done)[q]) == IndexEntry(tbl, idx, rows[pk])
    ensures Collides(tbl, rows, idx)
  {
    var q :| q in RowsAmong(tbl, rows, done)
               && IndexEntry(tbl, idx, RowsAmong(tbl, rows, done)[q]) == IndexEntry(tbl, idx, rows[pk]);
    assert q in rows && q != pk;
  }

  lemma RowsAmongAll(s0: Store, keys: seq<bytes>, tbl: Table, rows: Rows)
    requires StoreIs(s0, tbl, rows) && ScanOrder(s0, keys)
    ensures RowsAmong(tbl, rows, keys) == rows
  {
    forall pk | pk in rows
      ensures RowKey(tbl.tid, pk) in keys
    {
      assert RowAt(s0, tbl, rows, pk);
      LiveHasFields(tbl, rows, pk, FieldsAt(s0, RowKey(tbl.tid, pk)));
    }
  }

  lemma BuiltIndex(s0: Store, s: Store, keys: seq<bytes>, tbl: Table, idx: Index, rows: Rows, seen: map<bytes, bytes>)
    requires StoreIs(s0, tbl, rows) && ScanOrder(s0, keys) && ValidIndex(tbl, idx)
    requires forall pk :: pk in RowsAmong(tbl, rows, keys[..|keys|]) ==> RowFits(tbl, RowsAmong(tbl, rows, keys[..|keys|])[pk])
    requires Building(s0, s, tbl, RowsAmong(tbl, rows, keys[..|keys|]), idx, seen)
    requires forall j :: 0 <= j < |tbl.indexes| ==> tbl.indexes[j].iid != idx.iid && tbl.indexes[j].name != idx.name
    ensures StoreIs(s, IndexedTable(tbl, idx), rows)
    ensures idx.unique ==> !Collides(tbl, rows, idx)
  {
    assert keys[..|keys|] == keys;
    RowsAmongAll(s0, keys, tbl, rows);
    if idx.unique {
      InverseMeansUnique(tbl, rows, idx, seen);
    }
    StoreOutsideIndex(s0, s, tbl, rows, idx.iid);
    WithIndex(s, tbl, idx, rows);
  }

  lemma WithIndexFits(tbl: Table, idx: Index, rows: Rows)
    requires ValidTable(tbl) && RowsFit(tbl, rows) && ValidIndex(tbl, idx)
    requires forall j :: 0 <= j < |tbl.indexes| ==> tbl.indexes[j].iid != idx.iid && tbl.indexes[j].name != idx.name
    ensures ValidTable(IndexedTable(tbl, idx)) && RowsFit(IndexedTable(tbl, idx), rows)
  {
    var tbl' := IndexedTable(tbl, idx);
    forall j | 0 <= j < |tbl'.indexes|
      ensures ValidIndex(tbl', tbl'.indexes[j])
    {
      assert ValidIndex(tbl, if j < |tbl.indexes| then tbl.indexes[j] else idx);
    }
    assert ValidTable(tbl') && PkAffinities(tbl') == PkAffinities(tbl);
    forall pk | pk in rows
      ensures RowFits(tbl', rows[pk]) && PkPresent(tbl', rows[pk]) && PkOf(tbl', rows[pk]) == pk
    {
      assert PkValues(tbl', rows[pk]) == PkValues(tbl, rows[pk]);
    }
  }

  lemma SameColumnsSameIndex(s: Store, tbl: Table, tbl': Table, idx: Index, rows: Rows)
    requires tbl'.columns == tbl.columns && ValidIndex(tbl, idx) && forall pk :: pk in rows ==> RowFits(tbl, rows[pk])
    requires IndexIs(s, tbl, rows, idx)
    ensures ValidIndex(tbl', idx) && (forall pk :: pk in rows ==> RowFits(tbl', rows[pk]))
    ensures IndexIs(s, tbl', rows, idx)
  {
    forall pk | pk in rows
      ensures RowFits(tbl', rows[pk]) && IndexEntry(tbl', idx, rows[pk]) == IndexEntry(tbl, idx, rows[pk])
    {
      SameColumnsSameEntry(tbl, tbl', idx, rows[pk]);
    }
    forall encoded
      ensures Entries(tbl', rows, idx, encoded) == Entries(tbl, rows, idx, encoded)
    {
    }
  }

  lemma WithIndexUnique(tbl: Table, idx: Index, rows: Rows)
    requires ValidTable(tbl) && RowsFit(tbl, rows) && ValidIndex(tbl, idx) && UniqueHolds(tbl, rows)
    requires ValidTable(IndexedTable(tbl, idx)) && RowsFit(IndexedTable(tbl, idx), rows)
    requires idx.unique ==> !Collides(tbl, rows, idx)
    ensures UniqueHolds(IndexedTable(tbl, idx), rows)
  {
    var tbl' := IndexedTable(tbl, idx);
    forall j, p, q | 0 <= j < |tbl'.indexes| && tbl'.indexes[j].unique && p in rows && q in rows
                     && IndexEntry(tbl', tbl'.indexes[j], rows[p]).Some?
                     && IndexEntry(tbl', tbl'.indexes[j], rows[p]) == IndexEntry(tbl', tbl'.indexes[j], rows[q])
      ensures p == q
    {
      var ix := if j < |tbl.indexes| then tbl.indexes[j] else idx;
      assert ValidIndex(tbl, ix);
      SameColumnsSameEntry(tbl, tbl', ix, rows[p]);
      SameColumnsSameEntry(tbl, tbl', ix, rows[q]);
    }
  }

  /** A table may take on an index that already lists its rows. */
  lemma WithIndex(s: Store, tbl: Table, idx: Index, rows: Rows)
    requires StoreIs(s, tbl, rows) && ValidIndex(tbl, idx) && IndexIs(s, tbl, rows, idx)
    requires forall j :: 0 <= j < |tbl.indexes| ==> tbl.indexes[j].iid != idx.iid && tbl.indexes[j].name != idx.name
    requires idx.unique ==> !Collides(tbl, rows, idx)
    ensures StoreIs(s, IndexedTable(tbl, idx), rows)
  {
    var tbl' := IndexedTable(tbl, idx);
    WithIndexFits(tbl, idx, rows);
    WithIndexUnique(tbl, idx, rows);
    forall pk
      ensures RowAt(s, tbl', rows, pk)
    {
      assert RowAt(s, tbl, rows, pk);
    }
    forall j | 0 <= j < |tbl'.indexes|
      ensures IndexIs(s, tbl', rows, tbl'.indexes[j])
    {
      var ix := if j < |tbl.indexes| then tbl.indexes[j] else idx;
      assert ValidIndex(tbl, ix) && IndexIs(s, tbl, rows, ix);
      SameColumnsSameIndex(s, tbl, tbl', ix, rows);
    }
  }

  lemma SameColumnsSameEntry(tbl: Table, tbl': Table, idx: Index, row: Row)
    requires tbl'.columns == tbl.columns && ValidIndex(tbl, idx) && RowFits(tbl, row)
    ensures ValidIndex(tbl', idx) && RowFits(tbl', row) && IndexEntry(tbl', idx, row) == IndexEntry(tbl, idx, row)
  {
    assert IndexValues(tbl', idx, row) == IndexValues(tbl, idx, row);
    assert IndexAffinities(tbl', idx) == IndexAffinities(tbl, idx);
  }
}
