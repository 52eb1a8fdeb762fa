/** Table schemas, how rows and index entries are laid out as keyed fields, and when the two agree. */
module Schema {
  import opened Common
  import opened Bytes
  import opened Encoding
  import opened Keys
  import opened Engine

  datatype Column = Column(name: bytes, aff: Affinity)

  datatype Index = Index(name: bytes, iid: ID, columns: seq<bytes>, unique: bool)

  datatype Table = Table(tid: ID, columns: seq<Column>, pkCols: seq<nat>, indexes: seq<Index>)

  /** A full row in column order. */
  type Row = seq<Value>

  /** A table's contents: rows by encoded primary key. */
  type Rows = map<bytes, Row>

  /** The column loop of `columnIndexes`: the first column with that name, or -1. */
  function FindColumn(cols: seq<Column>, name: bytes): (r: int)
    ensures -1 <= r < |cols|
    ensures r >= 0 ==> cols[r].name == name
    ensures r == -1 ==> forall c :: 0 <= c < |cols| ==> cols[c].name != name
  {
    FindFirst(cols, (c: Column) => c.name == name)
  }

  /** An index names at least one column, every one exists, and none is named twice. */
  ghost predicate ValidIndex(tbl: Table, idx: Index)
  {
    && idx.columns != []
    && (forall i :: 0 <= i < |idx.columns| ==> FindColumn(tbl.columns, idx.columns[i]) >= 0)
    && (forall i, k :: 0 <= i < k < |idx.columns| ==> idx.columns[i] != idx.columns[k])
  }

  ghost predicate ValidTable(tbl: Table)
  {
    && (forall c, d :: 0 <= c < d < |tbl.columns| ==> tbl.columns[c].name != tbl.columns[d].name)
    && tbl.pkCols != []
    && (forall i :: 0 <= i < |tbl.pkCols| ==> tbl.pkCols[i] < |tbl.columns|)
    && (forall i, k :: 0 <= i < k < |tbl.pkCols| ==> tbl.pkCols[i] != tbl.pkCols[k])
    && (forall j :: 0 <= j < |tbl.indexes| ==> ValidIndex(tbl, tbl.indexes[j]))
    && (forall j, k :: 0 <= j < k < |tbl.indexes| ==> tbl.indexes[j].iid != tbl.indexes[k].iid)
    && (forall j, k :: 0 <= j < k < |tbl.indexes| ==> tbl.indexes[j].name != tbl.indexes[k].name)
  }

  lemma FindColumnAt(tbl: Table, c: nat)
    requires ValidTable(tbl) && c < |tbl.columns|
    ensures FindColumn(tbl.columns, tbl.columns[c].name) == c
  {
  }

  ghost predicate RowFits(tbl: Table, row: Row)
  {
    |row| == |tbl.columns| && forall c :: 0 <= c < |row| ==> row[c] == Null || Fits(row[c], tbl.columns[c].aff)
  }

  // ---- Primary keys ----

  function PkAffinities(tbl: Table): (r: seq<Affinity>)
    requires forall i :: 0 <= i < |tbl.pkCols| ==> tbl.pkCols[i] < |tbl.columns|
  {
    seq(|tbl.pkCols|, i requires 0 <= i < |tbl.pkCols| => tbl.columns[tbl.pkCols[i]].aff)
  }

  function PkValues(tbl: Table, row: Row): (r: seq<Value>)
    requires forall i :: 0 <= i < |tbl.pkCols| ==> tbl.pkCols[i] < |row|
  {
    seq(|tbl.pkCols|, i requires 0 <= i < |tbl.pkCols| => row[tbl.pkCols[i]])
  }

  /** SQL forbids NULL in a primary key; `emitPresenceField` reports it as an error. */
  predicate PkPresent(tbl: Table, row: Row)
    requires forall i :: 0 <= i < |tbl.pkCols| ==> tbl.pkCols[i] < |row|
  {
    forall i :: 0 <= i < |tbl.pkCols| ==> row[tbl.pkCols[i]] != Null
  }

  function PkOf(tbl: Table, row: Row): (pk: bytes)
    requires ValidTable(tbl) && RowFits(tbl, row) && PkPresent(tbl, row)
  {
    EncodeKey(PkValues(tbl, row), PkAffinities(tbl))
  }

  /** What SQLite's accessors read from a NULL. */
  function Zero(aff: Affinity): (v: Value)
    ensures Fits(v, aff)
  {
    match aff
    case INTEGER => Integer(0)
    case REAL => Real(0)
    case TEXT => Text([])
    case BLOB => Blob([])
  }

  function KeyValues(tbl: Table, row: Row): (r: seq<Value>)
    requires ValidTable(tbl) && RowFits(tbl, row)
    ensures AllFit(r, PkAffinities(tbl))
  {
    seq(|tbl.pkCols|, i requires 0 <= i < |tbl.pkCols| =>
      if row[tbl.pkCols[i]] == Null then Zero(tbl.columns[tbl.pkCols[i]].aff) else row[tbl.pkCols[i]])
  }

  /** The key the write paths compute before they look at NULLs. */
  function KeyOf(tbl: Table, row: Row): (pk: bytes)
    requires ValidTable(tbl) && RowFits(tbl, row)
  {
    EncodeKey(KeyValues(tbl, row), PkAffinities(tbl))
  }

  lemma KeyOfPresent(tbl: Table, row: Row)
    requires ValidTable(tbl) && RowFits(tbl, row) && PkPresent(tbl, row)
    ensures KeyOf(tbl, row) == PkOf(tbl, row)
  {
    assert KeyValues(tbl, row) == PkValues(tbl, row);
  }

  /** The key of some tuple, as every key handed out for a row is. */
  ghost predicate WellKeyed(tbl: Table, pk: bytes)
    requires ValidTable(tbl)
  {
    exists vals :: AllFit(vals, PkAffinities(tbl)) && pk == EncodeKey(vals, PkAffinities(tbl))
  }

  /** `pkPosition`: where column `c` stands in the primary key, or -1. */
  function PkPosition(pkCols: seq<nat>, c: nat): (r: int)
    ensures -1 <= r < |pkCols|
    ensures r >= 0 ==> pkCols[r] == c
    ensures r == -1 ==> c !in pkCols
  {
    if pkCols == [] then -1
    else if pkCols[0] == c then 0
    else var r := PkPosition(pkCols[1..], c); if r < 0 then -1 else r + 1
  }

  // ---- Index tuples ----

  function IndexOrd(tbl: Table, idx: Index, i: nat): (c: nat)
    requires ValidIndex(tbl, idx) && i < |idx.columns|
    ensures c < |tbl.columns| && tbl.columns[c].name == idx.columns[i]
  {
    FindColumn(tbl.columns, idx.columns[i])
  }

  function IndexAffinities(tbl: Table, idx: Index): (r: seq<Affinity>)
    requires ValidIndex(tbl, idx)
  {
    seq(|idx.columns|, i requires 0 <= i < |idx.columns| => tbl.columns[IndexOrd(tbl, idx, i)].aff)
  }

  function IndexValues(tbl: Table, idx: Index, row: Row): (r: seq<Value>)
    requires ValidIndex(tbl, idx) && |row| == |tbl.columns|
  {
    seq(|idx.columns|, i requires 0 <= i < |idx.columns| => row[IndexOrd(tbl, idx, i)])
  }

  predicate AnyNull(vals: seq<Value>)
  {
    exists i :: 0 <= i < |vals| && vals[i] == Null
  }

  /** `indexTupleForRow`: the entry a row has in an index; none when any component is NULL. */
  function IndexEntry(tbl: Table, idx: Index, row: Row): (r: Option<bytes>)
    requires ValidIndex(tbl, idx) && RowFits(tbl, row)
  {
    if AnyNull(IndexValues(tbl, idx, row)) then None
    else Some(EncodeKey(IndexValues(tbl, idx, row), IndexAffinities(tbl, idx)))
  }

  // ---- Stored fields ----

  /** `setEncodedValue`; NULL has no stored form. */
  function Stored(v: Value): (f: Field)
    requires v != Null
  {
    match v
    case Integer(i) => IntVal(i)
    case Real(bits) => FloatVal(bits)
    case Text(t) => Raw(t)
    case Blob(b) => Raw(b)
  }

  function DecodeValue(f: Field, aff: Affinity): (v: Value)
  {
    match f
    case IntVal(i) => Integer(i)
    case FloatVal(bits) => Real(bits)
    case Raw(raw) => if aff == BLOB then Blob(raw) else Text(raw)
  }

  lemma StoredRoundTrip(v: Value, aff: Affinity)
    requires Fits(v, aff)
    ensures DecodeValue(Stored(v), aff) == v
  {
  }

  /** The fields of a row key hold exactly the non-NULL columns of `row`. */
  ghost predicate RowIs(f: Fields, tbl: Table, row: Row)
  {
    && |row| == |tbl.columns|
    && (forall c :: 0 <= c < |row| ==>
          if row[c] == Null then tbl.columns[c].name !in f
          else tbl.columns[c].name in f && f[tbl.columns[c].name] == Stored(row[c]))
    && (forall n :: n in f ==> FindColumn(tbl.columns, n) >= 0)
  }

  function AllNull(tbl: Table): (r: Row)
  {
    seq(|tbl.columns|, _ => Null)
  }

  lemma RowIsSet(f: Fields, tbl: Table, row: Row, c: nat, v: Value)
    requires ValidTable(tbl) && RowIs(f, tbl, row) && c < |row| && v != Null
    ensures RowIs(f[tbl.columns[c].name := Stored(v)], tbl, row[c := v])
  {
    FindColumnAt(tbl, c);
    forall d | 0 <= d < |row| && d != c
      ensures tbl.columns[d].name != tbl.columns[c].name
    {
      FindColumnAt(tbl, d);
    }
  }

  lemma RowIsClear(f: Fields, tbl: Table, row: Row, c: nat)
    requires ValidTable(tbl) && RowIs(f, tbl, row) && c < |row|
    ensures RowIs(f - {tbl.columns[c].name}, tbl, row[c := Null])
  {
    hide FindColumn, ValidTable, Stored;
    FindColumnAt(tbl, c);
    forall d | 0 <= d < |row| && d != c
      ensures tbl.columns[d].name != tbl.columns[c].name
    {
      FindColumnAt(tbl, d);
    }
  }

  lemma RowIsAllNull(f: Fields, tbl: Table)
    ensures RowIs(f, tbl, AllNull(tbl)) <==> f == map[]
  {
    if f != map[] {
      assert f.Keys != {};
      var n :| n in f;
      var c := FindColumn(tbl.columns, n);
      assert c >= 0 ==> AllNull(tbl)[c] == Null;
    }
  }

  /** `valuesFromSnapshot`, and `loadRow` for a live row: key columns from the key, the rest from the fields. */
  function ValuesFromSnapshot(tbl: Table, pk: bytes, f: Fields): (row: Row)
    requires forall i :: 0 <= i < |tbl.pkCols| ==> tbl.pkCols[i] < |tbl.columns|
    ensures |row| == |tbl.columns|
  {
    var pkVals := DecodeKey(pk, PkAffinities(tbl));
    seq(|tbl.columns|, c requires 0 <= c < |tbl.columns| =>
      if PkPosition(tbl.pkCols, c) >= 0 then pkVals[PkPosition(tbl.pkCols, c)]
      else if tbl.columns[c].name in f then DecodeValue(f[tbl.columns[c].name], tbl.columns[c].aff)
      else Null)
  }

  /** Reading a stored row gives back the row. */
  lemma SnapshotReadsRow(tbl: Table, row: Row, f: Fields)
    requires ValidTable(tbl) && RowFits(tbl, row) && PkPresent(tbl, row) && RowIs(f, tbl, row)
    ensures ValuesFromSnapshot(tbl, PkOf(tbl, row), f) == row
  {
    KeyRoundTrip(PkValues(tbl, row), PkAffinities(tbl));
    forall c | 0 <= c < |row|
      ensures ValuesFromSnapshot(tbl, PkOf(tbl, row), f)[c] == row[c]
    {
      if PkPosition(tbl.pkCols, c) < 0 && row[c] != Null {
        StoredRoundTrip(row[c], tbl.columns[c].aff);
      }
    }
  }

  /** The index tuple read straight from stored fields, as the update and CREATE INDEX paths do. */
  function EntryFromFields(tbl: Table, idx: Index, f: Fields): (r: Option<bytes>)
    requires ValidIndex(tbl, idx)
    requires forall i :: 0 <= i < |idx.columns| && idx.columns[i] in f ==>
               Fits(DecodeValue(f[idx.columns[i]], IndexAffinities(tbl, idx)[i]), IndexAffinities(tbl, idx)[i])
  {
    if exists i :: 0 <= i < |idx.columns| && idx.columns[i] !in f then None
    else
      var affs := IndexAffinities(tbl, idx);
      Some(EncodeKey(seq(|idx.columns|, i requires 0 <= i < |idx.columns| => DecodeValue(f[idx.columns[i]], affs[i])), affs))
  }

  lemma FieldsFitIndex(tbl: Table, idx: Index, row: Row, f: Fields)
    requires ValidIndex(tbl, idx) && RowFits(tbl, row) && RowIs(f, tbl, row)
    ensures forall i :: 0 <= i < |idx.columns| && idx.columns[i] in f ==>
              DecodeValue(f[idx.columns[i]], IndexAffinities(tbl, idx)[i]) == IndexValues(tbl, idx, row)[i]
              && Fits(IndexValues(tbl, idx, row)[i], IndexAffinities(tbl, idx)[i])
    ensures forall i :: 0 <= i < |idx.columns| ==>
              (idx.columns[i] in f <==> IndexValues(tbl, idx, row)[i] != Null)
  {
    forall i | 0 <= i < |idx.columns| && idx.columns[i] in f
      ensures DecodeValue(f[idx.columns[i]], IndexAffinities(tbl, idx)[i]) == IndexValues(tbl, idx, row)[i]
      ensures Fits(IndexValues(tbl, idx, row)[i], IndexAffinities(tbl, idx)[i])
    {
      var c := IndexOrd(tbl, idx, i);
      assert tbl.columns[c].name == idx.columns[i];
      StoredRoundTrip(row[c], tbl.columns[c].aff);
    }
  }

  lemma EntryFromFieldsExact(tbl: Table, idx: Index, row: Row, f: Fields)
    requires ValidIndex(tbl, idx) && RowFits(tbl, row) && RowIs(f, tbl, row)
    requires forall i :: 0 <= i < |idx.columns| && idx.columns[i] in f ==>
               Fits(DecodeValue(f[idx.columns[i]], IndexAffinities(tbl, idx)[i]), IndexAffinities(tbl, idx)[i])
    ensures EntryFromFields(tbl, idx, f) == IndexEntry(tbl, idx, row)
  {
    FieldsFitIndex(tbl, idx, row, f);
    var vals, affs := IndexValues(tbl, idx, row), IndexAffinities(tbl, idx);
    if !AnyNull(vals) {
      assert seq(|idx.columns|, i requires 0 <= i < |idx.columns| => DecodeValue(f[idx.columns[i]], affs[i])) == vals;
    }
  }

  // ---- Agreement of a store with a table's contents ----

  ghost predicate RowsFit(tbl: Table, rows: Rows)
    requires ValidTable(tbl)
  {
    forall pk :: pk in rows ==> RowFits(tbl, rows[pk]) && PkPresent(tbl, rows[pk]) && PkOf(tbl, rows[pk]) == pk
  }

  /** The primary keys an index must list under `encoded`. */
  ghost function Entries(tbl: Table, rows: Rows, idx: Index, encoded: bytes): (r: set<bytes>)
    requires ValidIndex(tbl, idx) && forall pk :: pk in rows ==> RowFits(tbl, rows[pk])
  {
    set pk | pk in rows && IndexEntry(tbl, idx, rows[pk]) == Some(encoded)
  }

  ghost predicate IndexIs(s: Store, tbl: Table, rows: Rows, idx: Index)
    requires ValidIndex(tbl, idx) && forall pk :: pk in rows ==> RowFits(tbl, rows[pk])
  {
    forall encoded :: FieldsAt(s, IndexKey(idx.iid, encoded)).Keys == Entries(tbl, rows, idx, encoded)
  }

  ghost predicate RowAt(s: Store, tbl: Table, rows: Rows, pk: bytes)
  {
    if pk in rows then RowIs(FieldsAt(s, RowKey(tbl.tid, pk)), tbl, rows[pk])
    else FieldsAt(s, RowKey(tbl.tid, pk)) == map[]
  }

  ghost predicate RowsAre(s: Store, tbl: Table, rows: Rows)
  {
    forall pk :: RowAt(s, tbl, rows, pk)
  }

  ghost predicate IndexesAre(s: Store, tbl: Table, rows: Rows)
    requires ValidTable(tbl) && RowsFit(tbl, rows)
  {
    forall j :: 0 <= j < |tbl.indexes| ==> IndexIs(s, tbl, rows, tbl.indexes[j])
  }

  /** Two different rows never share a tuple of a UNIQUE index. */
  ghost predicate UniqueHolds(tbl: Table, rows: Rows)
    requires ValidTable(tbl) && RowsFit(tbl, rows)
  {
    forall j, p, q | 0 <= j < |tbl.indexes| && tbl.indexes[j].unique && p in rows && q in rows ::
      IndexEntry(tbl, tbl.indexes[j], rows[p]).Some?
      && IndexEntry(tbl, tbl.indexes[j], rows[p]) == IndexEntry(tbl, tbl.indexes[j], rows[q])
      ==> p == q
  }

  /** The store holds exactly `rows`, every index lists exactly the rows it should, and UNIQUE holds. */
  ghost predicate StoreIs(s: Store, tbl: Table, rows: Rows)
  {
    ValidTable(tbl) && RowsFit(tbl, rows) && RowsAre(s, tbl, rows) && IndexesAre(s, tbl, rows) && UniqueHolds(tbl, rows)
  }

  /** A live row whose entry in some UNIQUE index is the one `row` would take. */
  ghost predicate Conflict(tbl: Table, rows: Rows, pk: bytes, row: Row)
    requires ValidTable(tbl) && RowsFit(tbl, rows) && RowFits(tbl, row)
  {
    exists j, q :: 0 <= j < |tbl.indexes| && tbl.indexes[j].unique && q in rows && q != pk
      && IndexEntry(tbl, tbl.indexes[j], row).Some?
      && IndexEntry(tbl, tbl.indexes[j], rows[q]) == IndexEntry(tbl, tbl.indexes[j], row)
  }

  lemma UniqueAfterPut(tbl: Table, rows: Rows, pk: bytes, row: Row)
    requires ValidTable(tbl) && RowsFit(tbl, rows) && UniqueHolds(tbl, rows)
    requires RowFits(tbl, row) && PkPresent(tbl, row) && PkOf(tbl, row) == pk
    requires !Conflict(tbl, rows, pk, row)
    ensures RowsFit(tbl, rows[pk := row]) && UniqueHolds(tbl, rows[pk := row])
  {
  }
}
