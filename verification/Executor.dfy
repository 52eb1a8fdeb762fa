/** Plan execution: every plan returns exactly the live rows that meet the terms it navigates by. */
module Executor {
  import opened Common
  import opened Bytes
  import opened Encoding
  import opened Keys
  import opened Engine
  import opened Schema
  import opened Predicate
  import opened Planner
  import VTable

  /** Arguments for a plan: one non-NULL value per term, of the column's affinity. */
  ghost predicate ArgsFit(tbl: Table, terms: seq<Term>, argv: seq<Value>)
  {
    && |argv| == |terms|
    && forall k :: 0 <= k < |terms| ==>
         terms[k].col < |tbl.columns| && Fits(argv[k], tbl.columns[terms[k].col].aff) && Plain(argv[k])
  }

  ghost predicate PlainRows(rows: Rows)
  {
    forall pk, c :: pk in rows && 0 <= c < |rows[pk]| ==> Plain(rows[pk][c])
  }

  predicate TermHolds(t: Term, arg: Value, row: Row)
  {
    EvalCmp(t.col, t.op, arg, row) == True
  }

  ghost predicate AllHold(terms: seq<Term>, argv: seq<Value>, row: Row)
    requires |argv| == |terms|
  {
    forall k :: 0 <= k < |terms| ==> TermHolds(terms[k], argv[k], row)
  }

  /**
    The row a range plan cannot see: a one-column index keys it by the empty string, so its entry key
    equals the scan's start, and the scan is strictly after that.
  */
  ghost predicate Unseen(tbl: Table, plan: Plan, row: Row)
    requires ValidTable(tbl) && PlanFits(tbl, plan) && RowFits(tbl, row)
  {
    && plan.IndexRange?
    && |PlanIndex(tbl, plan).columns| == 1
    && row[IndexOrd(tbl, PlanIndex(tbl, plan), 0)] in {Text([]), Blob([])}
  }

  /**
    The bound a range plan forgets: an empty BLOB on a one-column index is written as a nil slice,
    which the scan takes for no upper bound.
  */
  predicate DropsUpper(tbl: Table, plan: Plan, argv: seq<Value>)
    requires ValidTable(tbl) && PlanFits(tbl, plan) && |argv| == |Terms(tbl, plan)|
  {
    && plan.IndexRange? && |PlanIndex(tbl, plan).columns| == 1 && !plan.upper.Absent?
    && argv != [] && argv[|argv| - 1] == Blob([])
  }

  /** The row meets what the plan goes by: all its terms, or all but a dropped bound if its indexed value is there. */
  ghost predicate Matches(tbl: Table, plan: Plan, argv: seq<Value>, row: Row)
    requires ValidTable(tbl) && PlanFits(tbl, plan) && |argv| == |Terms(tbl, plan)| && RowFits(tbl, row)
  {
    var terms, last := Terms(tbl, plan), |argv| - 1;
    if DropsUpper(tbl, plan, argv) then
      row[IndexOrd(tbl, PlanIndex(tbl, plan), 0)] != Null && AllHold(terms[..last], argv[..last], row)
    else AllHold(terms, argv, row)
  }

  /** What a plan returns. */
  ghost function Selected(tbl: Table, rows: Rows, plan: Plan, argv: seq<Value>): (r: Rows)
    requires ValidTable(tbl) && RowsFit(tbl, rows) && PlanFits(tbl, plan) && |argv| == |Terms(tbl, plan)|
  {
    map pk | pk in rows && Matches(tbl, plan, argv, rows[pk]) && !Unseen(tbl, plan, rows[pk]) :: rows[pk]
  }

  // ---- Loading rows ----

  /** `loadRow` for a schema without column defaults: a row key with no fields left is no row. */
  function LoadRow(s: Store, tbl: Table, pk: bytes): (r: Option<Row>)
    requires forall i :: 0 <= i < |tbl.pkCols| ==> tbl.pkCols[i] < |tbl.columns|
  {
    var f := FieldsAt(s, RowKey(tbl.tid, pk));
    if f == map[] then None else Some(ValuesFromSnapshot(tbl, pk, f))
  }

  lemma LoadRowExact(s: Store, tbl: Table, rows: Rows, pk: bytes)
    requires ValidTable(tbl) && RowsFit(tbl, rows) && RowsAre(s, tbl, rows)
    ensures LoadRow(s, tbl, pk) == if pk in rows then Some(rows[pk]) else None
  {
    VTable.LiveRow(s, tbl, rows, pk);
  }

  /** `loadRowsForPKs`: the keys that are no rows are passed over. */
  method LoadRows(s: Store, tbl: Table, pks: set<bytes>) returns (out: Rows)
    requires forall i :: 0 <= i < |tbl.pkCols| ==> tbl.pkCols[i] < |tbl.columns|
    ensures out == map pk | pk in pks && LoadRow(s, tbl, pk).Some? :: LoadRow(s, tbl, pk).value
  {
    hide *;
    out := map[];
    var left := pks;
    while left != {}
      invariant left <= pks
      invariant out == map pk | pk in pks - left && LoadRow(s, tbl, pk).Some? :: LoadRow(s, tbl, pk).value
      decreases left
    {
      var pk :| pk in left;
      var row := LoadRow(s, tbl, pk);
      if row.Some? {
        out := out[pk := row.value];
      }
      left := left - {pk};
    }
  }

  lemma LoadedExact(s: Store, tbl: Table, pks: set<bytes>, rows: Rows)
    requires ValidTable(tbl) && RowsFit(tbl, rows) && RowsAre(s, tbl, rows)
    ensures (map pk | pk in pks && LoadRow(s, tbl, pk).Some? :: LoadRow(s, tbl, pk).value)
         == (map pk | pk in rows && pk in pks :: rows[pk])
  {
    VTable.KeyColumnsExist(tbl);
    hide *;
    forall pk ensures LoadRow(s, tbl, pk) == if pk in rows then Some(rows[pk]) else None {
      LoadRowExact(s, tbl, rows, pk);
    }
  }

  // ---- Full scan and primary-key lookup ----

  /** The scan order of the engine: every key that has fields, ascending; keys without fields may appear too. */
  ghost predicate ScanOrder(s: Store, keys: seq<bytes>)
  {
    && (forall i, j :: 0 <= i < j < |keys| ==> Compare(keys[i], keys[j]) < 0)
    && (forall k :: FieldsAt(s, k) != map[] ==> k in keys)
  }

  /** Such an order exists for every store: the keys sorted. */
  method SortedKeys(s: Store) returns (keys: seq<bytes>)
    ensures ScanOrder(s, keys)
  {
    keys := [];
    var left := s.Keys;
    while left != {}
      invariant left <= s.Keys && (forall k :: k in keys <==> k in s.Keys - left)
      invariant forall i, j :: 0 <= i < j < |keys| ==> Compare(keys[i], keys[j]) < 0
      decreases left
    {
      var key :| key in left;
      keys := InsertKey(keys, key);
      left := left - {key};
    }
    assert forall k :: FieldsAt(s, k) != map[] ==> k in s.Keys;
  }

  method InsertKey(keys: seq<bytes>, key: bytes) returns (r: seq<bytes>)
    requires key !in keys && forall i, j :: 0 <= i < j < |keys| ==> Compare(keys[i], keys[j]) < 0
    ensures (forall i, j :: 0 <= i < j < |r| ==> Compare(r[i], r[j]) < 0) && forall k :: k in r <==> k == key || k in keys
  {
    hide *;
    var i := 0;
    while i < |keys| && Compare(keys[i], key) < 0
      invariant 0 <= i <= |keys| && forall j :: 0 <= j < i ==> Compare(keys[j], key) < 0
    {
      i := i + 1;
    }
    forall j | i <= j < |keys| ensures Compare(key, keys[j]) < 0 {
      KeyBefore(keys, key, i, j);
    }
    r := keys[..i] + [key] + keys[i..];
  }

  lemma KeyBefore(keys: seq<bytes>, key: bytes, i: nat, j: nat)
    requires i <= j < |keys| && key != keys[i] && Compare(keys[i], key) >= 0 && (i < j ==> Compare(keys[i], keys[j]) < 0)
    ensures Compare(key, keys[j]) < 0
  {
    CompareFlip(keys[i], key);
    if i < j {
      CompareTransitive(key, keys[i], keys[j]);
    }
  }

  /** The primary keys of the table's row keys in a scan. */
  method ScannedPKs(keys: seq<bytes>, tid: ID) returns (pks: set<bytes>)
    ensures forall pk :: RowKey(tid, pk) in keys <==> pk in pks
  {
    pks := {};
    for i := 0 to |keys|
      invariant forall pk :: RowKey(tid, pk) in keys[..i] <==> pk in pks
    {
      var pk := ParseRowKey(keys[i], tid);
      assert keys[..i + 1] == keys[..i] + [keys[i]];
      if pk.Some? {
        pks := pks + {pk.value};
      }
    }
    assert keys[..|keys|] == keys;
  }

  method FilterFullScan(s: Store, keys: seq<bytes>, tbl: Table, ghost rows: Rows) returns (out: Rows)
    requires ValidTable(tbl) && RowsFit(tbl, rows) && RowsAre(s, tbl, rows) && ScanOrder(s, keys)
    ensures out == rows
  {
    var pks := ScannedPKs(keys, tbl.tid);
    forall pk | pk in rows
      ensures pk in pks
    {
      VTable.LiveRow(s, tbl, rows, pk);
    }
    LoadedExact(s, tbl, pks, rows);
    out := LoadRows(s, tbl, pks);
  }

  /** Equality of every component is equality of the tuples. */
  lemma EqTermsMeanEqual(tbl: Table, cols: seq<nat>, argv: seq<Value>, row: Row)
    requires ArgsFit(tbl, EqTerms(cols), argv) && RowFits(tbl, row)
    requires forall c :: 0 <= c < |row| ==> Plain(row[c])
    ensures forall k :: 0 <= k < |cols| ==> (TermHolds(EqTerms(cols)[k], argv[k], row) <==> row[cols[k]] == argv[k])
  {
    forall k | 0 <= k < |cols|
      ensures TermHolds(EqTerms(cols)[k], argv[k], row) <==> row[cols[k]] == argv[k]
    {
      var c := cols[k];
      assert EqTerms(cols)[k] == Term(c, Eq);
      if row[c] != Null {
        TypedIsValueOrder(row[c], Eq, argv[k], tbl.columns[c].aff);
      }
    }
  }

  lemma PkTermsMeanKey(tbl: Table, argv: seq<Value>, row: Row)
    requires ValidTable(tbl) && ArgsFit(tbl, EqTerms(tbl.pkCols), argv)
    requires RowFits(tbl, row) && PkPresent(tbl, row) && forall c :: 0 <= c < |row| ==> Plain(row[c])
    ensures AllFit(argv, PkAffinities(tbl))
    ensures AllHold(EqTerms(tbl.pkCols), argv, row) <==> PkOf(tbl, row) == EncodeKey(argv, PkAffinities(tbl))
  {
    EqTermsMeanEqual(tbl, tbl.pkCols, argv, row);
    forall i | 0 <= i < |argv|
      ensures Fits(argv[i], PkAffinities(tbl)[i])
    {
      assert EqTerms(tbl.pkCols)[i].col == tbl.pkCols[i];
    }
    if PkOf(tbl, row) == EncodeKey(argv, PkAffinities(tbl)) {
      KeyInjective(PkValues(tbl, row), argv, PkAffinities(tbl));
      assert forall i :: 0 <= i < |argv| ==> PkValues(tbl, row)[i] == row[tbl.pkCols[i]];
    }
    if AllHold(EqTerms(tbl.pkCols), argv, row) {
      assert forall i :: 0 <= i < |argv| ==> TermHolds(EqTerms(tbl.pkCols)[i], argv[i], row);
      assert PkValues(tbl, row) == argv;
    }
  }

  method FilterPKEquality(s: Store, tbl: Table, argv: seq<Value>, ghost rows: Rows) returns (out: Rows)
    requires StoreIs(s, tbl, rows) && PlainRows(rows) && ArgsFit(tbl, Terms(tbl, PKEquality), argv)
    ensures out == Selected(tbl, rows, PKEquality, argv)
  {
    assert AllFit(argv, PkAffinities(tbl)) by {
      forall i | 0 <= i < |argv|
        ensures Fits(argv[i], PkAffinities(tbl)[i])
      {
        assert EqTerms(tbl.pkCols)[i].col == tbl.pkCols[i];
      }
    }
    var enc := EncodePK(argv, PkAffinities(tbl));
    var pk := enc.value;
    LoadRowExact(s, tbl, rows, pk);
    forall q | q in rows
      ensures q == pk <==> AllHold(Terms(tbl, PKEquality), argv, rows[q])
    {
      PkTermsMeanKey(tbl, argv, rows[q]);
    }
    out := map[];
    var row := LoadRow(s, tbl, pk);
    if row.Some? {
      out := out[pk := row.value];
    }
  }

  // ---- Index equality ----

  lemma IndexTermsMeanEntry(tbl: Table, idx: Index, argv: seq<Value>, row: Row)
    requires ValidTable(tbl) && ValidIndex(tbl, idx) && ArgsFit(tbl, EqTerms(IndexOrds(tbl, idx)), argv)
    requires RowFits(tbl, row) && forall c :: 0 <= c < |row| ==> Plain(row[c])
    ensures AllFit(argv, IndexAffinities(tbl, idx))
    ensures AllHold(EqTerms(IndexOrds(tbl, idx)), argv, row)
       <==> IndexEntry(tbl, idx, row) == Some(EncodeKey(argv, IndexAffinities(tbl, idx)))
  {
    var ords, affs, vals := IndexOrds(tbl, idx), IndexAffinities(tbl, idx), IndexValues(tbl, idx, row);
    EqTermsMeanEqual(tbl, ords, argv, row);
    forall i | 0 <= i < |argv|
      ensures Fits(argv[i], affs[i]) && vals[i] == row[ords[i]]
    {
      assert EqTerms(ords)[i].col == ords[i];
    }
    if IndexEntry(tbl, idx, row) == Some(EncodeKey(argv, affs)) {
      KeyInjective(vals, argv, affs);
      assert forall k :: 0 <= k < |ords| ==> TermHolds(EqTerms(ords)[k], argv[k], row);
    }
    if AllHold(EqTerms(ords), argv, row) {
      assert forall k :: 0 <= k < |ords| ==> TermHolds(EqTerms(ords)[k], argv[k], row);
      assert vals == argv;
    }
  }

  lemma EqualityIndex(tbl: Table, name: bytes, argv: seq<Value>)
    requires ValidTable(tbl) && PlanFits(tbl, IndexEquality(name)) && ArgsFit(tbl, Terms(tbl, IndexEquality(name)), argv)
    ensures var idx := PlanIndex(tbl, IndexEquality(name));
            && ValidIndex(tbl, idx) && Terms(tbl, IndexEquality(name)) == EqTerms(IndexOrds(tbl, idx))
            && |argv| == |Terms(tbl, IndexEquality(name))| == |idx.columns| && AllFit(argv, IndexAffinities(tbl, idx))
  {
    var idx := PlanIndex(tbl, IndexEquality(name));
    forall i | 0 <= i < |argv| ensures Fits(argv[i], IndexAffinities(tbl, idx)[i]) {
      assert EqTerms(IndexOrds(tbl, idx))[i].col == IndexOrd(tbl, idx, i);
    }
  }

  lemma EqualityMatches(tbl: Table, name: bytes, argv: seq<Value>, row: Row)
    requires ValidTable(tbl) && PlanFits(tbl, IndexEquality(name)) && |argv| == |Terms(tbl, IndexEquality(name))| && RowFits(tbl, row)
    ensures Matches(tbl, IndexEquality(name), argv, row) <==> AllHold(Terms(tbl, IndexEquality(name)), argv, row)
    ensures !Unseen(tbl, IndexEquality(name), row)
  {
  }

  lemma EntryListed(s: Store, tbl: Table, rows: Rows, name: bytes, encoded: bytes, pk: bytes)
    requires StoreIs(s, tbl, rows) && PlanFits(tbl, IndexEquality(name)) && pk in rows && RowFits(tbl, rows[pk])
    ensures var idx := PlanIndex(tbl, IndexEquality(name));
            ValidIndex(tbl, idx) && (pk in FieldsAt(s, IndexKey(idx.iid, encoded)).Keys <==> IndexEntry(tbl, idx, rows[pk]) == Some(encoded))
  {
    var idx := PlanIndex(tbl, IndexEquality(name));
    assert IndexIs(s, tbl, rows, idx);
    assert FieldsAt(s, IndexKey(idx.iid, encoded)).Keys == Entries(tbl, rows, idx, encoded);
  }

  method FilterIndexEquality(s: Store, tbl: Table, name: bytes, argv: seq<Value>, ghost rows: Rows) returns (out: Rows)
    requires StoreIs(s, tbl, rows) && PlainRows(rows)
    requires PlanFits(tbl, IndexEquality(name)) && ArgsFit(tbl, Terms(tbl, IndexEquality(name)), argv)
    ensures out == Selected(tbl, rows, IndexEquality(name), argv)
  {
    hide *;
    VTable.KnownIndexes(s, tbl, rows, true);
    VTable.KeyColumnsExist(tbl);
    ghost var plan := IndexEquality(name);
    EqualityIndex(tbl, name, argv);
    var idx := PlanIndex(tbl, IndexEquality(name));
    var affs := IndexAffinities(tbl, idx);
    var encoded := EncodePK(argv, affs);
    var snap := FieldsAt(s, IndexKey(idx.iid, encoded.value));
    forall q | q in rows
      ensures q in snap.Keys <==> Matches(tbl, plan, argv, rows[q]) && !Unseen(tbl, plan, rows[q])
    {
      VTable.RowsFitAt(tbl, rows, q);
      PlainAt(rows, q);
      IndexTermsMeanEntry(tbl, idx, argv, rows[q]);
      EqualityMatches(tbl, name, argv, rows[q]);
      EntryListed(s, tbl, rows, name, encoded.value, q);
    }
    SelectedIs(tbl, rows, plan, argv, snap.Keys);
    LoadedExact(s, tbl, snap.Keys, rows);
    out := LoadRows(s, tbl, snap.Keys);
  }

  // ---- Index range ----

  /** The window of a range scan: keys that start with `prefix`, by what follows it. */
  datatype Window = Window(prefix: bytes, lower: Option<bytes>, lowerInc: bool, upper: Option<bytes>, upperInc: bool)

  predicate PastUpper(w: Window, tail: bytes)
  {
    w.upper.Some? && (Compare(tail, w.upper.value) > 0 || (tail == w.upper.value && !w.upperInc))
  }

  /** `ScanKeys` starts strictly after this key. */
  function StartKey(w: Window): (r: bytes)
  {
    if w.lower.Some? && !w.lowerInc then w.prefix + w.lower.value else w.prefix
  }

  predicate InWindow(w: Window, tail: bytes)
  {
    && !PastUpper(w, tail)
    && (match w.lower
        case None => tail != []
        case Some(l) => if w.lowerInc then tail != [] && Compare(tail, l) >= 0 else Compare(tail, l) > 0)
  }

  predicate Wanted(w: Window, key: bytes)
  {
    w.prefix <= key && InWindow(w, key[|w.prefix|..])
  }

  lemma AfterStart(w: Window, key: bytes)
    requires w.prefix <= key
    ensures var tail := key[|w.prefix|..];
            (Compare(key, StartKey(w)) > 0)
            == (if w.lower.Some? && !w.lowerInc then Compare(tail, w.lower.value) > 0 else tail != [])
  {
    var tail := key[|w.prefix|..];
    assert key == w.prefix + tail;
    CompareCommonPrefix(w.prefix, tail, if w.lower.Some? && !w.lowerInc then w.lower.value else []);
    assert w.prefix + [] == w.prefix;
  }

  /** Once past the upper bound, every later key under the prefix is past it too. */
  lemma PastUpperStays(w: Window, k1: bytes, k2: bytes)
    requires w.prefix <= k1 && w.prefix <= k2 && Compare(k1, k2) <= 0
    requires PastUpper(w, k1[|w.prefix|..])
    ensures PastUpper(w, k2[|w.prefix|..])
  {
    var t1, t2 := k1[|w.prefix|..], k2[|w.prefix|..];
    assert k1 == w.prefix + t1 && k2 == w.prefix + t2;
    CompareCommonPrefix(w.prefix, t1, t2);
    var u := w.upper.value;
    CompareFlip(t1, u);
    CompareFlip(t2, u);
    if Compare(t1, u) > 0 {
      CompareTransitive(u, t1, t2);
    }
  }

  /** Some key of `keys` inside the window lists `pk`. */
  ghost predicate Listed(s: Store, keys: seq<bytes>, w: Window, pk: bytes)
  {
    exists k :: 0 <= k < |keys| && Wanted(w, keys[k]) && pk in FieldsAt(s, keys[k])
  }

  lemma ListedNext(s: Store, keys: seq<bytes>, i: nat, w: Window, pk: bytes)
    requires i < |keys|
    ensures Listed(s, keys[..i + 1], w, pk)
       <==> Listed(s, keys[..i], w, pk) || (Wanted(w, keys[i]) && pk in FieldsAt(s, keys[i]))
  {
    var now := keys[..i + 1];
    if Listed(s, keys[..i], w, pk) {
      var k :| 0 <= k < i && Wanted(w, keys[..i][k]) && pk in FieldsAt(s, keys[..i][k]);
      assert now[k] == keys[..i][k];
    }
    if Listed(s, now, w, pk) {
      var k :| 0 <= k < i + 1 && Wanted(w, now[k]) && pk in FieldsAt(s, now[k]);
      if k < i {
        assert keys[..i][k] == now[k];
      }
    }
    assert now[i] == keys[i];
  }

  lemma ListedStops(s: Store, keys: seq<bytes>, i: nat, w: Window, pk: bytes)
    requires ScanOrder(s, keys) && i < |keys| && w.prefix <= keys[i] && PastUpper(w, keys[i][|w.prefix|..])
    ensures Listed(s, keys, w, pk) <==> Listed(s, keys[..i], w, pk)
  {
    if Listed(s, keys, w, pk) {
      var k :| 0 <= k < |keys| && Wanted(w, keys[k]) && pk in FieldsAt(s, keys[k]);
      if k >= i {
        if k > i {
          assert Compare(keys[i], keys[k]) < 0;
        }
        PastUpperStays(w, keys[i], keys[k]);
      }
      assert keys[..i][k] == keys[k];
    }
    if Listed(s, keys[..i], w, pk) {
      var k :| 0 <= k < i && Wanted(w, keys[..i][k]) && pk in FieldsAt(s, keys[..i][k]);
      assert keys[k] == keys[..i][k];
    }
  }

  /** The scan callback of `filterIndexRange`, with its early stop. */
  method ScanWindow(s: Store, keys: seq<bytes>, w: Window) returns (pks: set<bytes>)
    requires ScanOrder(s, keys)
    ensures forall pk :: pk in pks <==> Listed(s, keys, w, pk)
  {
    pks := {};
    for i := 0 to |keys|
      invariant forall pk :: pk in pks <==> Listed(s, keys[..i], w, pk)
    {
      var key := keys[i];
      forall pk {
        ListedNext(s, keys, i, w, pk);
      }
      if w.prefix <= key {
        AfterStart(w, key);
        if Compare(key, StartKey(w)) > 0 {
          var tail := key[|w.prefix|..];
          if w.lower.Some? && w.lowerInc && Compare(tail, w.lower.value) < 0 {
            continue;
          }
          if PastUpper(w, tail) {
            forall pk {
              ListedStops(s, keys, i, w, pk);
            }
            return;
          }
          pks := pks + FieldsAt(s, key).Keys;
        }
      }
    }
    assert keys[..|keys|] == keys;
  }

  /** How the last component of an index key is written. */
  function LastCode(v: Value, aff: Affinity, columns: nat): (r: bytes)
    requires Fits(v, aff)
  {
    if columns == 1 then EncodeIndexValue(v, aff) else EncodeComponent(v, aff)
  }

  lemma LastCodeOrder(v: Value, w: Value, aff: Affinity, columns: nat)
    requires Fits(v, aff) && Fits(w, aff)
    ensures Compare(LastCode(v, aff, columns), LastCode(w, aff, columns)) == ValueCompare(v, w)
    ensures LastCode(v, aff, columns) == [] <==> columns == 1 && v in {Text([]), Blob([])}
  {
    if columns == 1 {
      IndexValueOrder(v, w, aff);
    } else {
      ComponentOrder(v, w, aff, [], []);
      assert EncodeComponent(v, aff) + [] == EncodeComponent(v, aff);
      assert EncodeComponent(w, aff) + [] == EncodeComponent(w, aff);
    }
  }

  lemma KeySplit(vals: seq<Value>, affs: seq<Affinity>)
    requires AllFit(vals, affs) && vals != []
    ensures var n := |vals|;
            EncodeKey(vals, affs) == EncodeComponents(vals[..n - 1], affs[..n - 1]) + LastCode(vals[n - 1], affs[n - 1], n)
  {
    hide EncodeComponent, EncodeIndexValue;
    var n := |vals|;
    if n == 1 {
      assert EncodeComponents(vals[..0], affs[..0]) + LastCode(vals[0], affs[0], 1) == LastCode(vals[0], affs[0], 1);
    } else {
      EncodeComponentsSnoc(vals[..n - 1], affs[..n - 1], vals[n - 1], affs[n - 1]);
      assert vals[..n - 1] + [vals[n - 1]] == vals && affs[..n - 1] + [affs[n - 1]] == affs;
    }
  }

  /** The window a range plan scans; an upper bound that encodes to nil is no bound. */
  function PlanWindow(tbl: Table, plan: Plan, argv: seq<Value>): (w: Window)
    requires ValidTable(tbl) && PlanFits(tbl, plan) && plan.IndexRange? && ArgsFit(tbl, Terms(tbl, plan), argv)
  {
    RangeArgsFit(tbl, plan, argv);
    var idx := PlanIndex(tbl, plan);
    var n, affs := |idx.columns|, IndexAffinities(tbl, idx);
    var upperPos := if plan.lower.Absent? then n - 1 else n;
    Window(
      IDHeader(INDEX, idx.iid) + EncodeComponents(argv[..n - 1], affs[..n - 1]),
      if plan.lower.Absent? then None else Some(LastCode(argv[n - 1], affs[n - 1], n)),
      plan.lower.Inclusive?,
      if plan.upper.Absent? || DropsUpper(tbl, plan, argv) then None else Some(LastCode(argv[upperPos], affs[n - 1], n)),
      plan.upper.Inclusive?)
  }

  lemma RangeArgsFit(tbl: Table, plan: Plan, argv: seq<Value>)
    requires ValidTable(tbl) && PlanFits(tbl, plan) && plan.IndexRange? && ArgsFit(tbl, Terms(tbl, plan), argv)
    ensures var idx := PlanIndex(tbl, plan);
            var n, affs := |idx.columns|, IndexAffinities(tbl, idx);
            var upperPos := if plan.lower.Absent? then n - 1 else n;
            && |argv| >= n && AllFit(argv[..n - 1], affs[..n - 1])
            && (!plan.lower.Absent? ==> Fits(argv[n - 1], affs[n - 1]) && Plain(argv[n - 1]))
            && (!plan.upper.Absent? ==> upperPos < |argv| && Fits(argv[upperPos], affs[n - 1]) && Plain(argv[upperPos]))
  {
    var idx := PlanIndex(tbl, plan);
    var n, affs, ords, terms := |idx.columns|, IndexAffinities(tbl, idx), IndexOrds(tbl, idx), Terms(tbl, plan);
    var upperPos := if plan.lower.Absent? then n - 1 else n;
    forall i | 0 <= i < n - 1
      ensures Fits(argv[i], affs[i])
    {
      assert terms[i] == Term(ords[i], Eq);
    }
    assert !plan.lower.Absent? ==> terms[n - 1].col == ords[n - 1];
    assert !plan.upper.Absent? ==> terms[upperPos].col == ords[n - 1];
  }

  lemma BoundMeans(row: Row, t: Term, arg: Value, aff: Affinity, columns: nat)
    requires t.col < |row| && Fits(row[t.col], aff) && Fits(arg, aff) && Plain(row[t.col]) && Plain(arg)
    ensures TermHolds(t, arg, row)
       <==> FromCmp(Compare(LastCode(row[t.col], aff, columns), LastCode(arg, aff, columns)), t.op) == True
  {
    LastCodeOrder(row[t.col], arg, aff, columns);
    TypedIsValueOrder(row[t.col], t.op, arg, aff);
  }

  /** The bound terms of a range plan and the arguments they compare with. */
  lemma BoundTermsAt(tbl: Table, plan: Plan)
    requires ValidTable(tbl) && PlanFits(tbl, plan) && plan.IndexRange?
    ensures var n, terms := |PlanIndex(tbl, plan).columns|, Terms(tbl, plan);
            var c := IndexOrd(tbl, PlanIndex(tbl, plan), n - 1);
            var upperPos := if plan.lower.Absent? then n - 1 else n;
            && |terms| == (if plan.upper.Absent? then upperPos else upperPos + 1)
            && (forall k :: 0 <= k < n - 1 ==> terms[k] == Term(IndexOrd(tbl, PlanIndex(tbl, plan), k), Eq))
            && (!plan.lower.Absent? ==> terms[n - 1] == LowerTerms(c, plan.lower)[0])
            && (!plan.upper.Absent? ==> terms[upperPos] == UpperTerms(c, plan.upper)[0])
            && (forall k :: 0 <= k < n ==> terms[k].col == IndexOrd(tbl, PlanIndex(tbl, plan), k))
  {
    var ords := IndexOrds(tbl, PlanIndex(tbl, plan));
    assert forall k :: 0 <= k < |ords| - 1 ==> ords[..|ords| - 1][k] == ords[k];
  }

  lemma WindowMeans(w: Window, code: bytes, lower: Bound, upper: Bound, lowerCode: bytes, upperCode: bytes)
    requires w.lower == (if lower.Absent? then None else Some(lowerCode)) && w.lowerInc == lower.Inclusive?
    requires w.upper == (if upper.Absent? then None else Some(upperCode)) && (!upper.Absent? ==> w.upperInc == upper.Inclusive?)
    ensures InWindow(w, code)
       <==> code != []
            && (!lower.Absent? ==> FromCmp(Compare(code, lowerCode), LowerTerms(0, lower)[0].op) == True)
            && (!upper.Absent? ==> FromCmp(Compare(code, upperCode), UpperTerms(0, upper)[0].op) == True)
  {
  }

  /** All the bound terms hold. */
  ghost predicate BoundsHold(terms: seq<Term>, argv: seq<Value>, from: nat, row: Row)
    requires |argv| == |terms|
  {
    forall k :: from <= k < |terms| ==> TermHolds(terms[k], argv[k], row)
  }

  lemma BoundsHoldCases(tbl: Table, plan: Plan, argv: seq<Value>, row: Row)
    requires ValidTable(tbl) && PlanFits(tbl, plan) && plan.IndexRange? && |argv| == |Terms(tbl, plan)|
    ensures var n, terms := |PlanIndex(tbl, plan).columns|, Terms(tbl, plan);
            var c := IndexOrd(tbl, PlanIndex(tbl, plan), n - 1);
            var upperPos := if plan.lower.Absent? then n - 1 else n;
            BoundsHold(terms, argv, n - 1, row)
            <==> && (!plan.lower.Absent? ==> |argv| > n - 1 && TermHolds(LowerTerms(c, plan.lower)[0], argv[n - 1], row))
                 && (!plan.upper.Absent? ==> |argv| > upperPos && TermHolds(UpperTerms(c, plan.upper)[0], argv[upperPos], row))
  {
    BoundTermsAt(tbl, plan);
    var n, terms := |PlanIndex(tbl, plan).columns|, Terms(tbl, plan);
    var upperPos := if plan.lower.Absent? then n - 1 else n;
  }

  /** The two bounds, seen in the window, are the two bound terms. */
  lemma BoundsMeanWindow(tbl: Table, plan: Plan, argv: seq<Value>, row: Row, c: nat)
    requires ValidTable(tbl) && PlanFits(tbl, plan) && plan.IndexRange? && ArgsFit(tbl, Terms(tbl, plan), argv)
    requires RowFits(tbl, row) && forall c :: 0 <= c < |row| ==> Plain(row[c])
    requires c == IndexOrd(tbl, PlanIndex(tbl, plan), |PlanIndex(tbl, plan).columns| - 1) && row[c] != Null
    requires !DropsUpper(tbl, plan, argv)
    ensures var n := |PlanIndex(tbl, plan).columns|;
            var code := LastCode(row[c], tbl.columns[c].aff, n);
            (code != [] && BoundsHold(Terms(tbl, plan), argv, n - 1, row))
            <==> InWindow(PlanWindow(tbl, plan, argv), code)
  {
    RangeArgsFit(tbl, plan, argv);
    BoundsHoldCases(tbl, plan, argv, row);
    var idx, w := PlanIndex(tbl, plan), PlanWindow(tbl, plan, argv);
    var n, aff := |idx.columns|, tbl.columns[c].aff;
    assert aff == IndexAffinities(tbl, idx)[n - 1];
    var upperPos := if plan.lower.Absent? then n - 1 else n;
    var code := LastCode(row[c], aff, n);
    var lowerCode := if plan.lower.Absent? then [] else LastCode(argv[n - 1], aff, n);
    var upperCode := if plan.upper.Absent? then [] else LastCode(argv[upperPos], aff, n);
    WindowMeans(w, code, plan.lower, plan.upper, lowerCode, upperCode);
    if !plan.lower.Absent? {
      BoundMeans(row, LowerTerms(c, plan.lower)[0], argv[n - 1], aff, n);
    }
    if !plan.upper.Absent? {
      BoundMeans(row, UpperTerms(c, plan.upper)[0], argv[upperPos], aff, n);
    }
  }

  /** What is left of a window whose upper bound is dropped. */
  lemma DroppedWindow(tbl: Table, plan: Plan, argv: seq<Value>, c: nat)
    requires ValidTable(tbl) && PlanFits(tbl, plan) && plan.IndexRange? && ArgsFit(tbl, Terms(tbl, plan), argv)
    requires DropsUpper(tbl, plan, argv) && c == IndexOrd(tbl, PlanIndex(tbl, plan), 0)
    ensures c < |tbl.columns| && |argv| == |Terms(tbl, plan)| == if plan.lower.Absent? then 1 else 2
    ensures !plan.lower.Absent? ==> Fits(argv[0], tbl.columns[c].aff) && Plain(argv[0])
                                    && LowerTerms(c, plan.lower) == Terms(tbl, plan)[..1]
    ensures var w := PlanWindow(tbl, plan, argv);
            w.upper == None && w.lowerInc == plan.lower.Inclusive?
            && w.lower == if plan.lower.Absent? then None else Some(LastCode(argv[0], tbl.columns[c].aff, 1))
  {
    RangeArgsFit(tbl, plan, argv);
    BoundTermsAt(tbl, plan);
    assert IndexAffinities(tbl, PlanIndex(tbl, plan))[0] == tbl.columns[c].aff;
    hide Terms, LastCode, EncodeComponents, IDHeader, FindIndex;
  }

  /** With the upper bound dropped, the window is the lower bound alone. */
  lemma DroppedMeansWindow(tbl: Table, plan: Plan, argv: seq<Value>, row: Row, c: nat)
    requires ValidTable(tbl) && PlanFits(tbl, plan) && plan.IndexRange? && ArgsFit(tbl, Terms(tbl, plan), argv)
    requires RowFits(tbl, row) && forall c :: 0 <= c < |row| ==> Plain(row[c])
    requires DropsUpper(tbl, plan, argv) && c == IndexOrd(tbl, PlanIndex(tbl, plan), 0) && row[c] != Null
    ensures var code, last := LastCode(row[c], tbl.columns[c].aff, 1), |argv| - 1;
            (code != [] && AllHold(Terms(tbl, plan)[..last], argv[..last], row))
            <==> InWindow(PlanWindow(tbl, plan, argv), code)
  {
    hide *;
    DroppedWindow(tbl, plan, argv, c);
    ColumnFits(tbl, row, c);
    var w, terms, last := PlanWindow(tbl, plan, argv), Terms(tbl, plan), |argv| - 1;
    var aff := tbl.columns[c].aff;
    var code := LastCode(row[c], aff, 1);
    var lowerCode := if plan.lower.Absent? then [] else LastCode(argv[0], aff, 1);
    LowerOp(c, plan.lower);
    WindowMeans(w, code, plan.lower, Absent, lowerCode, []);
    if !plan.lower.Absent? {
      BoundMeans(row, LowerTerms(c, plan.lower)[0], argv[0], aff, 1);
      LowerAlone(terms[..last], argv[..last], LowerTerms(c, plan.lower)[0], argv[0], row);
    } else {
      NothingToHold(terms[..last], argv[..last], row);
    }
  }

  lemma ColumnFits(tbl: Table, row: Row, c: nat)
    requires RowFits(tbl, row) && c < |tbl.columns|
    ensures |row| == |tbl.columns| && (row[c] == Null || Fits(row[c], tbl.columns[c].aff))
  {
  }

  lemma LowerOp(c: nat, lower: Bound)
    ensures !lower.Absent? ==> |LowerTerms(c, lower)| == |LowerTerms(0, lower)| == 1 && LowerTerms(c, lower)[0].col == c
                               && LowerTerms(c, lower)[0].op == LowerTerms(0, lower)[0].op
  {
  }

  lemma LowerAlone(terms: seq<Term>, argv: seq<Value>, t: Term, arg: Value, row: Row)
    requires terms == [t] && argv == [arg]
    ensures AllHold(terms, argv, row) <==> TermHolds(t, arg, row)
  {
    assert terms[0] == t && argv[0] == arg;
  }

  lemma NothingToHold(terms: seq<Term>, argv: seq<Value>, row: Row)
    requires |terms| == |argv| == 0
    ensures AllHold(terms, argv, row)
  {
  }

  lemma EqTermMeans(row: Row, c: nat, arg: Value, aff: Affinity)
    requires c < |row| && (row[c] == Null || Fits(row[c], aff)) && Fits(arg, aff) && Plain(row[c]) && Plain(arg)
    ensures TermHolds(Term(c, Eq), arg, row) <==> row[c] == arg
  {
    if row[c] != Null {
      TypedIsValueOrder(row[c], Eq, arg, aff);
    }
  }

  lemma EqPrefixMeans(tbl: Table, plan: Plan, argv: seq<Value>, row: Row)
    requires ValidTable(tbl) && PlanFits(tbl, plan) && plan.IndexRange? && ArgsFit(tbl, Terms(tbl, plan), argv)
    requires RowFits(tbl, row) && forall c :: 0 <= c < |row| ==> Plain(row[c])
    ensures |argv| >= |PlanIndex(tbl, plan).columns|
    ensures var n := |PlanIndex(tbl, plan).columns|;
            var vals := IndexValues(tbl, PlanIndex(tbl, plan), row);
            (forall k :: 0 <= k < n - 1 ==> TermHolds(Terms(tbl, plan)[k], argv[k], row)) <==> vals[..n - 1] == argv[..n - 1]
  {
    RangeArgsFit(tbl, plan, argv);
    BoundTermsAt(tbl, plan);
    var idx, terms := PlanIndex(tbl, plan), Terms(tbl, plan);
    var n, vals := |idx.columns|, IndexValues(tbl, idx, row);
    forall k | 0 <= k < n - 1
      ensures TermHolds(terms[k], argv[k], row) <==> vals[k] == argv[k]
    {
      var c := IndexOrd(tbl, idx, k);
      assert terms[k] == Term(c, Eq);
      EqTermMeans(row, c, argv[k], tbl.columns[c].aff);
    }
    hide *;
    if vals[..n - 1] == argv[..n - 1] {
      forall k | 0 <= k < n - 1
        ensures TermHolds(terms[k], argv[k], row)
      {
        assert vals[..n - 1][k] == argv[..n - 1][k];
      }
    }
  }

  /** The row has an entry in the plan's index and its key lies in the plan's window. */
  ghost predicate EntryWanted(tbl: Table, plan: Plan, argv: seq<Value>, row: Row)
    requires ValidTable(tbl) && PlanFits(tbl, plan) && plan.IndexRange? && ArgsFit(tbl, Terms(tbl, plan), argv)
    requires RowFits(tbl, row)
  {
    var idx := PlanIndex(tbl, plan);
    var entry := IndexEntry(tbl, idx, row);
    entry.Some? && Wanted(PlanWindow(tbl, plan, argv), IndexKey(idx.iid, entry.value))
  }

  lemma EntryWantedSplit(tbl: Table, plan: Plan, argv: seq<Value>, row: Row)
    requires ValidTable(tbl) && PlanFits(tbl, plan) && plan.IndexRange? && ArgsFit(tbl, Terms(tbl, plan), argv)
    requires RowFits(tbl, row) && !AnyNull(IndexValues(tbl, PlanIndex(tbl, plan), row))
    ensures |argv| >= |PlanIndex(tbl, plan).columns|
    ensures var idx := PlanIndex(tbl, plan);
            var n, c := |idx.columns|, IndexOrd(tbl, idx, |idx.columns| - 1);
            row[c] != Null
            && (EntryWanted(tbl, plan, argv, row)
                <==> IndexValues(tbl, idx, row)[..n - 1] == argv[..n - 1]
                     && InWindow(PlanWindow(tbl, plan, argv), LastCode(row[c], tbl.columns[c].aff, n)))
  {
    hide Wanted, InWindow, LastCode, EncodeKey, EncodeComponents, IndexKey, IDHeader, Terms, ArgsFit;
    RangeArgsFit(tbl, plan, argv);
    var idx := PlanIndex(tbl, plan);
    var n, vals, affs := |idx.columns|, IndexValues(tbl, idx, row), IndexAffinities(tbl, idx);
    var c := IndexOrd(tbl, idx, n - 1);
    assert vals[n - 1] == row[c] && affs[n - 1] == tbl.columns[c].aff;
    WantedEntry(PlanWindow(tbl, plan, argv), idx.iid, vals, argv[..n - 1], affs);
  }

  /** A row's entry lies in the plan's window exactly when the row meets what the plan goes by and is not keyed by nothing. */
  lemma EntryInWindow(tbl: Table, plan: Plan, argv: seq<Value>, row: Row)
    requires ValidTable(tbl) && PlanFits(tbl, plan) && plan.IndexRange? && ArgsFit(tbl, Terms(tbl, plan), argv)
    requires RowFits(tbl, row) && forall c :: 0 <= c < |row| ==> Plain(row[c])
    ensures EntryWanted(tbl, plan, argv, row) <==> Matches(tbl, plan, argv, row) && !Unseen(tbl, plan, row)
  {
    hide *;
    RangeIndex(tbl, plan);
    MatchesIs(tbl, plan, argv, row);
    var idx := PlanIndex(tbl, plan);
    if AnyNull(IndexValues(tbl, idx, row)) {
      NullMeetsNoTerm(tbl, plan, argv, row);
    } else {
      var n, c := |idx.columns|, IndexOrd(tbl, idx, |idx.columns| - 1);
      EntryWantedSplit(tbl, plan, argv, row);
      UnseenMeans(tbl, plan, row);
      if DropsUpper(tbl, plan, argv) {
        DroppedMeansWindow(tbl, plan, argv, row, c);
      } else {
        EqPrefixMeans(tbl, plan, argv, row);
        BoundsMeanWindow(tbl, plan, argv, row, c);
        AllHoldSplit(Terms(tbl, plan), argv, n - 1, row);
      }
    }
  }

  lemma RangeIndex(tbl: Table, plan: Plan)
    requires ValidTable(tbl) && PlanFits(tbl, plan) && plan.IndexRange?
    ensures var idx := PlanIndex(tbl, plan); ValidIndex(tbl, idx) && |idx.columns| > 0
  {
  }

  lemma MatchesIs(tbl: Table, plan: Plan, argv: seq<Value>, row: Row)
    requires ValidTable(tbl) && PlanFits(tbl, plan) && ArgsFit(tbl, Terms(tbl, plan), argv) && RowFits(tbl, row)
    ensures |argv| == |Terms(tbl, plan)| && |row| == |tbl.columns|
    ensures DropsUpper(tbl, plan, argv) ==> plan.IndexRange? && ValidIndex(tbl, PlanIndex(tbl, plan)) && |PlanIndex(tbl, plan).columns| == 1 && |argv| > 0
    ensures !DropsUpper(tbl, plan, argv) ==> (Matches(tbl, plan, argv, row) <==> AllHold(Terms(tbl, plan), argv, row))
    ensures DropsUpper(tbl, plan, argv) ==>
              var c, last := IndexOrd(tbl, PlanIndex(tbl, plan), 0), |argv| - 1;
              (Matches(tbl, plan, argv, row) <==> row[c] != Null && AllHold(Terms(tbl, plan)[..last], argv[..last], row))
  {
    hide AllHold, Terms, FindIndex, IndexOrd;
  }

  lemma AllHoldSplit(terms: seq<Term>, argv: seq<Value>, n: nat, row: Row)
    requires |argv| == |terms| && n <= |terms|
    ensures AllHold(terms, argv, row)
       <==> (forall k :: 0 <= k < n ==> TermHolds(terms[k], argv[k], row)) && BoundsHold(terms, argv, n, row)
  {
  }

  lemma UnseenMeans(tbl: Table, plan: Plan, row: Row)
    requires ValidTable(tbl) && PlanFits(tbl, plan) && plan.IndexRange? && RowFits(tbl, row)
    requires row[IndexOrd(tbl, PlanIndex(tbl, plan), |PlanIndex(tbl, plan).columns| - 1)] != Null
    ensures var n := |PlanIndex(tbl, plan).columns|;
            var c := IndexOrd(tbl, PlanIndex(tbl, plan), n - 1);
            Unseen(tbl, plan, row) <==> LastCode(row[c], tbl.columns[c].aff, n) == []
  {
    var n := |PlanIndex(tbl, plan).columns|;
    var c := IndexOrd(tbl, PlanIndex(tbl, plan), n - 1);
    LastCodeOrder(row[c], row[c], tbl.columns[c].aff, n);
  }

  lemma NullMeetsNoTerm(tbl: Table, plan: Plan, argv: seq<Value>, row: Row)
    requires ValidTable(tbl) && PlanFits(tbl, plan) && plan.IndexRange? && ArgsFit(tbl, Terms(tbl, plan), argv)
    requires RowFits(tbl, row) && AnyNull(IndexValues(tbl, PlanIndex(tbl, plan), row))
    ensures !Matches(tbl, plan, argv, row) && !EntryWanted(tbl, plan, argv, row)
  {
    BoundTermsAt(tbl, plan);
    var idx, terms := PlanIndex(tbl, plan), Terms(tbl, plan);
    var i :| 0 <= i < |idx.columns| && IndexValues(tbl, idx, row)[i] == Null;
    assert row[IndexOrd(tbl, idx, i)] == Null;
    if DropsUpper(tbl, plan, argv) {
      assert i == 0;
      return;
    }
    hide Terms, ValidTable, RowFits, IndexValues;
    assert terms[i].col == IndexOrd(tbl, idx, i);
    assert !TermHolds(terms[i], argv[i], row);
  }

  lemma SharedHeader(h: bytes, lead: bytes, rest: bytes)
    ensures h + lead <= h + rest <==> lead <= rest
    ensures lead <= rest ==> (h + rest)[|h + lead|..] == rest[|lead|..]
  {
    assert (h + rest)[|h|..] == rest && (h + lead)[|h|..] == lead;
    if h + lead <= h + rest {
      assert (h + rest)[..|h + lead|] == h + lead;
      assert rest[..|lead|] == (h + rest)[|h|..|h + lead|] == lead;
    }
  }

  /** Under the equality prefix, what follows it in an entry key is the code of the last component. */
  lemma WantedEntry(w: Window, iid: ID, vals: seq<Value>, eqArgs: seq<Value>, affs: seq<Affinity>)
    requires AllFit(vals, affs) && vals != [] && AllFit(eqArgs, affs[..|affs| - 1])
    requires w.prefix == IDHeader(INDEX, iid) + EncodeComponents(eqArgs, affs[..|affs| - 1])
    ensures var n := |vals|;
            Wanted(w, IndexKey(iid, EncodeKey(vals, affs)))
            <==> vals[..n - 1] == eqArgs && InWindow(w, LastCode(vals[n - 1], affs[n - 1], n))
  {
    var n := |vals|;
    var front, code := EncodeComponents(vals[..n - 1], affs[..n - 1]), LastCode(vals[n - 1], affs[n - 1], n);
    var lead, rest := EncodeComponents(eqArgs, affs[..n - 1]), EncodeKey(vals, affs);
    assert AllFit(vals[..n - 1], affs[..n - 1]);
    assert IndexKey(iid, rest) == IDHeader(INDEX, iid) + rest;
    hide EncodeComponents, EncodeKey, LastCode, AllFit, InWindow, IndexKey, IDHeader;
    KeySplit(vals, affs);
    SharedHeader(IDHeader(INDEX, iid), lead, rest);
    if lead <= rest {
      var tail := rest[|lead|..];
      assert lead + tail == front + code;
      ComponentsPrefixFree(vals[..n - 1], eqArgs, affs[..n - 1], code, tail);
    }
    if vals[..n - 1] == eqArgs {
      assert lead == front && rest[|lead|..] == code;
    }
  }

  method FilterIndexRange(s: Store, keys: seq<bytes>, tbl: Table, plan: Plan, argv: seq<Value>, ghost rows: Rows)
    returns (out: Rows)
    requires StoreIs(s, tbl, rows) && PlainRows(rows) && ScanOrder(s, keys)
    requires PlanFits(tbl, plan) && plan.IndexRange? && ArgsFit(tbl, Terms(tbl, plan), argv)
    ensures out == Selected(tbl, rows, plan, argv)
  {
    hide *;
    VTable.KnownIndexes(s, tbl, rows, true);
    VTable.KeyColumnsExist(tbl);
    ArgsCount(tbl, Terms(tbl, plan), argv);
    var w := PlanWindow(tbl, plan, argv);
    var pks := ScanWindow(s, keys, w);
    forall pk | pk in rows
      ensures pk in pks <==> Matches(tbl, plan, argv, rows[pk]) && !Unseen(tbl, plan, rows[pk])
    {
      VTable.RowsFitAt(tbl, rows, pk);
      PlainAt(rows, pk);
      EntryInWindow(tbl, plan, argv, rows[pk]);
      ListedMeansEntry(s, keys, tbl, rows, plan, argv, pk);
    }
    SelectedIs(tbl, rows, plan, argv, pks);
    LoadedExact(s, tbl, pks, rows);
    out := LoadRows(s, tbl, pks);
  }

  lemma ArgsCount(tbl: Table, terms: seq<Term>, argv: seq<Value>)
    requires ArgsFit(tbl, terms, argv)
    ensures |argv| == |terms|
  {
  }

  lemma PlainAt(rows: Rows, pk: bytes)
    requires PlainRows(rows) && pk in rows
    ensures forall c :: 0 <= c < |rows[pk]| ==> Plain(rows[pk][c])
  {
  }

  lemma SelectedIs(tbl: Table, rows: Rows, plan: Plan, argv: seq<Value>, pks: set<bytes>)
    requires ValidTable(tbl) && RowsFit(tbl, rows) && PlanFits(tbl, plan) && |argv| == |Terms(tbl, plan)|
    requires forall pk :: pk in rows ==> (pk in pks <==> Matches(tbl, plan, argv, rows[pk]) && !Unseen(tbl, plan, rows[pk]))
    ensures Selected(tbl, rows, plan, argv) == map pk | pk in rows && pk in pks :: rows[pk]
  {
    hide Matches, Unseen, ValidTable, RowFits, PkPresent, PkOf;
  }

  lemma ListedMeansEntry(s: Store, keys: seq<bytes>, tbl: Table, rows: Rows, plan: Plan, argv: seq<Value>, pk: bytes)
    requires StoreIs(s, tbl, rows) && ScanOrder(s, keys) && pk in rows
    requires PlanFits(tbl, plan) && plan.IndexRange? && ArgsFit(tbl, Terms(tbl, plan), argv)
    ensures Listed(s, keys, PlanWindow(tbl, plan, argv), pk) <==> EntryWanted(tbl, plan, argv, rows[pk])
  {
    var idx, w := PlanIndex(tbl, plan), PlanWindow(tbl, plan, argv);
    var entry := IndexEntry(tbl, idx, rows[pk]);
    assert IndexIs(s, tbl, rows, idx);
    if Listed(s, keys, w, pk) {
      var k :| 0 <= k < |keys| && Wanted(w, keys[k]) && pk in FieldsAt(s, keys[k]);
      var lead := w.prefix[|IDHeader(INDEX, idx.iid)|..];
      assert IDHeader(INDEX, idx.iid) + lead == w.prefix;
      IndexPrefixExact(keys[k], idx.iid, lead);
      var encoded := lead + keys[k][|w.prefix|..];
      assert FieldsAt(s, IndexKey(idx.iid, encoded)).Keys == Entries(tbl, rows, idx, encoded);
      assert pk in Entries(tbl, rows, idx, encoded);
    }
    if entry.Some? && Wanted(w, IndexKey(idx.iid, entry.value)) {
      var key := IndexKey(idx.iid, entry.value);
      assert FieldsAt(s, key).Keys == Entries(tbl, rows, idx, entry.value);
      assert pk in FieldsAt(s, key).Keys;
      assert FieldsAt(s, key) != map[];
      var k :| 0 <= k < |keys| && keys[k] == key;
    }
  }

  // ---- The dropped bound ----

  lemma HeldMatches(tbl: Table, plan: Plan, argv: seq<Value>, row: Row)
    requires ValidTable(tbl) && PlanFits(tbl, plan) && ArgsFit(tbl, Terms(tbl, plan), argv) && RowFits(tbl, row)
    ensures |argv| == |Terms(tbl, plan)| && (AllHold(Terms(tbl, plan), argv, row) ==> Matches(tbl, plan, argv, row))
  {
    hide *;
    MatchesIs(tbl, plan, argv, row);
    if DropsUpper(tbl, plan, argv) && AllHold(Terms(tbl, plan), argv, row) {
      var c, last := IndexOrd(tbl, PlanIndex(tbl, plan), 0), |argv| - 1;
      HeldFront(Terms(tbl, plan), argv, row);
      DroppedUpperTerm(tbl, plan, argv, row, c);
    }
  }

  lemma HeldFront(terms: seq<Term>, argv: seq<Value>, row: Row)
    requires |terms| == |argv| > 0 && AllHold(terms, argv, row)
    ensures var last := |argv| - 1; AllHold(terms[..last], argv[..last], row) && TermHolds(terms[last], argv[last], row)
  {
    var last := |argv| - 1;
    forall k | 0 <= k < last ensures TermHolds(terms[..last][k], argv[..last][k], row) {
      assert TermHolds(terms[k], argv[k], row);
    }
  }

  /** A dropped bound, had it been kept, is met only by the empty BLOB. */
  lemma DroppedUpperTerm(tbl: Table, plan: Plan, argv: seq<Value>, row: Row, c: nat)
    requires ValidTable(tbl) && PlanFits(tbl, plan) && plan.IndexRange? && ArgsFit(tbl, Terms(tbl, plan), argv)
    requires RowFits(tbl, row) && DropsUpper(tbl, plan, argv) && c == IndexOrd(tbl, PlanIndex(tbl, plan), 0) < |row|
    requires TermHolds(Terms(tbl, plan)[|argv| - 1], argv[|argv| - 1], row)
    ensures row[c] == Blob([])
  {
    BoundTermsAt(tbl, plan);
    var last := |argv| - 1;
    var t := Terms(tbl, plan)[last];
    assert t == UpperTerms(c, plan.upper)[0];
    assert Fits(argv[last], tbl.columns[c].aff);
    hide Terms, ValidTable, ArgsFit, FindIndex, IndexOrd, PlanFits;
    assert row[c] != Null;
    assert row[c].Blob? && (row[c].b == [] || Compare(row[c].b, []) == 1);
  }

  /** The row's indexed value is there, not empty, and meets the lower bound if there is one. */
  ghost predicate AboveLower(tbl: Table, plan: Plan, argv: seq<Value>, row: Row)
    requires ValidTable(tbl) && PlanFits(tbl, plan) && |argv| == |Terms(tbl, plan)| && RowFits(tbl, row)
    requires DropsUpper(tbl, plan, argv)
  {
    var c, last := IndexOrd(tbl, PlanIndex(tbl, plan), 0), |argv| - 1;
    row[c] !in {Null, Blob([])} && AllHold(Terms(tbl, plan)[..last], argv[..last], row)
  }

  /** What the terms of a plan ask for. */
  ghost function Meeting(tbl: Table, rows: Rows, plan: Plan, argv: seq<Value>): (r: Rows)
    requires ValidTable(tbl) && RowsFit(tbl, rows) && PlanFits(tbl, plan) && |argv| == |Terms(tbl, plan)|
  {
    map pk | pk in rows && AllHold(Terms(tbl, plan), argv, rows[pk]) && !Unseen(tbl, plan, rows[pk]) :: rows[pk]
  }

  /** One row: it is returned without meeting the terms exactly when the upper bound is dropped and it is above the lower. */
  lemma ReturnedBeyondTerms(tbl: Table, plan: Plan, argv: seq<Value>, row: Row)
    requires ValidTable(tbl) && PlanFits(tbl, plan) && ArgsFit(tbl, Terms(tbl, plan), argv) && RowFits(tbl, row)
    ensures |argv| == |Terms(tbl, plan)|
    ensures (Matches(tbl, plan, argv, row) && !Unseen(tbl, plan, row) && !AllHold(Terms(tbl, plan), argv, row))
       <==> DropsUpper(tbl, plan, argv) && AboveLower(tbl, plan, argv, row)
    ensures DropsUpper(tbl, plan, argv) && AllHold(Terms(tbl, plan), argv, row) ==> Unseen(tbl, plan, row)
  {
    hide *;
    MatchesIs(tbl, plan, argv, row);
    if DropsUpper(tbl, plan, argv) {
      var c, last := IndexOrd(tbl, PlanIndex(tbl, plan), 0), |argv| - 1;
      AboveLowerIs(tbl, plan, argv, row);
      if AllHold(Terms(tbl, plan), argv, row) {
        HeldFront(Terms(tbl, plan), argv, row);
        DroppedUpperTerm(tbl, plan, argv, row, c);
      }
    }
  }

  lemma AboveLowerIs(tbl: Table, plan: Plan, argv: seq<Value>, row: Row)
    requires ValidTable(tbl) && PlanFits(tbl, plan) && ArgsFit(tbl, Terms(tbl, plan), argv) && RowFits(tbl, row)
    requires |argv| == |Terms(tbl, plan)| && DropsUpper(tbl, plan, argv)
    ensures plan.IndexRange? && ValidIndex(tbl, PlanIndex(tbl, plan)) && |PlanIndex(tbl, plan).columns| == 1 && |argv| > 0
    ensures var c, last := IndexOrd(tbl, PlanIndex(tbl, plan), 0), |argv| - 1;
            && c < |row| == |tbl.columns| && (Unseen(tbl, plan, row) <==> row[c] == Blob([]))
            && (AboveLower(tbl, plan, argv, row) <==> row[c] !in {Null, Blob([])} && AllHold(Terms(tbl, plan)[..last], argv[..last], row))
  {
    BoundTermsAt(tbl, plan);
    hide AllHold, Terms, FindIndex, IndexOrd;
    assert Fits(argv[|argv| - 1], tbl.columns[IndexOrd(tbl, PlanIndex(tbl, plan), 0)].aff);
  }

  /** A scan returns just the rows its terms ask for exactly when no bound is dropped or no row is above the lower one. */
  lemma ReturnsWhatIsAsked(tbl: Table, rows: Rows, plan: Plan, argv: seq<Value>)
    requires ValidTable(tbl) && RowsFit(tbl, rows) && PlanFits(tbl, plan) && ArgsFit(tbl, Terms(tbl, plan), argv)
    ensures |argv| == |Terms(tbl, plan)|
    ensures Selected(tbl, rows, plan, argv) == Meeting(tbl, rows, plan, argv)
       <==> !DropsUpper(tbl, plan, argv) || forall pk :: pk in rows ==> !AboveLower(tbl, plan, argv, rows[pk])
  {
    var all, asked := Selected(tbl, rows, plan, argv), Meeting(tbl, rows, plan, argv);
    forall pk | pk in rows
      ensures pk in all <==> pk in asked || (DropsUpper(tbl, plan, argv) && AboveLower(tbl, plan, argv, rows[pk]))
      ensures DropsUpper(tbl, plan, argv) ==> pk !in asked
    {
      HeldMatches(tbl, plan, argv, rows[pk]);
      ReturnedBeyondTerms(tbl, plan, argv, rows[pk]);
    }
    hide *;
    if all == asked && DropsUpper(tbl, plan, argv) {
      forall pk | pk in rows ensures !AboveLower(tbl, plan, argv, rows[pk]) {
        assert pk in all <==> pk in asked;
      }
    }
    SelectedRows(tbl, rows, plan, argv);
  }

  lemma SelectedRows(tbl: Table, rows: Rows, plan: Plan, argv: seq<Value>)
    requires ValidTable(tbl) && RowsFit(tbl, rows) && PlanFits(tbl, plan) && |argv| == |Terms(tbl, plan)|
    ensures forall pk :: pk in Selected(tbl, rows, plan, argv) ==> pk in rows && Selected(tbl, rows, plan, argv)[pk] == rows[pk]
    ensures forall pk :: pk in Meeting(tbl, rows, plan, argv) ==> pk in rows && Meeting(tbl, rows, plan, argv)[pk] == rows[pk]
  {
  }

  /** `Filter`, outside a transaction: a plan returns exactly the live rows that match it, less the unseen ones. */
  method Filter(s: Store, keys: seq<bytes>, tbl: Table, plan: Plan, argv: seq<Value>, ghost rows: Rows)
    returns (out: Rows)
    requires StoreIs(s, tbl, rows) && PlainRows(rows) && ScanOrder(s, keys)
    requires PlanFits(tbl, plan) && ArgsFit(tbl, Terms(tbl, plan), argv)
    ensures out == Selected(tbl, rows, plan, argv)
  {
    match plan {
      case FullScan => out := FilterFullScan(s, keys, tbl, rows);
      case PKEquality => out := FilterPKEquality(s, tbl, argv, rows);
      case IndexEquality(name) => out := FilterIndexEquality(s, tbl, name, argv, rows);
      case IndexRange(_, _, _) => out := FilterIndexRange(s, keys, tbl, plan, argv, rows);
    }
  }
}
