/** The planner/executor contract, and what a scan's observation predicate promises about concurrent writes. */
module Observation {
  import opened Bytes
  import opened Encoding
  import opened Schema
  import opened Predicate
  import opened Planner
  import opened Executor
  import opened Engine
  import VTable

  // ---- Planner and executor together ----

  predicate ConstraintHolds(c: Constraint, v: Value, row: Row)
  {
    c.op.Is? ==> EvalCmp(c.col, c.op.op, v, row) == True
  }

  /** The row meets every comparison of the query. */
  ghost predicate Meets(cs: seq<Constraint>, vals: seq<Value>, row: Row)
    requires |vals| == |cs|
  {
    forall i :: 0 <= i < |cs| ==> ConstraintHolds(cs[i], vals[i], row)
  }

  /** SQLite binds constraint `i`'s right-hand side to argument `usage[i].argvIndex`. */
  ghost predicate Bound(usage: seq<Usage>, vals: seq<Value>, argv: seq<Value>)
    requires |vals| == |usage|
  {
    forall i :: 0 <= i < |usage| && usage[i].argvIndex > 0 ==>
      usage[i].argvIndex <= |argv| && argv[usage[i].argvIndex - 1] == vals[i]
  }

  /** The arguments of a plan are the right-hand sides of the constraints in its slots. */
  lemma BoundArgs(cs: seq<Constraint>, vals: seq<Value>, terms: seq<Term>, usage: seq<Usage>, slots: seq<nat>, argv: seq<Value>)
    requires SlotsSupply(cs, terms, slots) && UsageIs(usage, terms, slots)
    requires |vals| == |cs| == |usage| && Bound(usage, vals, argv) && |argv| == |slots|
    ensures forall k :: 0 <= k < |terms| ==> argv[k] == vals[slots[k]]
  {
    forall k | 0 <= k < |terms| ensures argv[k] == vals[slots[k]] {
      assert usage[slots[k]].argvIndex == k + 1;
    }
  }

  lemma MetIsHeld(cs: seq<Constraint>, vals: seq<Value>, terms: seq<Term>, slots: seq<nat>, argv: seq<Value>, row: Row)
    requires SlotsSupply(cs, terms, slots) && |vals| == |cs| && |argv| == |terms|
    requires forall k :: 0 <= k < |terms| ==> argv[k] == vals[slots[k]]
    requires Meets(cs, vals, row)
    ensures AllHold(terms, argv, row)
  {
    forall k | 0 <= k < |terms| ensures TermHolds(terms[k], argv[k], row) {
      assert ConstraintHolds(cs[slots[k]], vals[slots[k]], row);
    }
  }

  lemma OmittedHolds(cs: seq<Constraint>, vals: seq<Value>, terms: seq<Term>, usage: seq<Usage>, slots: seq<nat>,
                     argv: seq<Value>, row: Row, i: nat)
    requires SlotsSupply(cs, terms, slots) && UsageIs(usage, terms, slots) && |vals| == |cs| == |usage| && |argv| == |terms|
    requires forall k :: 0 <= k < |terms| ==> argv[k] == vals[slots[k]]
    requires i < |cs| && usage[i].omit && AllHold(terms, argv, row)
    ensures ConstraintHolds(cs[i], vals[i], row)
  {
    assert i in slots;
    var k :| 0 <= k < |slots| && slots[k] == i;
    assert TermHolds(terms[k], argv[k], row);
  }

  lemma NothingOmitted(cs: seq<Constraint>, tbl: Table, plan: Plan, usage: seq<Usage>, slots: seq<nat>, argv: seq<Value>, i: nat)
    requires ValidTable(tbl) && PlanFits(tbl, plan) && |argv| == |Terms(tbl, plan)| && DropsUpper(tbl, plan, argv)
    requires SlotsSupply(cs, Terms(tbl, plan), slots) && UsageIs(usage, Terms(tbl, plan), slots) && i < |usage|
    ensures !usage[i].omit
  {
    BoundTermsAt(tbl, plan);
    hide Terms, ValidTable, PlanFits, FindIndex;
    if i in slots {
      var k :| 0 <= k < |slots| && slots[k] == i;
      assert usage[slots[k]].omit <==> Terms(tbl, plan)[k].op == Eq;
    }
  }

  /** The row survives SQLite's own check of the constraints it was not told to omit. */
  ghost predicate Rechecked(cs: seq<Constraint>, vals: seq<Value>, usage: seq<Usage>, row: Row)
    requires |vals| == |cs| == |usage|
  {
    forall i :: 0 <= i < |cs| && !usage[i].omit ==> ConstraintHolds(cs[i], vals[i], row)
  }

  /** One row against the plan the planner chose and the arguments bound for it. */
  lemma PlannerContract(tbl: Table, cs: seq<Constraint>, vals: seq<Value>, plan: Plan, usage: seq<Usage>,
                        slots: seq<nat>, argv: seq<Value>, row: Row)
    requires ValidTable(tbl) && PlanFits(tbl, plan) && RowFits(tbl, row)
    requires SlotsSupply(cs, Terms(tbl, plan), slots) && UsageIs(usage, Terms(tbl, plan), slots)
    requires |vals| == |cs| == |usage| && Bound(usage, vals, argv) && |argv| == |slots| && ArgsFit(tbl, Terms(tbl, plan), argv)
    ensures Meets(cs, vals, row) ==> Matches(tbl, plan, argv, row)
    ensures Matches(tbl, plan, argv, row) && Rechecked(cs, vals, usage, row) ==> Meets(cs, vals, row)
  {
    var terms := Terms(tbl, plan);
    hide Terms, ValidTable, PlanFits, RowFits, AllHold, Matches, UsageIs, SlotsSupply, DropsUpper, Bound;
    SlotsCount(cs, terms, slots);
    BoundArgs(cs, vals, terms, usage, slots, argv);
    if Meets(cs, vals, row) {
      MetIsHeld(cs, vals, terms, slots, argv, row);
      HeldMatches(tbl, plan, argv, row);
    }
    if Matches(tbl, plan, argv, row) && Rechecked(cs, vals, usage, row) {
      MatchesIs(tbl, plan, argv, row);
      forall i | 0 <= i < |cs| ensures ConstraintHolds(cs[i], vals[i], row) {
        if usage[i].omit {
          if DropsUpper(tbl, plan, argv) {
            NothingOmitted(cs, tbl, plan, usage, slots, argv, i);
          } else {
            OmittedHolds(cs, vals, terms, usage, slots, argv, row, i);
          }
        }
      }
    }
  }

  lemma SlotsCount(cs: seq<Constraint>, terms: seq<Term>, slots: seq<nat>)
    requires SlotsSupply(cs, terms, slots)
    ensures |slots| == |terms| && forall k :: 0 <= k < |slots| ==> slots[k] < |cs|
  {
  }

  /** SQLite's side of a plan: each used constraint's value goes to the place the planner numbered. */
  method Bind(usage: seq<Usage>, vals: seq<Value>, ghost terms: seq<Term>, ghost slots: seq<nat>) returns (argv: seq<Value>)
    requires |vals| == |usage| && UsageIs(usage, terms, slots)
    ensures |argv| == |slots| && Bound(usage, vals, argv)
  {
    hide UsageIs;
    forall i | 0 <= i < |usage| ensures usage[i].argvIndex <= |slots| && (usage[i].argvIndex > 0 ==> slots[usage[i].argvIndex - 1] == i) {
      Numbered(usage, terms, slots, i);
    }
    var count: nat := 0;
    for i := 0 to |usage|
      invariant count <= |slots| && forall j :: 0 <= j < i ==> usage[j].argvIndex <= count
    {
      if usage[i].argvIndex > count {
        count := usage[i].argvIndex;
      }
    }
    LastNumber(usage, terms, slots, count);
    argv := seq(count, _ => Null);
    for i := 0 to |usage|
      invariant |argv| == count
      invariant forall j :: 0 <= j < i && usage[j].argvIndex > 0 ==> argv[usage[j].argvIndex - 1] == vals[j]
    {
      if usage[i].argvIndex > 0 {
        argv := argv[usage[i].argvIndex - 1 := vals[i]];
      }
    }
  }

  lemma Numbered(usage: seq<Usage>, terms: seq<Term>, slots: seq<nat>, i: nat)
    requires UsageIs(usage, terms, slots) && i < |usage|
    ensures usage[i].argvIndex <= |slots| && (usage[i].argvIndex > 0 ==> slots[usage[i].argvIndex - 1] == i)
  {
    if i in slots {
      var k :| 0 <= k < |slots| && slots[k] == i;
      assert usage[slots[k]].argvIndex == k + 1;
    }
  }

  lemma LastNumber(usage: seq<Usage>, terms: seq<Term>, slots: seq<nat>, count: nat)
    requires UsageIs(usage, terms, slots) && count <= |slots|
    requires forall j :: 0 <= j < |usage| ==> usage[j].argvIndex <= count
    ensures count == |slots|
  {
    if |slots| > 0 {
      assert usage[slots[|slots| - 1]].argvIndex == |slots|;
    }
  }

  /** The right-hand sides have the types of their columns. */
  ghost predicate ValuesFit(tbl: Table, cs: seq<Constraint>, vals: seq<Value>)
  {
    && |vals| == |cs|
    && forall i :: 0 <= i < |cs| && cs[i].usable && cs[i].op.Is? && cs[i].col >= 0 ==>
         cs[i].col < |tbl.columns| && Fits(vals[i], tbl.columns[cs[i].col].aff) && Plain(vals[i])
  }

  lemma ValuesCount(tbl: Table, cs: seq<Constraint>, vals: seq<Value>)
    requires ValuesFit(tbl, cs, vals)
    ensures |vals| == |cs|
  {
  }

  lemma BoundArgsFit(tbl: Table, cs: seq<Constraint>, vals: seq<Value>, terms: seq<Term>, slots: seq<nat>, argv: seq<Value>)
    requires ValuesFit(tbl, cs, vals) && SlotsSupply(cs, terms, slots) && |argv| == |terms|
    requires forall k :: 0 <= k < |terms| ==> argv[k] == vals[slots[k]]
    ensures ArgsFit(tbl, terms, argv)
  {
    forall k | 0 <= k < |terms|
      ensures terms[k].col < |tbl.columns| && Fits(argv[k], tbl.columns[terms[k].col].aff) && Plain(argv[k])
    {
      assert cs[slots[k]] == Constraint(terms[k].col, Is(terms[k].op), true);
    }
  }

  lemma MetIsRechecked(cs: seq<Constraint>, vals: seq<Value>, usage: seq<Usage>, row: Row)
    requires |vals| == |cs| == |usage| && Meets(cs, vals, row)
    ensures Rechecked(cs, vals, usage, row)
  {
  }

  lemma SelectedAt(tbl: Table, rows: Rows, plan: Plan, argv: seq<Value>, pk: bytes)
    requires ValidTable(tbl) && RowsFit(tbl, rows) && PlanFits(tbl, plan) && |argv| == |Terms(tbl, plan)| && pk in rows
    ensures RowFits(tbl, rows[pk])
    ensures pk in Selected(tbl, rows, plan, argv) <==> Matches(tbl, plan, argv, rows[pk]) && !Unseen(tbl, plan, rows[pk])
  {
  }

  lemma PlanKind(tbl: Table, cs: seq<Constraint>, plan: Plan)
    requires ValidTable(tbl) && (plan.PKEquality? <==> Covered(tbl.pkCols, cs))
    requires plan.IndexEquality? ==> exists j: nat :: First(tbl, cs, j, false) && plan.name == tbl.indexes[j].name
    requires plan.IndexRange? ==> NoneServes(tbl, cs, |tbl.indexes|, false) && exists j: nat :: First(tbl, cs, j, true) && plan.name == tbl.indexes[j].name
    requires plan.FullScan? ==> NoneServes(tbl, cs, |tbl.indexes|, false) && NoneServes(tbl, cs, |tbl.indexes|, true)
    ensures plan.IndexRange? <==> !Covered(tbl.pkCols, cs) && NoneServes(tbl, cs, |tbl.indexes|, false)
                                  && !NoneServes(tbl, cs, |tbl.indexes|, true)
  {
    hide ValidTable, Covered, Serves;
  }

  /**
    A query from constraints to rows: plan, bind, filter. Every live row meeting the whole query is returned, except
    exactly the rows keyed by the empty string; and what SQLite keeps of the result are exactly the rows that meet
    the query, less those.
  */
  method Query(s: Store, keys: seq<bytes>, tbl: Table, cs: seq<Constraint>, vals: seq<Value>, ghost rows: Rows)
    returns (plan: Plan, usage: seq<Usage>, out: Rows)
    requires StoreIs(s, tbl, rows) && PlainRows(rows) && ScanOrder(s, keys) && ValuesFit(tbl, cs, vals)
    ensures PlanFits(tbl, plan) && |usage| == |cs|
    ensures forall pk :: pk in out ==> pk in rows && out[pk] == rows[pk]
    ensures forall pk :: pk in rows && Meets(cs, vals, rows[pk]) ==> (pk in out <==> !Unseen(tbl, plan, rows[pk]))
    ensures forall pk :: pk in rows ==>
              (pk in out && Rechecked(cs, vals, usage, rows[pk]) <==> Meets(cs, vals, rows[pk]) && !Unseen(tbl, plan, rows[pk]))
    ensures plan.PKEquality? <==> Covered(tbl.pkCols, cs)
    ensures plan.IndexRange? <==> !Covered(tbl.pkCols, cs) && NoneServes(tbl, cs, |tbl.indexes|, false) && !NoneServes(tbl, cs, |tbl.indexes|, true)
  {
    hide *;
    ValuesCount(tbl, cs, vals);
    VTable.StoreIsKnown(s, tbl, rows);
    ghost var slots;
    plan, usage, slots := BestIndex(tbl, cs);
    PlanKind(tbl, cs, plan);
    ghost var terms := Terms(tbl, plan);
    SlotsCount(cs, terms, slots);
    var argv := Bind(usage, vals, terms, slots);
    BoundArgs(cs, vals, terms, usage, slots, argv);
    BoundArgsFit(tbl, cs, vals, terms, slots, argv);
    out := Filter(s, keys, tbl, plan, argv, rows);
    forall pk | pk in rows
      ensures RowFits(tbl, rows[pk])
      ensures Meets(cs, vals, rows[pk]) ==> (pk in out <==> !Unseen(tbl, plan, rows[pk]))
      ensures pk in out && Rechecked(cs, vals, usage, rows[pk]) <==> Meets(cs, vals, rows[pk]) && !Unseen(tbl, plan, rows[pk])
    {
      VTable.RowsFitAt(tbl, rows, pk);
      SelectedAt(tbl, rows, plan, argv, pk);
      PlannerContract(tbl, cs, vals, plan, usage, slots, argv, rows[pk]);
      if Meets(cs, vals, rows[pk]) {
        MetIsRechecked(cs, vals, usage, rows[pk]);
      }
    }
    SelectedRows(tbl, rows, plan, argv);
  }

  /** A table `t(b TEXT PRIMARY KEY, a <aff>)` with an index `x` on `a`. */
  function Sample(aff: Affinity): (tbl: Table)
  {
    Table([2], [Column([98], TEXT), Column([97], aff)], [0], [Index([120], [1], [[97]], false)])
  }

  lemma SampleFits(aff: Affinity, v: Value)
    requires Fits(v, aff)
    ensures ValidTable(Sample(aff)) && FindIndex(Sample(aff).indexes, [120]) == 0
    ensures RowsFit(Sample(aff), map[[7] := [Text([7]), v]])
    ensures IndexOrds(Sample(aff), Sample(aff).indexes[0]) == [1]
  {
    var tbl, row := Sample(aff), [Text([7]), v];
    assert tbl.columns[1..] == [Column([97], aff)];
    assert FindColumn(tbl.columns[1..], [97]) == 0;
    assert FindColumn(tbl.columns, [97]) == 1;
    assert ValidIndex(tbl, tbl.indexes[0]);
    assert PkValues(tbl, row) == [Text([7])] && PkAffinities(tbl) == [TEXT];
    assert PkOf(tbl, row) == [7];
  }

  /** The sample table after an INSERT of ('\a', v). */
  method SampleTable(aff: Affinity, v: Value) returns (t: VTable.SwytchTable)
    requires Fits(v, aff)
    ensures fresh(t) && t.Valid() && t.tbl == Sample(aff) && t.rows == map[[7] := [Text([7]), v]]
  {
    hide *;
    SampleInsert(aff, v);
    t := new VTable.SwytchTable(Sample(aff));
    var r := t.Insert([Text([7]), v]);
  }

  lemma SampleInsert(aff: Affinity, v: Value)
    requires Fits(v, aff)
    ensures var tbl, st := Sample(aff), VTable.InsertRow([Text([7]), v]);
            && ValidTable(tbl) && RowsFit(tbl, map[]) && VTable.Proper(tbl, map[], st)
            && VTable.Outcomes(tbl, map[], st) == map[[7] := [Text([7]), v]]
  {
    SampleFits(aff, v);
    var tbl, row := Sample(aff), [Text([7]), v];
    var rows := map[[7] := row];
    VTable.RowsFitAt(tbl, rows, [7]);
    KeyOfPresent(tbl, row);
    hide ValidTable, RowFits, PkPresent, PkOf, KeyOf;
    assert VTable.Proper(tbl, map[], VTable.InsertRow(row));
    assert !Conflict(tbl, map[], [7], row);
  }

  /** The exception is real: the query `a <= 'z'` over a one-column TEXT index loses the row whose `a` is ''. */
  method EmptyTextIsLost() returns (t: VTable.SwytchTable, out: Rows)
    ensures t.Valid() && t.tbl == Sample(TEXT) && t.rows == map[[7] := [Text([7]), Text([])]]
    ensures Meets([Constraint(1, Is(Le), true)], [Text([122])], t.rows[[7]]) && out == map[]
  {
    hide *;
    var cs, vals := [Constraint(1, Is(Le), true)], [Text([122])];
    EmptyTextMeets();
    t := SampleTable(TEXT, Text([]));
    t.ValidIs();
    SampleRow(TEXT, Text([]));
    var keys := SortedKeys(t.committed);
    var plan, usage;
    plan, usage, out := Query(t.committed, keys, t.tbl, cs, vals, t.rows);
    SampleUnseen(plan);
    assert forall pk :: pk in out ==> pk == [7];
  }

  lemma SampleRow(aff: Affinity, v: Value)
    requires Fits(v, aff) && Plain(v)
    ensures ValidTable(Sample(aff)) && RowFits(Sample(aff), [Text([7]), v]) && PlainRows(map[[7] := [Text([7]), v]])
  {
    SampleFits(aff, v);
    hide ValidTable;
  }

  lemma EmptyTextMeets()
    ensures var cs, vals := [Constraint(1, Is(Le), true)], [Text([122])];
            ValuesFit(Sample(TEXT), cs, vals) && Meets(cs, vals, [Text([7]), Text([])])
    ensures var tbl, cs := Sample(TEXT), [Constraint(1, Is(Le), true)];
            && ValidTable(tbl) && !Covered(tbl.pkCols, cs) && NoneServes(tbl, cs, |tbl.indexes|, false)
            && !NoneServes(tbl, cs, |tbl.indexes|, true)
    ensures Fits(Text([]), TEXT) && Plain(Text([]))
  {
    var tbl, cs := Sample(TEXT), [Constraint(1, Is(Le), true)];
    assert Compare([], [122]) == -1;
    SampleFits(TEXT, Text([]));
    hide ValidTable, FindIndex, RowsFit;
    assert !HasEq(cs, tbl.pkCols[0]);
    var ords := IndexOrds(tbl, tbl.indexes[0]);
    assert !HasEq(cs, ords[0]);
    assert UsableOp(cs[0], 1, Lt, Le) && HasOp(cs, 1, Lt, Le);
    assert Serves(tbl, cs, 0, true);
  }

  lemma SampleUnseen(plan: Plan)
    requires PlanFits(Sample(TEXT), plan) && plan.IndexRange? && ValidTable(Sample(TEXT))
    requires RowFits(Sample(TEXT), [Text([7]), Text([])])
    ensures Unseen(Sample(TEXT), plan, [Text([7]), Text([])])
  {
    SampleFits(TEXT, Text([]));
    assert PlanIndex(Sample(TEXT), plan) == Sample(TEXT).indexes[0];
    hide ValidTable, FindIndex, RowsFit;
    assert IndexOrds(Sample(TEXT), Sample(TEXT).indexes[0])[0] == 1;
  }

  /** The dropped bound is real too: a scan for `a <= x''` over a one-column BLOB index returns the row whose `a` is x'01'. */
  method EmptyBlobBoundIsDropped() returns (t: VTable.SwytchTable, out: Rows)
    ensures var plan := IndexRange([120], Absent, Inclusive);
            && t.Valid() && t.tbl == Sample(BLOB) && PlanFits(t.tbl, plan) && t.rows == map[[7] := [Text([7]), Blob([1])]]
            && ValidTable(t.tbl) && Terms(t.tbl, plan) == [Term(1, Le)]
            && !TermHolds(Term(1, Le), Blob([]), t.rows[[7]]) && out == t.rows
  {
    hide *;
    OneByte();
    t := SampleTable(BLOB, Blob([1]));
    t.ValidIs();
    SampleRow(BLOB, Blob([1]));
    SampleRange(BLOB);
    SampleDropped();
    var keys := SortedKeys(t.committed);
    out := Filter(t.committed, keys, t.tbl, IndexRange([120], Absent, Inclusive), [Blob([])], t.rows);
    VTable.StoreIsKnown(t.committed, t.tbl, t.rows);
    SelectedAt(t.tbl, t.rows, IndexRange([120], Absent, Inclusive), [Blob([])], [7]);
    SelectedRows(t.tbl, t.rows, IndexRange([120], Absent, Inclusive), [Blob([])]);
    assert out == t.rows;
  }

  lemma SampleDropped()
    ensures var tbl, plan, row := Sample(BLOB), IndexRange([120], Absent, Inclusive), [Text([7]), Blob([1])];
            && ValidTable(tbl) && PlanFits(tbl, plan) && RowFits(tbl, row) && Terms(tbl, plan) == [Term(1, Le)]
            && ArgsFit(tbl, Terms(tbl, plan), [Blob([])]) && !TermHolds(Term(1, Le), Blob([]), row)
            && Matches(tbl, plan, [Blob([])], row) && !Unseen(tbl, plan, row)
  {
    hide *;
    var tbl, plan, row, argv := Sample(BLOB), IndexRange([120], Absent, Inclusive), [Text([7]), Blob([1])], [Blob([])];
    OneByte();
    SampleRange(BLOB);
    SampleRow(BLOB, Blob([1]));
    SampleArgs(tbl, plan, argv);
    MatchesIs(tbl, plan, argv, row);
    NothingToHold(Terms(tbl, plan)[..0], argv[..0], row);
    AboveLowerIs(tbl, plan, argv, row);
  }

  lemma OneByte()
    ensures Fits(Blob([1]), BLOB) && Plain(Blob([1])) && !TermHolds(Term(1, Le), Blob([]), [Text([7]), Blob([1])])
  {
    assert Compare([1], []) == 1;
  }

  lemma SampleArgs(tbl: Table, plan: Plan, argv: seq<Value>)
    requires tbl == Sample(BLOB) && plan == IndexRange([120], Absent, Inclusive) && argv == [Blob([])]
    requires ValidTable(tbl) && PlanFits(tbl, plan) && PlanIndex(tbl, plan) == tbl.indexes[0] && Terms(tbl, plan) == [Term(1, Le)]
    ensures ArgsFit(tbl, Terms(tbl, plan), argv) && |argv| == |Terms(tbl, plan)| && DropsUpper(tbl, plan, argv)
  {
    hide Terms, ValidTable, PlanFits, PlanIndex;
  }

  lemma SampleRange(aff: Affinity)
    requires aff == TEXT || aff == BLOB
    ensures var tbl, plan := Sample(aff), IndexRange([120], Absent, Inclusive);
            && ValidTable(tbl) && PlanFits(tbl, plan) && PlanIndex(tbl, plan) == tbl.indexes[0]
            && IndexOrd(tbl, tbl.indexes[0], 0) == 1 && Terms(tbl, plan) == [Term(1, Le)]
  {
    SampleFits(aff, if aff == TEXT then Text([]) else Blob([]));
    assert [1][..0] == [];
    hide RowsFit, FindColumn;
  }

  // ---- Observations ----

  /** `buildObservationPredicate` */
  function ObservationPredicate(tbl: Table, plan: Plan, argv: seq<Value>): (p: Predicate)
    requires ValidTable(tbl) && PlanFits(tbl, plan) && |argv| == |Terms(tbl, plan)|
  {
    var terms := Terms(tbl, plan);
    if |terms| == 0 then PBool(true)
    else if |terms| == 1 then PCmp(terms[0].col, terms[0].op, argv[0])
    else PAnd(seq(|terms|, k requires 0 <= k < |terms| => PCmp(terms[k].col, terms[k].op, argv[k])))
  }

  /** The predicate is TRUE of a row exactly when the row meets every term the plan navigates by. */
  lemma ObservedIffHeld(tbl: Table, plan: Plan, argv: seq<Value>, row: Row)
    requires ValidTable(tbl) && PlanFits(tbl, plan) && |argv| == |Terms(tbl, plan)|
    ensures Evaluate(ObservationPredicate(tbl, plan, argv), row) <==> AllHold(Terms(tbl, plan), argv, row)
  {
    hide Terms, ValidTable, PlanFits;
    var terms := Terms(tbl, plan);
    if |terms| > 1 {
      AndMeansAll(terms, argv, row);
    }
  }

  lemma AndMeansAll(terms: seq<Term>, argv: seq<Value>, row: Row)
    requires |terms| == |argv|
    ensures var cs := seq(|terms|, k requires 0 <= k < |terms| => PCmp(terms[k].col, terms[k].op, argv[k]));
            Evaluate(PAnd(cs), row) <==> AllHold(terms, argv, row)
  {
    var cs := seq(|terms|, k requires 0 <= k < |terms| => PCmp(terms[k].col, terms[k].op, argv[k]));
    forall k | 0 <= k < |terms|
      ensures Meaning(cs[k], row) == True <==> TermHolds(terms[k], argv[k], row)
    {
    }
    if !AllHold(terms, argv, row) {
      var k :| 0 <= k < |terms| && !TermHolds(terms[k], argv[k], row);
      assert Meaning(cs[k], row) != True;
    }
  }

  /** Would this scan have returned this row? */
  ghost predicate Sees(tbl: Table, plan: Plan, argv: seq<Value>, row: Row)
    requires ValidTable(tbl) && PlanFits(tbl, plan) && |argv| == |Terms(tbl, plan)| && RowFits(tbl, row)
  {
    Matches(tbl, plan, argv, row) && !Unseen(tbl, plan, row)
  }

  lemma SelectedAfterPut(tbl: Table, rows: Rows, plan: Plan, argv: seq<Value>, pk: bytes, row: Row)
    requires ValidTable(tbl) && RowsFit(tbl, rows) && PlanFits(tbl, plan) && |argv| == |Terms(tbl, plan)|
    requires RowsFit(tbl, rows[pk := row]) && RowFits(tbl, row)
    ensures Selected(tbl, rows[pk := row], plan, argv)
         == if Sees(tbl, plan, argv, row) then Selected(tbl, rows, plan, argv)[pk := row]
            else Selected(tbl, rows, plan, argv) - {pk}
  {
    hide *;
    var rows' := rows[pk := row];
    var was, now := Selected(tbl, rows, plan, argv), Selected(tbl, rows', plan, argv);
    SelectedRows(tbl, rows, plan, argv);
    SelectedRows(tbl, rows', plan, argv);
    SeenIsSelected(tbl, rows', plan, argv, pk);
    forall q | q != pk ensures q in now <==> q in was {
      if q in rows {
        SeenIsSelected(tbl, rows, plan, argv, q);
        SeenIsSelected(tbl, rows', plan, argv, q);
      }
    }
    assert now == if Sees(tbl, plan, argv, row) then was[pk := row] else was - {pk};
  }

  /**
    The predicate misses a row the scan would return exactly when the scan drops its upper bound and the row
    is above the lower one.
  */
  lemma PredicateMisses(tbl: Table, plan: Plan, argv: seq<Value>, row: Row)
    requires ValidTable(tbl) && PlanFits(tbl, plan) && ArgsFit(tbl, Terms(tbl, plan), argv) && RowFits(tbl, row)
    ensures |argv| == |Terms(tbl, plan)|
    ensures Sees(tbl, plan, argv, row) && !Evaluate(ObservationPredicate(tbl, plan, argv), row)
       <==> DropsUpper(tbl, plan, argv) && AboveLower(tbl, plan, argv, row)
    ensures Evaluate(ObservationPredicate(tbl, plan, argv), row) && !Unseen(tbl, plan, row) ==> Sees(tbl, plan, argv, row)
  {
    hide Matches, AllHold, Unseen, DropsUpper, AboveLower, Terms, ValidTable, PlanFits, ObservationPredicate, Evaluate, RowFits;
    HeldMatches(tbl, plan, argv, row);
    ReturnedBeyondTerms(tbl, plan, argv, row);
    ObservedIffHeld(tbl, plan, argv, row);
  }

  lemma SelectedAfterDrop(tbl: Table, rows: Rows, plan: Plan, argv: seq<Value>, pk: bytes)
    requires ValidTable(tbl) && RowsFit(tbl, rows) && PlanFits(tbl, plan) && |argv| == |Terms(tbl, plan)|
    requires RowsFit(tbl, rows - {pk})
    ensures Selected(tbl, rows - {pk}, plan, argv) == Selected(tbl, rows, plan, argv) - {pk}
  {
    hide ValidTable, RowFits, PlanFits, Terms, Matches, Unseen, PkOf, PkPresent;
  }

  lemma SeenIsSelected(tbl: Table, rows: Rows, plan: Plan, argv: seq<Value>, pk: bytes)
    requires ValidTable(tbl) && RowsFit(tbl, rows) && PlanFits(tbl, plan) && |argv| == |Terms(tbl, plan)|
    requires pk in rows
    ensures RowFits(tbl, rows[pk])
    ensures pk in Selected(tbl, rows, plan, argv) <==> Sees(tbl, plan, argv, rows[pk])
  {
    SelectedAt(tbl, rows, plan, argv, pk);
  }

  /** An INSERT changes a scan's result exactly when its written tuple is one the scan sees. */
  lemma InsertObserved(tbl: Table, rows: Rows, plan: Plan, argv: seq<Value>, pk: bytes, row: Row)
    requires ValidTable(tbl) && RowsFit(tbl, rows) && PlanFits(tbl, plan) && ArgsFit(tbl, Terms(tbl, plan), argv)
    requires RowsFit(tbl, rows[pk := row]) && RowFits(tbl, row) && pk !in rows
    ensures |argv| == |Terms(tbl, plan)|
    ensures Selected(tbl, rows[pk := row], plan, argv) == Selected(tbl, rows, plan, argv)
       <==> !Sees(tbl, plan, argv, row)
    ensures !Evaluate(ObservationPredicate(tbl, plan, argv), row) ==>
              (Selected(tbl, rows[pk := row], plan, argv) == Selected(tbl, rows, plan, argv)
               <==> !(DropsUpper(tbl, plan, argv) && AboveLower(tbl, plan, argv, row)))
  {
    hide *;
    PredicateMisses(tbl, plan, argv, row);
    var was := Selected(tbl, rows, plan, argv);
    SelectedRows(tbl, rows, plan, argv);
    SelectedAfterPut(tbl, rows, plan, argv, pk, row);
    assert was - {pk} == was;
  }

  /** A DELETE changes a scan's result exactly when the recorded old tuple is one the scan sees. */
  lemma DeleteObserved(tbl: Table, rows: Rows, plan: Plan, argv: seq<Value>, pk: bytes)
    requires ValidTable(tbl) && RowsFit(tbl, rows) && PlanFits(tbl, plan) && ArgsFit(tbl, Terms(tbl, plan), argv)
    requires RowsFit(tbl, rows - {pk}) && pk in rows
    ensures RowFits(tbl, rows[pk]) && |argv| == |Terms(tbl, plan)|
    ensures Selected(tbl, rows - {pk}, plan, argv) == Selected(tbl, rows, plan, argv)
       <==> !Sees(tbl, plan, argv, rows[pk])
    ensures !Evaluate(ObservationPredicate(tbl, plan, argv), rows[pk]) ==>
              (Selected(tbl, rows - {pk}, plan, argv) == Selected(tbl, rows, plan, argv)
               <==> !(DropsUpper(tbl, plan, argv) && AboveLower(tbl, plan, argv, rows[pk])))
  {
    hide *;
    VTable.RowsFitAt(tbl, rows, pk);
    PredicateMisses(tbl, plan, argv, rows[pk]);
    SelectedAfterDrop(tbl, rows, plan, argv, pk);
    SeenIsSelected(tbl, rows, plan, argv, pk);
    var was := Selected(tbl, rows, plan, argv);
    assert pk !in was ==> was - {pk} == was;
    assert pk !in was - {pk};
  }

  /** A key-changing UPDATE records both tuples; it changes the scan exactly when the scan sees one of them. */
  lemma PKChangeObserved(tbl: Table, rows: Rows, plan: Plan, argv: seq<Value>, oldPK: bytes, pk: bytes, row: Row)
    requires ValidTable(tbl) && RowsFit(tbl, rows) && PlanFits(tbl, plan) && ArgsFit(tbl, Terms(tbl, plan), argv)
    requires RowsFit(tbl, rows - {oldPK}) && RowsFit(tbl, (rows - {oldPK})[pk := row])
    requires oldPK in rows && pk !in rows && RowFits(tbl, row)
    ensures RowFits(tbl, rows[oldPK]) && |argv| == |Terms(tbl, plan)|
    ensures Selected(tbl, (rows - {oldPK})[pk := row], plan, argv) == Selected(tbl, rows, plan, argv)
       <==> !Sees(tbl, plan, argv, rows[oldPK]) && !Sees(tbl, plan, argv, row)
    ensures var p := ObservationPredicate(tbl, plan, argv);
            !Evaluate(p, rows[oldPK]) && !Evaluate(p, row) ==>
              (Selected(tbl, (rows - {oldPK})[pk := row], plan, argv) == Selected(tbl, rows, plan, argv)
               <==> !(DropsUpper(tbl, plan, argv) && (AboveLower(tbl, plan, argv, rows[oldPK]) || AboveLower(tbl, plan, argv, row))))
  {
    hide *;
    VTable.RowsFitAt(tbl, rows, oldPK);
    PredicateMisses(tbl, plan, argv, rows[oldPK]);
    PredicateMisses(tbl, plan, argv, row);
    var was := Selected(tbl, rows, plan, argv);
    SelectedRows(tbl, rows, plan, argv);
    SelectedAfterDrop(tbl, rows, plan, argv, oldPK);
    SelectedAfterPut(tbl, rows - {oldPK}, plan, argv, pk, row);
    SeenIsSelected(tbl, rows, plan, argv, oldPK);
    DropThenPut(was, oldPK, pk, row);
  }

  lemma DropThenPut(was: Rows, oldPK: bytes, pk: bytes, row: Row)
    requires pk !in was
    ensures was - {oldPK} - {pk} == was <==> oldPK !in was
    ensures (was - {oldPK})[pk := row] != was
  {
    assert oldPK !in was - {oldPK} - {pk};
    assert pk in (was - {oldPK})[pk := row];
  }

  /**
    A same-key UPDATE records only its new tuple. When that tuple is not TRUE under the predicate, the scan is
    unaffected exactly when it saw neither row, or saw both and they are the same: a row updated out of a scanned
    range goes unnoticed.
  */
  lemma SameKeyUpdateObserved(tbl: Table, rows: Rows, plan: Plan, argv: seq<Value>, pk: bytes, row: Row)
    requires ValidTable(tbl) && RowsFit(tbl, rows) && PlanFits(tbl, plan) && ArgsFit(tbl, Terms(tbl, plan), argv)
    requires RowsFit(tbl, rows[pk := row]) && pk in rows && RowFits(tbl, row)
    ensures RowFits(tbl, rows[pk]) && |argv| == |Terms(tbl, plan)|
    ensures Selected(tbl, rows[pk := row], plan, argv) == Selected(tbl, rows, plan, argv)
       <==> rows[pk] == row || (!Sees(tbl, plan, argv, rows[pk]) && !Sees(tbl, plan, argv, row))
    ensures !Evaluate(ObservationPredicate(tbl, plan, argv), row) && !DropsUpper(tbl, plan, argv) ==>
              (Selected(tbl, rows[pk := row], plan, argv) == Selected(tbl, rows, plan, argv)
               <==> !Sees(tbl, plan, argv, rows[pk]))
  {
    hide *;
    VTable.RowsFitAt(tbl, rows, pk);
    PredicateMisses(tbl, plan, argv, row);
    SelectedAfterPut(tbl, rows, plan, argv, pk, row);
    SeenIsSelected(tbl, rows, plan, argv, pk);
    SelectedRows(tbl, rows, plan, argv);
    var was, now := Selected(tbl, rows, plan, argv), Selected(tbl, rows[pk := row], plan, argv);
    if Sees(tbl, plan, argv, row) {
      assert now[pk] == row;
      assert pk in was && rows[pk] == row ==> now == was;
    } else {
      assert pk !in was ==> was - {pk} == was;
      assert pk !in was - {pk};
    }
  }

  /** Such an unnoticed update exists: `a` goes from 1 to 2 under a scan for `a = 1`. */
  lemma UpdateOutGoesUnnoticed()
    ensures var tbl, plan, argv := Sample(INTEGER), IndexEquality([120]), [Integer(1)];
            var before, after := map[[7] := [Text([7]), Integer(1)]], map[[7] := [Text([7]), Integer(2)]];
            && ValidTable(tbl) && RowsFit(tbl, before) && RowsFit(tbl, after)
            && PlanFits(tbl, plan) && ArgsFit(tbl, Terms(tbl, plan), argv)
            && !Evaluate(ObservationPredicate(tbl, plan, argv), after[[7]])
            && Selected(tbl, after, plan, argv) != Selected(tbl, before, plan, argv)
  {
    var tbl, plan, argv := Sample(INTEGER), IndexEquality([120]), [Integer(1)];
    SampleFits(INTEGER, Integer(1));
    SampleFits(INTEGER, Integer(2));
    assert PlanIndex(tbl, plan) == tbl.indexes[0];
    assert Terms(tbl, plan) == [Term(1, Eq)];
    assert PlanFits(tbl, plan) && ArgsFit(tbl, Terms(tbl, plan), argv);
    hide ValidTable, RowsFit, Terms, PlanFits, ArgsFit, IndexOrds, FindIndex;
    assert [7] in Selected(tbl, map[[7] := [Text([7]), Integer(1)]], plan, argv);
  }
}
