// What DELETE and UPDATE do, beyond acting on the table as specified: when they do
// what their text says, and what happens otherwise.
module QueryLaws {
  import opened CText
  import opened Integers
  import opened Values
  import opened RowLists
  import opened IntLists
  import opened Filters
  import opened DeleteOrder
  import opened Assignments
  import opened Queries

  // ---------------------------------------------------------------------
  // UPDATE
  // ---------------------------------------------------------------------

  // With its names in table order, an UPDATE writes each value into the column it was
  // given for.
  lemma UpdateWritesAsNamed(t: TableModel, conv: IntConversion, filters: seq<Filter>, names: seq<CString>,
                            values: seq<CString>)
    requires WellTyped(t.cols, t.rows) && EnoughValues(conv, MetasOf(t.cols, ListedColumns(t.cols, names, 0)), values)
    requires ChainRows(t.cols, conv, t.rows, filters, RelNone, []) != Crash
    requires DistinctColumns(t.cols) && NamedInTableOrder(t.cols, names)
    requires ApplyUpdate(t, conv, filters, names, values).result == OK
    ensures |names| <= |values|
    ensures var rows := ApplyUpdate(t, conv, filters, names, values).table.rows;
            |rows| == |t.rows| && forall k :: 0 <= k < |rows| ==>
              if filters == [] || ChainTruth(t.cols, conv, filters, RelNone, false, t.rows[k])
              then WrittenAsNamed(t.cols, conv, names, values, t.rows[k], rows[k])
              else rows[k] == t.rows[k]
  {
    UpdateIsAllOrNothing(t, conv, filters, names, values);
    forall k | 0 <= k < |t.rows|
      ensures RowTyped(t.cols, t.rows[k])
      ensures var targets := ListedColumns(t.cols, names, 0);
              var lits := Literals(conv, MetasOf(t.cols, targets), values);
              && |names| <= |values|
              && WrittenAsNamed(t.cols, conv, names, values, t.rows[k], Assign(t.rows[k], targets, lits, |targets|))
    {
      AssignAsNamed(t.cols, conv, names, values, t.rows[k]);
    }
    InOrderIsPaired(t.cols, names);
  }

  ghost predicate ColumnsDistinct(db: DbModel) {
    forall i :: 0 <= i < |db.tables| ==> DistinctColumns(db.tables[i].cols)
  }

  // That the columns of a table have distinct names is no condition: every run of
  // queries sees to it.
  lemma {:induction false} RunKeepsColumnsDistinct(db: DbModel, conv: IntConversion, qs: seq<Query>)
    requires DbTyped(db) && SafeRun(db, conv, qs) && ColumnsDistinct(db)
    ensures ColumnsDistinct(Run(db, conv, qs))
    decreases |qs|
  {
    if qs != [] {
      ApplyTyped(db, conv, qs[0]);
      if !qs[0].Create? {
        OnlyRowsChange(db, conv, qs[0]);
      }
      RunKeepsColumnsDistinct(Apply(db, conv, qs[0]).db, conv, qs[1..]);
    }
  }

  // An UPDATE without filters of a table with one row.
  lemma OneRowUpdated(t: TableModel, conv: IntConversion, names: seq<CString>, values: seq<CString>)
    requires WellTyped(t.cols, t.rows) && |t.rows| == 1
    requires AllConvert(conv, MetasOf(t.cols, ListedColumns(t.cols, names, 0)), values)
    ensures var targets := ListedColumns(t.cols, names, 0);
            var lits := Literals(conv, MetasOf(t.cols, targets), values);
            && |t.rows[0]| == |t.cols|
            && ApplyUpdate(t, conv, [], names, values)
               == TableResponse(t.(rows := [Assign(t.rows[0], targets, lits, |targets|)]), OK)
  {
    assert RowTyped(t.cols, t.rows[0]);
    UpdateIsAllOrNothing(t, conv, [], names, values);
    assert ApplyUpdate(t, conv, [], names, values).result == OK;
  }

  function TwoColumns(a: CString, b: CString, x: CString, y: CString): TableModel {
    TableModel(0, "t", [ColumnMeta(0, a, String), ColumnMeta(1, b, String)], [[Text(x), Text(y)]])
  }

  // SET b = u, a = v swaps the values: a becomes u and b becomes v.
  lemma SwappedNamesSwapValues(conv: IntConversion, a: CString, b: CString, x: CString, y: CString, u: CString,
                               v: CString)
    requires a != b
    ensures var t := TwoColumns(a, b, x, y);
            && WellTyped(t.cols, t.rows) && SafeOnTable(t, conv, Update("t", [], [b, a], [u, v]))
            && ApplyUpdate(t, conv, [], [b, a], [u, v]) == TableResponse(TwoColumns(a, b, u, v), OK)
  {
    assert [b, a][0] == b && [b, a][1] == a;
    var t := TwoColumns(a, b, x, y);
    BothListed(t.cols, [b, a]);
    var lits := Literals(conv, t.cols, [u, v]);
    assert lits == [Text(u), Text(v)];
    OneRowUpdated(t, conv, [b, a], [u, v]);
    BothAssigned(t.rows[0], lits);
  }

  lemma BothListed(cols: seq<ColumnMeta>, names: seq<CString>)
    requires |cols| == 2 && cols[0].name in names && cols[1].name in names
    ensures ListedColumns(cols, names, 0) == [0, 1] && MetasOf(cols, [0, 1]) == cols
  {
    assert ListedColumns(cols, names, 1) == [1];
  }

  lemma BothAssigned(row: Row, lits: seq<Value>)
    requires |row| == |lits| == 2
    ensures Assign(row, [0, 1], lits, 2) == lits
  {
    AssignMeaning(row, [0, 1], lits, 2);
    assert Assign(row, [0, 1], lits, 2)[0] == lits[0];
  }

  function OneColumn(a: CString, rows: seq<Row>): TableModel {
    TableModel(0, "t", [ColumnMeta(0, a, String)], rows)
  }

  // SET z = u, a = v, with an unknown column z: a becomes u, and v goes nowhere.
  lemma UnknownNameShiftsValues(conv: IntConversion, a: CString, z: CString, x: CString, u: CString, v: CString)
    requires a != z
    ensures var t := OneColumn(a, [[Text(x)]]);
            && WellTyped(t.cols, t.rows) && SafeOnTable(t, conv, Update("t", [], [z, a], [u, v]))
            && ApplyUpdate(t, conv, [], [z, a], [u, v]) == TableResponse(OneColumn(a, [[Text(u)]]), OK)
  {
    var t := OneColumn(a, [[Text(x)]]);
    var names := [z, a];
    assert names[1] in names;
    assert ListedColumns(t.cols, names, 0) == [0];
    assert MetasOf(t.cols, [0]) == t.cols;
    OneRowUpdated(t, conv, names, [u, v]);
    var lits := Literals(conv, t.cols, [u, v]);
    AssignMeaning(t.rows[0], [0], lits, 1);
    assert Assign(t.rows[0], [0], lits, 1) == [Text(u)];
  }

  // ---------------------------------------------------------------------
  // DELETE
  // ---------------------------------------------------------------------

  // A DELETE whose filters cannot be evaluated changes nothing. Any other filtered
  // DELETE succeeds and leaves the rows its filters are false of exactly when its list
  // of matches ascends, that is, when no row was added by a later filter than a row
  // below it in the table.
  lemma DeleteIsExactInOrder(t: TableModel, conv: IntConversion, filters: seq<Filter>)
    requires WellTyped(t.cols, t.rows) && |t.rows| < TWO64 && filters != []
    requires ChainRows(t.cols, conv, t.rows, filters, RelNone, []) != Crash
    ensures var r, found := ApplyDelete(t, conv, filters), ChainRows(t.cols, conv, t.rows, filters, RelNone, []);
            && (found.Fail? ==> r == TableResponse(t, found.res))
            && (found.Rows? ==>
                  var exact := r == TableResponse(t.(rows := Unmatched(t.cols, conv, filters, t.rows)), OK);
                  (exact <==> Ascending(found.list)) && (exact <==> AddedInOrder(t.cols, conv, filters, t.rows)))
  {
    var found := ChainRows(t.cols, conv, t.rows, filters, RelNone, []);
    if found.Rows? {
      DeleteExactly(t.cols, conv, filters, t.rows);
      AscendingExactly(t.cols, conv, filters, t.rows);
      var d, left := DeleteLoop(t.rows, found.list, 0), Unmatched(t.cols, conv, filters, t.rows);
      assert d == DeleteResult(true, left) <==> d.ok && d.rows == left;
    }
  }

  function ThreeRows(a: CString, u: CString, v: CString, w: CString): (t: TableModel)
    ensures WellTyped(t.cols, t.rows)
  {
    OneColumn(a, [[Text(u)], [Text(v)], [Text(w)]])
  }

  lemma OneMatch(t: TableModel, conv: IntConversion, f: Filter, k: nat)
    requires |t.cols| == 1 && t.cols[0].ctype == String && t.cols[0].name == f.column && f.op == Equal
    requires WellTyped(t.cols, t.rows) && k < |t.rows|
    requires forall r :: 0 <= r < |t.rows| ==>
               RowTyped(t.cols, t.rows[r]) && (t.rows[r][0] == Text(f.value) <==> r == k)
    ensures Resolve(t.cols, conv, f) == Column(0, Text(f.value))
    ensures FindSeq(t.cols, t.rows, 0, Equal, Text(f.value), |t.rows|) == [k]
  {
    var list := FindSeq(t.cols, t.rows, 0, Equal, Text(f.value), |t.rows|);
    FindSeqMeaning(t.cols, t.rows, 0, Equal, Text(f.value), |t.rows|);
    forall r | 0 <= r < |t.rows|
      ensures Holds(Equal, String, t.rows[r][0], Text(f.value)) <==> r == k
    {
      ComparisonsFollowOrder(String, t.rows[r][0], Text(f.value));
    }
    AscendingUnique(list, [k]);
  }

  function LastOr(a: CString, x: CString, w: CString): seq<Filter> {
    [Filter(a, Equal, w, Or), Filter(a, Equal, x, RelNone)]
  }

  // WHERE a = w OR a = x lists the last row before the one that holds x ...
  lemma OrListsOutOfOrder(conv: IntConversion, a: CString, u: CString, v: CString, w: CString, k: nat)
    requires u != v && u != w && v != w && k < 2
    ensures var t := ThreeRows(a, u, v, w);
            ChainRows(t.cols, conv, t.rows, LastOr(a, t.rows[k][0].s, w), RelNone, []) == Rows([2, k])
  {
    var t := ThreeRows(a, u, v, w);
    var chain := LastOr(a, t.rows[k][0].s, w);
    OneMatch(t, conv, chain[0], 2);
    OneMatch(t, conv, chain[1], k);
    assert AddAll([], [2]) == [] + [2] == [2];
    assert AddAll([2], [k]) == [2] + [k] == [2, k];
    assert chain[1..][0] == chain[1] && chain[1..][1..] == [];
    assert ChainRows(t.cols, conv, t.rows, chain[1..], Or, [2]) == Rows([2, k]);
  }

  // ... so that DELETE removes the first row instead of the second.
  lemma OrDeletesWrongRow(conv: IntConversion, a: CString, u: CString, v: CString, w: CString)
    requires u != v && u != w && v != w
    ensures var t, chain := ThreeRows(a, u, v, w), LastOr(a, v, w);
            && ChainRows(t.cols, conv, t.rows, chain, RelNone, []) != Crash
            && ApplyDelete(t, conv, chain) == TableResponse(OneColumn(a, [[Text(v)]]), OK)
            && Unmatched(t.cols, conv, chain, t.rows) == [[Text(u)]]
  {
    var t, chain := ThreeRows(a, u, v, w), LastOr(a, v, w);
    OrListsOutOfOrder(conv, a, u, v, w, 1);
    LastAndSecondDeleted(t.rows[0], t.rows[1], t.rows[2]);
    ChainMeaning(t.cols, conv, t.rows, chain, RelNone, []);
    SurvivorsUnmatched(t.cols, conv, chain, t.rows, {1, 2}, 0);
  }

  // With the first row instead of the second, DELETE fails half-way and leaves a row
  // that its WHERE is true of.
  lemma OrDeletesHalfway(conv: IntConversion, a: CString, u: CString, v: CString, w: CString)
    requires u != v && u != w && v != w
    ensures var t, chain := ThreeRows(a, u, v, w), LastOr(a, u, w);
            && ChainRows(t.cols, conv, t.rows, chain, RelNone, []) != Crash
            && ApplyDelete(t, conv, chain) == TableResponse(OneColumn(a, [[Text(u)], [Text(v)]]), IndexOutOfBounds)
            && RowTyped(t.cols, t.rows[0]) && ChainTruth(t.cols, conv, chain, RelNone, false, t.rows[0])
  {
    var t, chain := ThreeRows(a, u, v, w), LastOr(a, u, w);
    OrListsOutOfOrder(conv, a, u, v, w, 0);
    LastAndFirstDeleted(t.rows[0], t.rows[1], t.rows[2]);
    assert [2, 0][1] in [2, 0];
    ChainMeaning(t.cols, conv, t.rows, chain, RelNone, []);
  }

  lemma LastAndSecondDeleted(x: Row, y: Row, z: Row)
    ensures DeleteLoop([x, y, z], [2, 1], 0) == DeleteResult(true, [y])
    ensures Survivors([x, y, z], {1, 2}, 0) == [x]
  {
    assert WrapSub(2, 0) == 2 && WrapSub(1, 1) == 0;
    assert RemoveAt([x, y, z], 2) == [x, y] && RemoveAt([x, y], 0) == [y];
    assert [2, 1][1..] == [1];
    assert DeleteLoop([x, y], [1], 1) == DeleteResult(true, [y]);
    assert Survivors([z], {1, 2}, 2) == [];
    assert Survivors([y, z], {1, 2}, 1) == [];
    assert [x, y, z][1..] == [y, z];
  }

  lemma LastAndFirstDeleted(x: Row, y: Row, z: Row)
    ensures DeleteLoop([x, y, z], [2, 0], 0) == DeleteResult(false, [x, y])
  {
    assert WrapSub(2, 0) == 2 && WrapSub(0, 1) == TWO64 - 1;
    assert RemoveAt([x, y, z], 2) == [x, y];
    assert [2, 0][1..] == [0];
    assert DeleteLoop([x, y], [0], 1) == DeleteResult(false, [x, y]);
  }
}
