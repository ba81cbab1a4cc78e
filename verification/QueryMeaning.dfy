// What each query does to the database and what it answers, said without the
// functions that the statements are proved against.
module QueryMeaning {
  import opened CText
  import opened Integers
  import opened Values
  import opened Filters
  import opened FilterMeaning
  import opened DeleteOrder
  import opened Assignments
  import opened Queries
  import opened QueryLaws

  // The table of that name, the first one, has become t; all else is as it was.
  predicate Changed(db: DbModel, db': DbModel, k: nat, t: TableModel) {
    k < |db.tables| && db' == db.(tables := db.tables[k := t])
  }

  // ---------------------------------------------------------------------
  // INSERT
  // ---------------------------------------------------------------------

  // Every value that goes with a column converts, and there is one for each.
  predicate AllConvertible(conv: IntConversion, cols: seq<ColumnMeta>, values: seq<CString>) {
    |cols| <= |values| && forall c :: 0 <= c < |cols| ==> Convertible(conv, cols[c].ctype, values[c])
  }

  // The cells hold, column by column, what the values denote.
  predicate RowDenoted(conv: IntConversion, cols: seq<ColumnMeta>, values: seq<CString>, row: Row)
    requires |cols| <= |values|
  {
    |row| == |cols| && forall c :: 0 <= c < |cols| ==> Denotes(conv, cols[c].ctype, values[c], row[c])
  }

  // The answer, and the table behind it: one row more, or an error and no change.
  predicate Inserted(t: TableModel, conv: IntConversion, values: seq<CString>, t': TableModel, res: BazaResult) {
    var n := |t.rows|;
    if !AllConvertible(conv, t.cols, values) then res == Err && t' == t
    else
      && res == OK && t' == t.(rows := t'.rows)
      && |t'.rows| == n + 1 && t'.rows[..n] == t.rows && RowDenoted(conv, t.cols, values, t'.rows[n])
  }

  lemma ConvertibleExactly(conv: IntConversion, cols: seq<ColumnMeta>, values: seq<CString>)
    ensures AllConvert(conv, cols, values) <==> AllConvertible(conv, cols, values)
    ensures AllConvert(conv, cols, values) ==> RowDenoted(conv, cols, values, Literals(conv, cols, values))
  {
    forall c | 0 <= c < |cols| && c < |values|
      ensures Literal(conv, cols[c].ctype, values[c]).Some? <==> Convertible(conv, cols[c].ctype, values[c])
      ensures forall v :: Literal(conv, cols[c].ctype, values[c]) == Some(v) <==>
                          Denotes(conv, cols[c].ctype, values[c], v)
    {
      LiteralDenotes(conv, cols[c].ctype, values[c]);
    }
  }

  lemma InsertMeans(db: DbModel, conv: IntConversion, q: Query)
    requires DbTyped(db) && Safe(db, conv, q) && q.Insert?
    ensures var r, k := Apply(db, conv, q), FindTable(db.tables, q.name);
            if k == |db.tables| then r == Response(db, TableNotFound)
            else
              && k < |r.db.tables| && Changed(db, r.db, k, r.db.tables[k])
              && Inserted(db.tables[k], conv, q.values, r.db.tables[k], r.result)
  {
    ApplyAt(db, conv, q);
    var k := FindTable(db.tables, q.name);
    if k < |db.tables| {
      ConvertibleExactly(conv, db.tables[k].cols, q.values);
    }
  }

  // ---------------------------------------------------------------------
  // DELETE
  // ---------------------------------------------------------------------

  // Without filters the table is emptied. With filters that cannot be evaluated it is
  // left alone. Otherwise the rows the filters are false of are left, in order, exactly
  // when the rows were added to the list in order. The answer is OK, and one row gone
  // for each that is listed, exactly when no row is listed at a place beyond its number;
  // otherwise only as many rows are gone as stand in front of the first such.
  ghost predicate Deleted(t: TableModel, conv: IntConversion, filters: seq<Filter>, t': TableModel, res: BazaResult)
    requires WellTyped(t.cols, t.rows)
  {
    var found := ChainRows(t.cols, conv, t.rows, filters, RelNone, []);
    if filters == [] then res == OK && t' == t.(rows := [])
    else if !found.Rows? then t' == t && found == Fail(res)
    else
      && t' == t.(rows := t'.rows)
      && (res == if (forall i :: 0 <= i < |found.list| ==> i <= found.list[i]) then OK else IndexOutOfBounds)
      && (res == OK ==> |t'.rows| == |t.rows| - |found.list|)
      && (forall i: nat :: WrapsAt(found.list, 0, i) ==> |t'.rows| == |t.rows| - i)
      && (res == OK && t'.rows == Unmatched(t.cols, conv, filters, t.rows) <==>
          AddedInOrder(t.cols, conv, filters, t.rows))
  }

  lemma DeleteMeans(db: DbModel, conv: IntConversion, q: Query)
    requires DbTyped(db) && Safe(db, conv, q) && q.Delete?
    requires forall i :: 0 <= i < |db.tables| ==> |db.tables[i].rows| < TWO64
    ensures var r, k := Apply(db, conv, q), FindTable(db.tables, q.name);
            if k == |db.tables| then r == Response(db, TableNotFound)
            else
              && k < |r.db.tables| && Changed(db, r.db, k, r.db.tables[k])
              && Deleted(db.tables[k], conv, q.filters, r.db.tables[k], r.result)
  {
    ApplyAt(db, conv, q);
    var k := FindTable(db.tables, q.name);
    if k < |db.tables| && q.filters != [] {
      var t := db.tables[k];
      var found := ChainRows(t.cols, conv, t.rows, q.filters, RelNone, []);
      DeleteIsExactInOrder(t, conv, q.filters);
      if found.Rows? {
        ChainMeaning(t.cols, conv, t.rows, q.filters, RelNone, []);
        SucceedsExactly(t.rows, found.list, 0, |t.rows|);
      }
    }
  }

  // ---------------------------------------------------------------------
  // UPDATE
  // ---------------------------------------------------------------------

  // The error of the filters, ValueType unless each listed column has a value that
  // converts, and otherwise OK.
  ghost predicate Answered(t: TableModel, conv: IntConversion, filters: seq<Filter>, names: seq<CString>,
                           values: seq<CString>, res: BazaResult)
    requires WellTyped(t.cols, t.rows)
  {
    var found := ChainRows(t.cols, conv, t.rows, filters, RelNone, []);
    if !found.Rows? then found == Fail(res)
    else res == if AllConvertible(conv, MetasOf(t.cols, ListedColumns(t.cols, names, 0)), values) then OK else ValueType
  }

  // An error changes nothing. OK changes the rows the filters are true of, and with the
  // names in table order each of them as the SET says.
  ghost predicate Updated(t: TableModel, conv: IntConversion, filters: seq<Filter>, names: seq<CString>,
                          values: seq<CString>, t': TableModel, res: BazaResult)
    requires WellTyped(t.cols, t.rows)
  {
    && Answered(t, conv, filters, names, values, res)
    && (res != OK ==> t' == t)
    && t' == t.(rows := t'.rows) && |t'.rows| == |t.rows|
    && forall k :: 0 <= k < |t.rows| ==>
         && RowTyped(t.cols, t.rows[k])
         && var meant := filters == [] || ChainTruth(t.cols, conv, filters, RelNone, false, t.rows[k]);
         && (!meant ==> t'.rows[k] == t.rows[k])
         && (meant && res == OK && NamedInTableOrder(t.cols, names) ==>
               SetAsNamed(t.cols, conv, names, values, t.rows[k], t'.rows[k]))
  }

  // The column of the i-th name holds what the i-th value denotes there, the other
  // columns are as before.
  ghost predicate SetAsNamed(cols: seq<ColumnMeta>, conv: IntConversion, names: seq<CString>, values: seq<CString>,
                             before: Row, row: Row)
  {
    && |names| <= |values| && |row| == |before| == |cols|
    && (forall i, c: nat :: 0 <= i < |names| && Names(cols, names[i], c) ==>
          Denotes(conv, cols[c].ctype, values[i], row[c]))
    && (forall c :: 0 <= c < |cols| && cols[c].name !in names ==> row[c] == before[c])
  }

  lemma WrittenIsSet(cols: seq<ColumnMeta>, conv: IntConversion, names: seq<CString>, values: seq<CString>,
                     before: Row, row: Row)
    requires |names| <= |values| && WrittenAsNamed(cols, conv, names, values, before, row)
    ensures SetAsNamed(cols, conv, names, values, before, row)
  {
    forall i, c: nat | 0 <= i < |names| && Names(cols, names[i], c)
      ensures Denotes(conv, cols[c].ctype, values[i], row[c])
    {
      assert FindColumn(cols, names[i]) == c;
      LiteralDenotes(conv, cols[c].ctype, values[i]);
    }
  }

  lemma UpdateMeans(db: DbModel, conv: IntConversion, q: Query)
    requires DbTyped(db) && Safe(db, conv, q) && q.Update? && ColumnsDistinct(db)
    ensures var r, k := Apply(db, conv, q), FindTable(db.tables, q.name);
            if k == |db.tables| then r == Response(db, TableNotFound)
            else
              && k < |r.db.tables| && Changed(db, r.db, k, r.db.tables[k])
              && Updated(db.tables[k], conv, q.filters, q.columns, q.values, r.db.tables[k], r.result)
  {
    ApplyAt(db, conv, q);
    var k := FindTable(db.tables, q.name);
    if k < |db.tables| {
      TableUpdated(db.tables[k], conv, q.filters, q.columns, q.values);
    }
  }

  lemma UpdateAnswers(t: TableModel, conv: IntConversion, filters: seq<Filter>, names: seq<CString>,
                      values: seq<CString>)
    requires WellTyped(t.cols, t.rows)
    requires var found := ChainRows(t.cols, conv, t.rows, filters, RelNone, []);
             && found != Crash
             && (found.Rows? ==> EnoughValues(conv, MetasOf(t.cols, ListedColumns(t.cols, names, 0)), values))
    ensures var r := ApplyUpdate(t, conv, filters, names, values);
            Answered(t, conv, filters, names, values, r.result) && (r.result != OK ==> r.table == t)
  {
    if ChainRows(t.cols, conv, t.rows, filters, RelNone, []).Rows? {
      ConvertibleExactly(conv, MetasOf(t.cols, ListedColumns(t.cols, names, 0)), values);
    }
    ErrorsAreErrors(t.cols, conv, t.rows, filters, RelNone, []);
  }

  lemma TableUpdated(t: TableModel, conv: IntConversion, filters: seq<Filter>, names: seq<CString>,
                     values: seq<CString>)
    requires WellTyped(t.cols, t.rows) && DistinctColumns(t.cols)
    requires var found := ChainRows(t.cols, conv, t.rows, filters, RelNone, []);
             && found != Crash
             && (found.Rows? ==> EnoughValues(conv, MetasOf(t.cols, ListedColumns(t.cols, names, 0)), values))
    ensures var r := ApplyUpdate(t, conv, filters, names, values);
            Updated(t, conv, filters, names, values, r.table, r.result)
  {
    UpdateAnswers(t, conv, filters, names, values);
    var r := ApplyUpdate(t, conv, filters, names, values);
    ErrorsAreErrors(t.cols, conv, t.rows, filters, RelNone, []);
    if r.result == OK {
      UpdateIsAllOrNothing(t, conv, filters, names, values);
      if NamedInTableOrder(t.cols, names) {
        UpdateWritesAsNamed(t, conv, filters, names, values);
        forall k | 0 <= k < |t.rows| && WrittenAsNamed(t.cols, conv, names, values, t.rows[k], r.table.rows[k])
          ensures SetAsNamed(t.cols, conv, names, values, t.rows[k], r.table.rows[k])
        {
          WrittenIsSet(t.cols, conv, names, values, t.rows[k], r.table.rows[k]);
        }
      }
    }
  }

  // ---------------------------------------------------------------------
  // CREATE
  // ---------------------------------------------------------------------

  predicate SpellsType(text: CString, ctype: BaseType) {
    ctype != Invalid && SameIgnoringCase(text, TypeName(ctype))
  }

  predicate IsType(text: CString) {
    exists ctype :: SpellsType(text, ctype)
  }

  // A new and empty table of that name behind the others: with the columns asked for
  // and ids that no column has had before, or without columns if a type is unknown.
  predicate Created(db: DbModel, q: Query, db': DbModel, res: BazaResult)
    requires q.Create?
  {
    var n := |db.tables|;
    && |db'.tables| == n + 1 && db'.tables[..n] == db.tables
    && db'.tables[n].id == n && db'.tables[n].name == q.name && db'.tables[n].rows == []
    && if forall i :: 0 <= i < |q.types| ==> IsType(q.types[i]) then
         && res == OK && ColumnsCreated(q, db'.tables[n].cols, db.nextColumnId, db'.nextColumnId)
       else res == InvalidQuery && db'.tables[n].cols == [] && db'.nextColumnId == db.nextColumnId
  }

  predicate ColumnsCreated(q: Query, cols: seq<ColumnMeta>, firstId: nat, nextId: nat)
    requires q.Create?
  {
    && |cols| == |q.columns| <= |q.types|
    && (forall c :: 0 <= c < |cols| ==>
          && cols[c].name == q.columns[c] && SpellsType(q.types[c], cols[c].ctype)
          && firstId <= cols[c].id < nextId)
    && forall c, d :: 0 <= c < d < |cols| ==> cols[c].id != cols[d].id
  }

  // At most one type is spelled by a text, the one that is read from it.
  lemma SpelledIsRead(text: CString)
    ensures IsType(text) <==> SpellsType(text, BaseTypeFromStr(text))
    ensures IsType(text) <==> BaseTypeFromStr(text) != Invalid
  {
    forall ctype
      ensures SpellsType(text, ctype) <==> ctype == BaseTypeFromStr(text) && ctype != Invalid
    {
      TypesExactly(text, ctype);
    }
  }

  lemma CreateMeans(db: DbModel, conv: IntConversion, q: Query)
    requires DbTyped(db) && Safe(db, conv, q) && q.Create?
    ensures var r := Apply(db, conv, q); Created(db, q, r.db, r.result)
  {
    forall i | 0 <= i < |q.types|
      ensures IsType(q.types[i]) <==> SpellsType(q.types[i], BaseTypeFromStr(q.types[i]))
      ensures IsType(q.types[i]) <==> BaseTypeFromStr(q.types[i]) != Invalid
    {
      SpelledIsRead(q.types[i]);
    }
  }

  // The new table is found by its name exactly when that was unknown.
  lemma CreateBindsNewNames(db: DbModel, conv: IntConversion, q: Query, name: CString)
    requires DbTyped(db) && Safe(db, conv, q) && q.Create?
    ensures var before, after := FindTable(db.tables, name), FindTable(Apply(db, conv, q).db.tables, name);
            after == if before < |db.tables| then before
                     else if name == q.name then |db.tables| else |db.tables| + 1
  {
    CreateMeans(db, conv, q);
    var tables := Apply(db, conv, q).db.tables;
    FindTableAppend(db.tables, tables[|db.tables|], name);
    assert tables == db.tables + [tables[|db.tables|]];
  }

  // ---------------------------------------------------------------------
  // Runs
  // ---------------------------------------------------------------------

  // Whatever the table held: after DELETE without filters and an INSERT of values that
  // convert it holds one row, with these values.
  lemma DeleteThenInsert(db: DbModel, conv: IntConversion, name: CString, values: seq<CString>)
    requires DbTyped(db) && forall i :: 0 <= i < |db.tables| ==> |db.tables[i].rows| < TWO64
    requires var qs := [Delete(name, []), Insert(name, values)]; SafeRun(db, conv, qs)
    requires var k := FindTable(db.tables, name);
             k < |db.tables| && AllConvertible(conv, db.tables[k].cols, values)
    ensures var k, db' := FindTable(db.tables, name), Run(db, conv, [Delete(name, []), Insert(name, values)]);
            && k < |db'.tables| && |db'.tables[k].rows| == 1
            && RowDenoted(conv, db.tables[k].cols, values, db'.tables[k].rows[0])
  {
    var first, second := Delete(name, []), Insert(name, values);
    assert [first, second][1..] == [second] && [second][1..] == [];
    DeleteMeans(db, conv, first);
    ApplyTyped(db, conv, first);
    var db1 := Apply(db, conv, first).db;
    SameNames(db.tables, db1.tables, name);
    InsertMeans(db1, conv, second);
    assert Run(db, conv, [first, second]) == Run(db1, conv, [second]) == Apply(db1, conv, second).db;
  }
}
