// The statements of the interpreter, once their table has been found.
module Statements {
  import opened CText
  import opened Values
  import opened RowLists
  import opened IntLists
  import opened Filters
  import opened Assignments
  import opened RowWrites
  import opened Storage
  import opened Interpreter
  import opened RowLoops
  import opened Queries

  ghost function ModelOf(table: Table, mem: Memory): (t: TableModel)
    requires table.Valid()
    reads table, table.Repr, mem
    ensures WellTyped(t.cols, t.rows)
  {
    TableModel(table.id, table.name, table.metas, table.Rows(mem))
  }

  method InterpretInsert(table: Table, values: seq<CString>, mem: Memory, conv: IntConversion) returns (res: BazaResult)
    requires table.Valid() && table.Owns(mem) && mem !in table.Repr
    requires EnoughValues(conv, table.metas, values)
    modifies table, table.Repr, mem
    ensures Stepped(table, mem) && table.inserts == old(table.inserts) + if res == OK then 1 else 0
    ensures TableResponse(ModelOf(table, mem), res) == ApplyInsert(old(ModelOf(table, mem)), conv, values)
  {
    res := InsertRow(table, values, mem, conv);
  }

  method InterpretDelete(table: Table, filters: seq<Filter>, mem: Memory, conv: IntConversion) returns (res: BazaResult)
    requires table.Valid() && table.Owns(mem) && mem !in table.Repr
    requires ChainRows(table.metas, conv, table.Rows(mem), filters, RelNone, []) != Crash
    modifies table`rowCount, table`cells, table`strings, table.buffers.Keys, mem
    ensures Stepped(table, mem)
    ensures TableResponse(ModelOf(table, mem), res) == ApplyDelete(old(ModelOf(table, mem)), conv, filters)
  {
    if filters == [] {
      res := DeleteAll(table, mem);
      return;
    }
    ghost var t := ModelOf(table, mem);
    var filterRows;
    ghost var found := ChainRows(t.cols, conv, t.rows, filters, RelNone, []);
    res, filterRows := FilterInterpret(table, conv, filters, mem, t.rows, found);
    if res == OK {
      res := DeleteListed(table, filterRows, mem);
    }
  }

  function ListedMetas(cols: seq<ColumnMeta>, names: seq<CString>, first: nat): seq<ColumnMeta>
    requires first <= |cols|
    decreases |cols| - first
  {
    if first == |cols| then []
    else (if cols[first].name in names then [cols[first]] else []) + ListedMetas(cols, names, first + 1)
  }

  lemma {:induction false} ListedMetasAre(cols: seq<ColumnMeta>, names: seq<CString>, first: nat)
    requires first <= |cols|
    ensures ListedMetas(cols, names, first) == MetasOf(cols, ListedColumns(cols, names, first))
    decreases |cols| - first
  {
    if first < |cols| {
      ListedMetasAre(cols, names, first + 1);
    }
  }

  // table_column_get_list: the columns named, in the order of the table.
  method ListColumns(table: Table, names: seq<CString>) returns (columns: seq<ColumnMeta>)
    requires table.Valid()
    ensures columns == MetasOf(table.metas, ListedColumns(table.metas, names, 0))
  {
    ghost var cols := table.metas;
    columns := [];
    var i := 0;
    while i < |table.columns|
      invariant 0 <= i <= |table.columns|
      invariant columns + ListedMetas(cols, names, i) == ListedMetas(cols, names, 0)
    {
      if table.columns[i].name in names {
        columns := columns + [table.columns[i].Meta()];
      }
      i := i + 1;
    }
    ListedMetasAre(cols, names, 0);
  }

  method InterpretUpdate(table: Table, filters: seq<Filter>, names: seq<CString>, values: seq<CString>,
                         mem: Memory, conv: IntConversion) returns (res: BazaResult)
    requires table.Valid() && table.Owns(mem) && mem !in table.Repr
    requires var found := ChainRows(table.metas, conv, table.Rows(mem), filters, RelNone, []);
             var columns := MetasOf(table.metas, ListedColumns(table.metas, names, 0));
             found != Crash && (found.Rows? ==> EnoughValues(conv, columns, values))
    modifies table`cells, table`strings, table.buffers.Keys, mem
    ensures Stepped(table, mem)
    ensures TableResponse(ModelOf(table, mem), res)
         == ApplyUpdate(old(ModelOf(table, mem)), conv, filters, names, values)
  {
    var columns := ListColumns(table, names);
    if filters == [] {
      res := InterpretUpdateAll(table, names, columns, values, mem, conv);
    } else {
      res := InterpretUpdateFiltered(table, filters, names, columns, values, mem, conv);
    }
  }

  method InterpretUpdateFiltered(table: Table, filters: seq<Filter>, ghost names: seq<CString>,
                                 columns: seq<ColumnMeta>,
                                 values: seq<CString>, mem: Memory, conv: IntConversion) returns (res: BazaResult)
    requires table.Valid() && table.Owns(mem) && mem !in table.Repr && filters != []
    requires columns == MetasOf(table.metas, ListedColumns(table.metas, names, 0))
    requires var found := ChainRows(table.metas, conv, table.Rows(mem), filters, RelNone, []);
             found != Crash && (found.Rows? ==> EnoughValues(conv, columns, values))
    modifies table`cells, table`strings, table.buffers.Keys, mem
    ensures Stepped(table, mem)
    ensures TableResponse(ModelOf(table, mem), res)
         == ApplyUpdate(old(ModelOf(table, mem)), conv, filters, names, values)
  {
    ghost var t, targets := ModelOf(table, mem), ListedColumns(table.metas, names, 0);
    var filterRows;
    ghost var found := ChainRows(t.cols, conv, t.rows, filters, RelNone, []);
    res, filterRows := FilterInterpret(table, conv, filters, mem, t.rows, found);
    assert (Stepped(table, mem) == true) && ModelOf(table, mem) == t;  // kept folded
    if res != OK {
      return;
    }
    UpdateOutcome(t, conv, filters, names, columns, values);
    res := UpdateMatches(table, columns, values, filterRows, mem, conv, targets);
  }

  // Nothing is written before all the values have been validated.
  method UpdateMatches(table: Table, columns: seq<ColumnMeta>, values: seq<CString>, filterRows: IntList, mem: Memory,
                       conv: IntConversion, ghost targets: seq<nat>) returns (res: BazaResult)
    requires table.Valid() && table.Owns(mem) && mem !in table.Repr
    requires filterRows.Valid() && filterRows.Repr !! table.Repr && Below(filterRows.items, table.rowCount)
    requires Targets(targets, |table.metas|) && columns == MetasOf(table.metas, targets)
    requires EnoughValues(conv, columns, values)
    modifies table`cells, table`strings, table.buffers.Keys, mem
    ensures Stepped(table, mem) && table.metas == old(table.metas)
    ensures res == if AllConvert(conv, columns, values) then OK else ValueType
    ensures table.Rows(mem) ==
            if res == OK then UpdateRows(old(table.Rows(mem)), filterRows.items, |table.metas|, targets,
                                         Literals(conv, columns, values))
            else old(table.Rows(mem))
  {
    res := ValidateValueTypes(columns, values, conv);
    if res != OK {
      return ValueType;
    }
    res := UpdateListed(table, columns, values, filterRows, mem, conv, targets);
  }

  method InterpretUpdateAll(table: Table, ghost names: seq<CString>, columns: seq<ColumnMeta>,
                            values: seq<CString>, mem: Memory, conv: IntConversion) returns (res: BazaResult)
    requires table.Valid() && table.Owns(mem) && mem !in table.Repr
    requires columns == MetasOf(table.metas, ListedColumns(table.metas, names, 0))
    requires EnoughValues(conv, columns, values)
    modifies table`cells, table`strings, table.buffers.Keys, mem
    ensures Stepped(table, mem)
    ensures TableResponse(ModelOf(table, mem), res) == ApplyUpdate(old(ModelOf(table, mem)), conv, [], names, values)
  {
    ghost var t, targets := ModelOf(table, mem), ListedColumns(table.metas, names, 0);
    UpdateOutcome(t, conv, [], names, columns, values);
    res := ValidateValueTypes(columns, values, conv);
    if res != OK {
      return ValueType;
    }
    res := UpdateAll(table, columns, values, mem, conv, targets);
    UpdateAllRows(t, conv, columns, values, targets, table.Rows(mem));
  }

  lemma UpdateOutcome(t: TableModel, conv: IntConversion, filters: seq<Filter>, names: seq<CString>,
                      columns: seq<ColumnMeta>, values: seq<CString>)
    requires WellTyped(t.cols, t.rows) && columns == MetasOf(t.cols, ListedColumns(t.cols, names, 0))
    requires EnoughValues(conv, columns, values)
    requires ChainRows(t.cols, conv, t.rows, filters, RelNone, []).Rows?
    ensures Below(ChainRows(t.cols, conv, t.rows, filters, RelNone, []).list, |t.rows|)
    ensures ApplyUpdate(t, conv, filters, names, values)
         == if !AllConvert(conv, columns, values) then TableResponse(t, ValueType)
            else
              var targets, lits := ListedColumns(t.cols, names, 0), Literals(conv, columns, values);
              TableResponse(t.(rows := UpdateRows(t.rows, UpdatedRows(t, conv, filters), |t.cols|, targets, lits)), OK)
  {
    ChainMeaning(t.cols, conv, t.rows, filters, RelNone, []);
  }

  lemma UpdateAllRows(t: TableModel, conv: IntConversion, columns: seq<ColumnMeta>, values: seq<CString>,
                      targets: seq<nat>, rows: seq<Row>)
    requires WellTyped(t.cols, t.rows) && ValidTargets(t.cols, targets, values)
    requires columns == MetasOf(t.cols, targets) && AllConvert(conv, columns, values) && |rows| == |t.rows|
    requires forall r :: 0 <= r < |rows| ==>
               rows[r] == Assign(t.rows[r], targets, Literals(conv, columns, values), |targets|)
    ensures rows == UpdateRows(t.rows, UpdatedRows(t, conv, []), |t.cols|, targets, Literals(conv, columns, values))
  {
    UpdateRowsMeaning(t.rows, UpdatedRows(t, conv, []), |t.cols|, targets, Literals(conv, columns, values));
    UpdatedRowsMeaning(t, conv, []);
  }
}
