// The loops of DELETE, UPDATE and INSERT over the rows of one table, each
// proved to act on the table as on a plain sequence of rows.
module RowLoops {
  import opened CText
  import opened Integers
  import opened Values
  import opened RowLists
  import opened IntLists
  import opened Filters
  import opened Assignments
  import opened Cells
  import opened RowWrites
  import opened Storage
  import opened Interpreter

  // (Invariants of the form `P(...) == true` keep the predicate P folded.)

  // What every statement keeps: the table is well formed and still owns exactly
  // its strings, and nobody else's strings have changed.
  twostate predicate Stepped(table: Table, mem: Memory)
    reads table, table.Repr, mem
  {
    && table.Valid() && table.Owns(mem)
    && fresh(table.Repr - old(table.Repr))
    && mem.blocks - table.strings == old(mem.blocks - table.strings)
  }

  method InsertRow(table: Table, values: seq<CString>, mem: Memory, conv: IntConversion) returns (res: BazaResult)
    requires table.Valid() && table.Owns(mem) && mem !in table.Repr
    requires EnoughValues(conv, table.metas, values)
    modifies table, table.Repr, mem
    ensures Stepped(table, mem) && table.metas == old(table.metas)
    ensures table.inserts == old(table.inserts) + if res == OK then 1 else 0
    ensures res == if AllConvert(conv, table.metas, values) then OK else Err
    ensures table.Rows(mem) == old(table.Rows(mem)) + if res == OK then [Literals(conv, table.metas, values)] else []
  {
    var columns := AllMetas(table);
    res := ValidateValueTypes(columns, values, conv);
    if res != OK {
      return;
    }
    AppendRow(table, columns, values, mem, conv);
  }

  method AppendRow(table: Table, columns: seq<ColumnMeta>, values: seq<CString>, mem: Memory, conv: IntConversion)
    requires table.Valid() && table.Owns(mem) && mem !in table.Repr
    requires columns == table.metas && AllConvert(conv, columns, values)
    modifies table, table.Repr, mem
    ensures Stepped(table, mem) && table.metas == old(table.metas) && table.inserts == old(table.inserts) + 1
    ensures table.Rows(mem) == old(table.Rows(mem)) + [Literals(conv, columns, values)]
  {
    ghost var cols, cells, blocks := table.metas, table.cells, mem.blocks;
    var row := table.rowCount;
    table.RowAdd();
    ghost var grown := table.cells;
    assert Owned(grown, StringSlots(cols, row), blocks) by {
      GrownOwned(cols, cells, grown, row, blocks);
    }
    assert columns == MetasOf(cols, AllColumns(|cols|));
    var res := InsertValues(table, columns, values, row, false, mem, conv, AllColumns(|cols|));
    InsertedRow(cols, conv, cells, grown, blocks, table.cells, mem.blocks, values, row);
    assert table.metas == cols && table.rowCount == row + 1;
    assert table.Slots() == StringSlots(cols, row + 1);
    table.TakeStock(mem);
  }

  // table_column_get_list without a list of names.
  method AllMetas(table: Table) returns (columns: seq<ColumnMeta>)
    requires table.Valid()
    ensures columns == table.metas
  {
    columns := [];
    var i := 0;
    while i < |table.columns|
      invariant 0 <= i <= |table.columns|
      invariant columns == table.metas[..i]
    {
      columns := columns + [table.columns[i].Meta()];
      i := i + 1;
    }
  }

  // One row of an UPDATE.
  method ReplaceRow(table: Table, columns: seq<ColumnMeta>, values: seq<CString>, row: nat, mem: Memory,
                    conv: IntConversion, ghost targets: seq<nat>) returns (res: BazaResult)
    requires table.Valid() && table.Owns(mem) && mem !in table.Repr && row < table.rowCount
    requires ValidTargets(table.metas, targets, values) && columns == MetasOf(table.metas, targets)
    requires AllConvert(conv, columns, values)
    modifies table`cells, table`strings, table.buffers.Keys, mem
    ensures Stepped(table, mem)
    ensures res == OK
    ensures var rows := old(table.Rows(mem));
            table.Rows(mem) == rows[row := Assign(rows[row], targets, Literals(conv, columns, values), |targets|)]
  {
    ghost var from := Start(table.cells, mem.blocks, table.Slots());
    res := InsertValues(table, columns, values, row, true, mem, conv, targets);
    ReplacedRow(table.metas, conv, from, table.cells, mem.blocks, targets, values, table.rowCount, row);
    ReplacedOwned(table.metas, conv, from, table.cells, mem.blocks, targets, values, table.rowCount, row);
    table.TakeStock(mem);
  }

  // Delete the listed rows, correcting each number by the deletions before it.
  method DeleteListed(table: Table, filterRows: IntList, mem: Memory) returns (res: BazaResult)
    requires table.Valid() && table.Owns(mem) && mem !in table.Repr
    requires filterRows.Valid() && filterRows.Repr !! table.Repr
    modifies table`rowCount, table`cells, table`strings, table.buffers.Keys, mem
    ensures Stepped(table, mem) && table.metas == old(table.metas)
    ensures var d := DeleteLoop(old(table.Rows(mem)), filterRows.items, 0);
            table.Rows(mem) == d.rows && res == if d.ok then OK else IndexOutOfBounds
  {
    ghost var all, left := DeleteLoop(table.Rows(mem), filterRows.items, 0), filterRows.items;
    var deleteCount := 0;
    var row: IntList? := filterRows;
    while row != null && row.value != INTLIST_NULL
      invariant AtNode(filterRows, row, deleteCount) == true
      invariant left == From(filterRows, deleteCount)
      invariant Stepped(table, mem) == true
      invariant DeleteLoop(table.Rows(mem), left, deleteCount) == all
      decreases |filterRows.nodes| - deleteCount
    {
      AtNodeNext(filterRows, row, deleteCount);
      ghost var next := row.next;
      label Before:
      res := table.RowDelete(WrapSub(row.value, deleteCount), mem);
      assert Stepped(table, mem) == true;
      assert unchanged@Before(filterRows.Repr);
      assert AtNode(filterRows, next, deleteCount + 1) == true;
      if res != OK {
        return;
      }
      left := left[1..];
      deleteCount := deleteCount + 1;
      row := row.next;
    }
    AtNodeEnd(filterRows, row, deleteCount);
    return OK;
  }

  // Delete row 0 as often as there were rows.
  method DeleteAll(table: Table, mem: Memory) returns (res: BazaResult)
    requires table.Valid() && table.Owns(mem) && mem !in table.Repr
    modifies table`rowCount, table`cells, table`strings, table.buffers.Keys, mem
    ensures Stepped(table, mem) && table.metas == old(table.metas)
    ensures res == OK && table.Rows(mem) == []
  {
    var rowCount := table.rowCount;
    var row := 0;
    while row < rowCount
      invariant 0 <= row <= rowCount && table.rowCount == rowCount - row
      invariant Stepped(table, mem) == true
    {
      res := table.RowDelete(0, mem);
      row := row + 1;
    }
    return OK;
  }

  // Updating the rows still listed gives `all`.
  ghost predicate Updates(rows: seq<Row>, list: seq<int>, cols: seq<ColumnMeta>, targets: seq<nat>, lits: seq<Value>,
                          all: seq<Row>) {
    && |targets| == |lits| && Targets(targets, |cols|) && Below(list, |rows|) && WellTyped(cols, rows)
    && UpdateRows(rows, list, |cols|, targets, lits) == all
  }

  lemma UpdatesNext(rows: seq<Row>, list: seq<int>, cols: seq<ColumnMeta>, targets: seq<nat>, lits: seq<Value>,
                    all: seq<Row>)
    requires Updates(rows, list, cols, targets, lits, all) && list != []
    requires forall i :: 0 <= i < |lits| ==> Typed(cols[targets[i]].ctype, lits[i])
    ensures 0 <= list[0] < |rows|
    ensures var next := rows[list[0] := Assign(rows[list[0]], targets, lits, |targets|)];
            Updates(next, list[1..], cols, targets, lits, all)
  {
    AssignKeepsTypes(cols, targets, lits, rows[list[0]], |targets|);
  }

  // Update the listed rows.
  method UpdateListed(table: Table, columns: seq<ColumnMeta>, values: seq<CString>, filterRows: IntList, mem: Memory,
                      conv: IntConversion, ghost targets: seq<nat>) returns (res: BazaResult)
    requires table.Valid() && table.Owns(mem) && mem !in table.Repr
    requires filterRows.Valid() && filterRows.Repr !! table.Repr && Below(filterRows.items, table.rowCount)
    requires ValidTargets(table.metas, targets, values) && columns == MetasOf(table.metas, targets)
    requires AllConvert(conv, columns, values)
    modifies table`cells, table`strings, table.buffers.Keys, mem
    ensures Stepped(table, mem) && table.metas == old(table.metas)
    ensures res == OK
    ensures table.Rows(mem) == UpdateRows(old(table.Rows(mem)), filterRows.items, |table.metas|, targets,
                                          Literals(conv, columns, values))
  {
    ghost var lits := Literals(conv, columns, values);
    ghost var all := UpdateRows(table.Rows(mem), filterRows.items, |table.metas|, targets, lits);
    UpdateEach(table, columns, values, filterRows, mem, conv, targets, all);
    return OK;
  }

  // The loop over the list.
  method UpdateEach(table: Table, columns: seq<ColumnMeta>, values: seq<CString>, filterRows: IntList, mem: Memory,
                    conv: IntConversion, ghost targets: seq<nat>, ghost all: seq<Row>)
    requires table.Valid() && table.Owns(mem) && mem !in table.Repr
    requires filterRows.Valid() && filterRows.Repr !! table.Repr
    requires ValidTargets(table.metas, targets, values) && columns == MetasOf(table.metas, targets)
    requires AllConvert(conv, columns, values)
    requires Updates(table.Rows(mem), filterRows.items, table.metas, targets, Literals(conv, columns, values), all)
    modifies table`cells, table`strings, table.buffers.Keys, mem
    ensures Stepped(table, mem) && table.metas == old(table.metas)
    ensures table.Rows(mem) == all
  {
    ghost var lits := Literals(conv, columns, values);
    ghost var i, left := 0, filterRows.items;
    var row: IntList? := filterRows;
    while row != null && row.value != INTLIST_NULL
      invariant AtNode(filterRows, row, i) == true
      invariant left == From(filterRows, i)
      invariant Stepped(table, mem) == true
      invariant Updates(table.Rows(mem), left, table.metas, targets, lits, all) == true
      decreases |filterRows.nodes| - i
    {
      AtNodeNext(filterRows, row, i);
      ghost var next := row.next;
      label Before:
      var res := UpdateNext(table, columns, values, row.value, mem, conv, targets, left, all);
      assert Stepped(table, mem) == true;
      assert unchanged@Before(filterRows.Repr);
      assert AtNode(filterRows, next, i + 1) == true;
      left := left[1..];
      i := i + 1;
      row := row.next;
    }
    AtNodeEnd(filterRows, row, i);
  }

  method UpdateNext(table: Table, columns: seq<ColumnMeta>, values: seq<CString>, row: int, mem: Memory,
                    conv: IntConversion, ghost targets: seq<nat>, ghost list: seq<int>, ghost all: seq<Row>)
    returns (res: BazaResult)
    requires table.Valid() && table.Owns(mem) && mem !in table.Repr
    requires ValidTargets(table.metas, targets, values) && columns == MetasOf(table.metas, targets)
    requires AllConvert(conv, columns, values)
    requires list != [] && list[0] == row
    requires Updates(table.Rows(mem), list, table.metas, targets, Literals(conv, columns, values), all)
    modifies table`cells, table`strings, table.buffers.Keys, mem
    ensures Stepped(table, mem) && table.metas == old(table.metas) && table.Repr == old(table.Repr)
    ensures Updates(table.Rows(mem), list[1..], table.metas, targets, Literals(conv, columns, values), all)
  {
    UpdatesNext(table.Rows(mem), list, table.metas, targets, Literals(conv, columns, values), all);
    res := ReplaceRow(table, columns, values, row, mem, conv, targets);
  }

  // Update every row.
  method UpdateAll(table: Table, columns: seq<ColumnMeta>, values: seq<CString>, mem: Memory,
                   conv: IntConversion, ghost targets: seq<nat>) returns (res: BazaResult)
    requires table.Valid() && table.Owns(mem) && mem !in table.Repr
    requires ValidTargets(table.metas, targets, values) && columns == MetasOf(table.metas, targets)
    requires AllConvert(conv, columns, values)
    modifies table`cells, table`strings, table.buffers.Keys, mem
    ensures Stepped(table, mem) && table.metas == old(table.metas)
    ensures res == OK && table.rowCount == old(table.rowCount)
    ensures forall r :: 0 <= r < table.rowCount ==>
              table.Rows(mem)[r] == Assign(old(table.Rows(mem))[r], targets, Literals(conv, columns, values), |targets|)
  {
    ghost var rows, lits := table.Rows(mem), Literals(conv, columns, values);
    var rowCount := table.rowCount;
    var row := 0;
    while row < rowCount
      invariant 0 <= row <= rowCount == table.rowCount == old(table.rowCount)
      invariant Stepped(table, mem) == true
      invariant forall r :: 0 <= r < rowCount ==>
                  table.Rows(mem)[r] == if r < row then Assign(rows[r], targets, lits, |targets|) else rows[r]
    {
      res := ReplaceRow(table, columns, values, row, mem, conv, targets);
      row := row + 1;
    }
    return OK;
  }
}
