// The statements on one table: finding rows, inserting, deleting, updating.
module Interpreter {
  import opened CText
  import opened Values
  import opened IntLists
  import opened Filters
  import opened Assignments
  import opened Cells
  import opened RowWrites
  import opened Storage

  // The rows of the filters before, and how the next filter is related to them.
  ghost predicate SoFar(rowset: IntList?, rel: FilterRelation, acc: seq<int>)
    reads rowset, if rowset == null then {} else rowset.Repr
  {
    if rowset == null then rel == RelNone && acc == [] else rowset.Valid() && rowset.items == acc
  }

  // Evaluate a WHERE chain on these rows, with the outcome `found`; the row numbers
  // come back as a fresh list.
  method FilterInterpret(table: Table, conv: IntConversion, chain: seq<Filter>, mem: Memory,
                         ghost rows: seq<Row>, ghost found: ChainResult)
    returns (res: BazaResult, rowset: IntList?)
    requires table.Valid() && rows == table.Rows(mem)
    requires found == ChainRows(table.metas, conv, rows, chain, RelNone, []) && found != Crash
    ensures found == if res == OK then Rows(if rowset == null then [] else rowset.items) else Fail(res)
    ensures res == OK && chain != [] ==> rowset != null
    ensures rowset != null ==> rowset.Valid() && fresh(rowset.Repr)
  {
    ghost var cols, acc := table.metas, [];
    rowset := null;
    var rel := RelNone;
    var i := 0;
    assert chain[0..] == chain;
    while i < |chain|
      invariant 0 <= i <= |chain|
      invariant ChainRows(cols, conv, rows, chain[i..], rel, acc) == found
      invariant (SoFar(rowset, rel, acc) == true) && (WellTyped(cols, rows) == true)  // kept folded
      invariant if rowset == null then i == 0 else fresh(rowset.Repr)
    {
      ChainFolds(cols, conv, rows, chain[i..], rel, acc);
      assert chain[i..][1..] == chain[i + 1..];
      res, rowset := FilterStep(table, conv, chain[i], rel, rowset, mem, rows, acc);
      if res != OK {
        return;
      }
      acc := rowset.items;
      rel := chain[i].nextRelation;
      i := i + 1;
    }
    res := OK;
  }

  // One round of the loop above: find the rows of the filter and combine them with
  // those of the filters before it.
  method FilterStep(table: Table, conv: IntConversion, filter: Filter, rel: FilterRelation,
                    rowset: IntList?, mem: Memory, ghost rows: seq<Row>, ghost acc: seq<int>)
    returns (res: BazaResult, combined: IntList?)
    requires table.Valid() && rows == table.Rows(mem)
    requires SoFar(rowset, rel, acc) && OneFilter(table.metas, conv, rows, filter, rel, acc) != Crash
    ensures res != OK ==> combined == null && OneFilter(table.metas, conv, rows, filter, rel, acc) == Fail(res)
    ensures res == OK ==>
              && combined != null && fresh(combined.Repr) && SoFar(combined, filter.nextRelation, combined.items)
              && OneFilter(table.metas, conv, rows, filter, rel, acc) == Rows(combined.items)
  {
    var column := table.ColumnFind(filter.column);
    if column == null {
      return ColumnNotFound, null;
    }
    var value := Literal(conv, column.ctype, filter.value);
    if value.None? {
      return FilterValueType, null;
    }
    var matches := FindRows(table, column, filter.op, value.value, mem, FindColumn(table.metas, filter.column));
    combined := CombineLists(rel, rowset, matches, acc);
    res := if combined == null then ServerError else OK;
  }

  method CombineLists(rel: FilterRelation, rowset: IntList?, matches: IntList,
                      ghost acc: seq<int>) returns (r: IntList?)
    requires rowset == null ==> rel == RelNone
    requires rowset != null ==> rowset.Valid() && rowset.items == acc && rowset != matches
    requires matches.Valid()
    ensures r == null <==> Combine(rel, acc, matches.items) == None
    ensures r != null ==>
              && r.Valid() && Combine(rel, acc, matches.items) == Some(r.items)
              && (r == matches || fresh(r.Repr))
  {
    match rel {
      case RelNone =>
        r := matches;
      case And =>
        r := Intersection(rowset, matches);
      case Or =>
        r := Union(rowset, matches);
      case RelInvalid =>
        r := null;
    }
  }

  // table_find: the column is looked up again, by its id.
  method FindRows(table: Table, found: Column, op: FilterOp, value: Value, mem: Memory,
                  ghost c: nat) returns (matches: IntList)
    requires table.Valid() && c < |table.columns| && table.columns[c] == found
    requires Typed(found.ctype, value) && (Supported(op) || table.rowCount == 0)
    ensures matches.Valid() && fresh(matches.Repr)
    ensures matches.items == FindSeq(table.metas, table.Rows(mem), c, op, value, table.rowCount)
  {
    var column := table.ColumnById(found.id);
    assert column == found;
    assert column.Starts(table.cells[c]);
    assert forall r :: 0 <= r < table.rowCount ==> column.data[r] == column.data[..table.rowCount][r];
    matches := column.Find(table.rowCount, op, value, mem, table.metas, table.Rows(mem), c);
  }

  method ValidateValueTypes(columns: seq<ColumnMeta>, values: seq<CString>, conv: IntConversion)
    returns (res: BazaResult)
    requires EnoughValues(conv, columns, values)
    ensures res == if AllConvert(conv, columns, values) then OK else Err
  {
    var i := 0;
    while i < |columns|
      invariant 0 <= i <= |columns| && i <= |values|
      invariant forall j :: 0 <= j < i ==> Literal(conv, columns[j].ctype, values[j]).Some?
    {
      if columns[i].ctype == Int32 || columns[i].ctype == Int64 {
        var ires := conv(values[i]);
        if ires.None? {
          return Err;
        }
      }
      i := i + 1;
    }
    return OK;
  }

  // Write the values into the columns of one row. With `replace` the row is one
  // of the table's; without, it is the new last row, whose slots own nothing yet.
  method InsertValues(table: Table, columns: seq<ColumnMeta>, values: seq<CString>, row: nat, replace: bool,
                      mem: Memory, conv: IntConversion, ghost targets: seq<nat>) returns (res: BazaResult)
    requires table.Valid() && mem !in table.Repr && row < table.rowCount
    requires Targets(targets, |table.metas|) && columns == MetasOf(table.metas, targets) && |columns| <= |values|
    requires var base := StringSlots(table.metas, if replace then table.rowCount else row);
             Owned(table.cells, base, mem.blocks)
    modifies table`cells, table.buffers.Keys, mem
    ensures table.Valid()
    ensures res == if AllConvert(conv, columns, values) then OK else Err
    ensures AllConvert(conv, columns, values) ==>
              var base := StringSlots(table.metas, if replace then table.rowCount else row);
              Written(table.metas, conv, Start(old(table.cells), old(mem.blocks), base), table.cells, mem.blocks,
                      targets, values, row, |targets|)
  {
    ghost var base := StringSlots(table.metas, if replace then table.rowCount else row);
    ghost var from := Start(table.cells, mem.blocks, base);
    ghost var cols := table.metas;
    WrittenStart(cols, conv, from, targets, values, row);
    var i := 0;
    while i < |columns|
      invariant 0 <= i <= |columns|
      invariant table.Valid()
      invariant forall j :: 0 <= j < i ==> Literal(conv, columns[j].ctype, values[j]).Some?
      // `== true` keeps the predicate folded
      invariant Written(cols, conv, from, table.cells, mem.blocks, targets, values, row, i) == true
    {
      res := InsertValue(table, columns[i], values[i], row, replace, mem, conv, targets, values, i, from);
      if res != OK {
        return;
      }
      i := i + 1;
    }
    return OK;
  }

  method InsertValue(table: Table, column: ColumnMeta, value: CString, row: nat, replace: bool, mem: Memory,
                     conv: IntConversion, ghost targets: seq<nat>, ghost values: seq<CString>,
                     ghost i: nat, ghost from: Start) returns (res: BazaResult)
    requires table.Valid() && mem !in table.Repr && row < table.rowCount
    requires i < |targets| && ValidTargets(table.metas, targets, values) && values[i] == value
    requires table.metas[targets[i]] == column
    requires Slot(targets[i], row) in from.base <==> replace && column.ctype == String
    requires Written(table.metas, conv, from, table.cells, mem.blocks, targets, values, row, i)
    modifies table`cells, table.buffers.Keys, mem
    ensures table.Valid()
    ensures res == if Literal(conv, column.ctype, value).Some? then OK else Err
    ensures res == OK ==> Written(table.metas, conv, from, table.cells, mem.blocks, targets, values, row, i + 1)
  {
    if column.ctype == String {
      InsertString(table, column.id, value, row, replace, mem, conv, targets, values, i, from);
      return OK;
    }
    res := InsertNumber(table, column.id, column.ctype, value, row, mem, conv, targets, values, i, from);
  }

  // The two integer cases: convert, then store as many bits as the column has.
  method InsertNumber(table: Table, cid: nat, ctype: BaseType, value: CString, row: nat, mem: Memory,
                      conv: IntConversion, ghost targets: seq<nat>, ghost values: seq<CString>,
                      ghost i: nat, ghost from: Start) returns (res: BazaResult)
    requires table.Valid() && row < table.rowCount && ctype != String
    requires Targets(targets, |table.metas|) && i < |targets| <= |values| && values[i] == value
    requires table.metas[targets[i]].ctype == ctype && table.metas[targets[i]].id == cid
    requires Slot(targets[i], row) !in from.base
    requires Written(table.metas, conv, from, table.cells, mem.blocks, targets, values, row, i)
    modifies table`cells, table.buffers.Keys
    ensures table.Valid()
    ensures res == if Literal(conv, ctype, value).Some? then OK else Err
    ensures res == OK ==> Written(table.metas, conv, from, table.cells, mem.blocks, targets, values, row, i + 1)
  {
    var ires := conv(value);
    if ires.None? {
      return Err;
    }
    var w := StoredBits(ctype, ires.value);
    StoredBitsRead(ctype, ires.value, mem.blocks);
    WriteNumberStep(table.metas, conv, from, table.cells, mem.blocks, targets, values, row, i, w);
    var column := table.ColumnGetRow(cid, row);
    assert column == table.columns[targets[i]];
    table.SetSlot(column, row, w, targets[i]);
    return OK;
  }

  // The string case: free what the slot owned, then let it own a copy.
  method InsertString(table: Table, cid: nat, value: CString, row: nat, replace: bool, mem: Memory,
                      ghost conv: IntConversion, ghost targets: seq<nat>, ghost values: seq<CString>,
                      ghost i: nat, ghost from: Start)
    requires table.Valid() && mem !in table.Repr && row < table.rowCount
    requires Targets(targets, |table.metas|) && i < |targets| <= |values| && values[i] == value
    requires table.metas[targets[i]].ctype == String && table.metas[targets[i]].id == cid
    requires Slot(targets[i], row) in from.base <==> replace
    requires Written(table.metas, conv, from, table.cells, mem.blocks, targets, values, row, i)
    modifies table`cells, table.buffers.Keys, mem
    ensures table.Valid()
    ensures Written(table.metas, conv, from, table.cells, mem.blocks, targets, values, row, i + 1)
  {
    ghost var s, cells, blocks := Slot(targets[i], row), table.cells, mem.blocks;
    var column := table.ColumnGetRow(cid, row);
    assert column == table.columns[targets[i]];
    var slot := table.GetSlot(column, row, targets[i]);
    var p := Exchange(mem, slot, value, replace, cells, from.base + WrittenSlots(table.metas, targets, i, row), s);
    table.SetSlot(column, row, p, targets[i]);
    WriteStringStep(table.metas, conv, from, cells, blocks, targets, values, row, i, p,
                    if replace then blocks - {slot} else blocks);
  }

  method Exchange(mem: Memory, slot: nat, value: CString, replace: bool,
                  ghost cells: Grid, ghost slots: set<Slot>, ghost s: Slot) returns (p: nat)
    requires slot == At(cells, s) && (replace ==> s in slots) && Pointers(cells, slots) <= mem.blocks.Keys
    modifies mem
    ensures var rest := if replace then old(mem.blocks) - {slot} else old(mem.blocks);
            p !in rest && mem.blocks == rest[p := value]
  {
    if replace {
      assert At(cells, s) in Pointers(cells, slots);
      mem.Free(slot);
    }
    p := mem.Strdup(value);
  }
}
