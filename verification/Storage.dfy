// The columnar row store: columns with one array each, tables that keep them
// aligned, and the heap blocks of the strings.
module Storage {
  import opened CText
  import opened Values
  import opened RowLists
  import opened IntLists
  import opened Filters
  import opened Cells

  const BAZA_DEFAULT_ROW_CAPACITY: nat := 64

  // The heap, as far as it holds cell strings. An address may be handed out
  // again once its block has been freed.
  class Memory {
    var blocks: Blocks

    constructor ()
      ensures blocks == map[]
    {
      blocks := map[];
    }

    method Strdup(text: CString) returns (p: nat)
      modifies this
      ensures p !in old(blocks) && blocks == old(blocks)[p := text]
    {
      var bound := UnusedAddress(blocks.Keys);
      p :| p !in blocks;
      blocks := blocks[p := text];
    }

    // Freeing anything but a live block, once, is an error.
    method Free(p: nat)
      requires p in blocks
      modifies this
      ensures blocks == old(blocks) - {p}
    {
      blocks := blocks - {p};
    }
  }

  lemma {:induction false} UnusedAddress(used: set<nat>) returns (p: nat)
    ensures forall q :: q in used ==> q < p
    ensures p !in used
  {
    if used == {} {
      p := 0;
    } else {
      var q :| q in used;
      var b := UnusedAddress(used - {q});
      p := if q < b then b else q + 1;
      assert forall x :: x in used ==> x == q || x in used - {q};
    }
  }

  class Column {
    const id: nat
    const name: CString
    const ctype: BaseType
    var data: array<nat>  // no slots until the first allocation

    constructor (id: nat, name: CString, ctype: BaseType)
      ensures this.id == id && this.name == name && this.ctype == ctype
      ensures fresh(data) && data.Length == 0
    {
      this.id, this.name, this.ctype := id, name, ctype;
      data := new nat[0];
    }

    function Meta(): ColumnMeta {
      ColumnMeta(id, name, ctype)
    }

    // The first slots are these.
    ghost predicate Starts(slots: seq<nat>)
      reads this, data
    {
      |slots| <= data.Length && data[..|slots|] == slots
    }

    // The new slots hold whatever the allocator left there.
    method ReallocData(capacity: nat)
      requires data.Length <= capacity
      modifies this
      ensures fresh(data) && data.Length == capacity
      ensures data[..old(data.Length)] == old(data[..])
    {
      var larger := new nat[capacity];
      forall i | 0 <= i < data.Length {
        larger[i] := data[i];
      }
      data := larger;
    }

    // Free the string of the row, then shift the later rows down one slot
    // without copying what they point to. The last slot goes stale.
    method RowDelete(index: nat, size: nat, mem: Memory)
      requires index < size <= data.Length
      requires ctype == String ==> data[index] in mem.blocks
      modifies data, mem
      ensures data[..size - 1] == RemoveAt(old(data[..size]), index)
      ensures data[size - 1..] == old(data[size - 1..])
      ensures mem.blocks == if ctype == String then old(mem.blocks) - {old(data[index])} else old(mem.blocks)
    {
      if ctype == String {
        mem.Free(data[index]);
      }
      var i := index;
      while i < size - 1
        modifies data
        invariant index <= i <= size - 1
        invariant forall j :: 0 <= j < data.Length ==>
                    data[j] == if index <= j < i then old(data[j + 1]) else old(data[j])
      {
        data[i] := data[i + 1];
        i := i + 1;
      }
    }

    // icolumn_free: the strings of the rows in use, each once.
    method FreeStrings(size: nat, mem: Memory, ghost slots: seq<nat>)
      requires Starts(slots) && |slots| == size
      requires forall r :: 0 <= r < size ==> slots[r] in mem.blocks
      requires forall r, q :: 0 <= r < q < size ==> slots[r] != slots[q]
      modifies mem
      ensures mem.blocks == old(mem.blocks) - (set p | p in slots)
    {
      var i := 0;
      while i < size
        invariant 0 <= i <= size
        invariant mem.blocks == old(mem.blocks) - (set p | p in slots[..i])
      {
        assert data[i] == data[..size][i] == slots[i];
        assert slots[..i + 1] == slots[..i] + [slots[i]];
        mem.Free(data[i]);
        i := i + 1;
      }
      assert slots[..size] == slots;
    }

    // All rows that pass the comparison, in ascending order.
    method Find(size: nat, op: FilterOp, value: Value, mem: Memory,
                ghost cols: seq<ColumnMeta>, ghost rows: seq<Row>, ghost c: nat) returns (matches: IntList)
      requires size <= data.Length && (Supported(op) || size == 0)
      requires WellTyped(cols, rows) && c < |cols| && cols[c] == Meta() && |rows| == size
      requires Typed(ctype, value)
      requires forall r :: 0 <= r < size ==> rows[r][c] == ReadCell(ctype, data[r], mem.blocks)
      ensures matches.Valid() && fresh(matches.Repr)
      ensures matches.items == FindSeq(cols, rows, c, op, value, size)
    {
      matches := new IntList(INTLIST_NULL);
      var i := 0;
      while i < size
        invariant 0 <= i <= size
        invariant matches.Valid() && fresh(matches.Repr)
        invariant matches.items == FindSeq(cols, rows, c, op, value, i)
      {
        var ith := ReadCell(ctype, data[i], mem.blocks);
        var cmp := CallFilterFunc(op, ctype, ith, value);
        if cmp {
          matches.Push(i);
        }
        i := i + 1;
      }
    }
  }

  // The first column with that id, or |metas|.
  function FindId(metas: seq<ColumnMeta>, cid: nat): (c: nat)
    ensures c <= |metas|
    ensures forall i :: 0 <= i < c ==> metas[i].id != cid
    ensures c < |metas| ==> metas[c].id == cid
  {
    if metas == [] || metas[0].id == cid then 0 else 1 + FindId(metas[1..], cid)
  }

  // 64 doubled some number of times.
  predicate IsCapacity(n: nat) {
    n == BAZA_DEFAULT_ROW_CAPACITY || (n > BAZA_DEFAULT_ROW_CAPACITY && n % 2 == 0 && IsCapacity(n / 2))
  }

  function DoubledBy(n: nat, times: nat): nat {
    if times == 0 then n else 2 * DoubledBy(n, times - 1)
  }

  lemma {:induction false} CapacityIsDoubled(n: nat) returns (times: nat)
    requires IsCapacity(n)
    ensures n == DoubledBy(BAZA_DEFAULT_ROW_CAPACITY, times)
  {
    if n == BAZA_DEFAULT_ROW_CAPACITY {
      times := 0;
    } else {
      times := CapacityIsDoubled(n / 2);
      times := times + 1;
    }
  }

  class Table {
    const id: nat
    const name: CString
    var rowCount: nat
    var rowCapacity: nat
    var columns: seq<Column>

    ghost var metas: seq<ColumnMeta>
    ghost var cells: Grid          // per column, the slots below rowCount
    ghost var strings: set<nat>    // the blocks the table owns
    ghost var inserts: nat         // rows ever added
    ghost var copied: nat          // slots per column copied by growth
    ghost var Repr: set<object>
    ghost var buffers: map<array<nat>, nat>  // which column a buffer belongs to

    // Every column has a buffer of its own of exactly rowCapacity slots.
    ghost predicate Layout()
      reads this, Repr
    {
      && this in Repr && buffers.Keys <= Repr
      && |metas| == |columns|
      && forall c :: 0 <= c < |columns| ==>
           && columns[c] in Repr && columns[c].Meta() == metas[c]
           && columns[c].data in buffers && buffers[columns[c].data] == c
           && columns[c].data.Length == rowCapacity
    }

    ghost predicate Named()
      reads this
    {
      && (forall c :: 0 <= c < |metas| ==> metas[c].ctype != Invalid)
      && (forall c, d :: 0 <= c < d < |metas| ==> metas[c].id != metas[d].id && metas[c].name != metas[d].name)
    }

    // The capacity doubles from 64, and all copying done by growth together is
    // at most twice the number of rows ever inserted.
    ghost predicate Accounted()
      reads this
    {
      && IsCapacity(rowCapacity)
      && rowCount <= inserts
      && copied == rowCapacity - BAZA_DEFAULT_ROW_CAPACITY
      && (rowCapacity == BAZA_DEFAULT_ROW_CAPACITY || rowCapacity <= 2 * inserts)
    }

    ghost predicate Valid()
      reads this, Repr
    {
      && Layout() && Named()
      && rowCount < rowCapacity && Accounted()
      && Shaped(cells, |columns|, rowCount)
      && (forall c :: 0 <= c < |columns| ==> columns[c].Starts(cells[c]))
    }

    // Growth is paid for by the rows inserted, whatever was deleted in between.
    lemma GrowthIsAmortised()
      requires Valid()
      ensures copied <= 2 * inserts
      ensures forall c :: 0 <= c < |columns| ==> rowCount < columns[c].data.Length == rowCapacity
    {
    }

    // The slots that own a string, and the blocks they own.
    ghost function Slots(): set<Slot>
      reads this
    {
      StringSlots(metas, rowCount)
    }

    ghost function Strings(): set<nat>
      reads this
    {
      Pointers(cells, Slots())
    }

    ghost predicate Owns(mem: Memory)
      reads this, mem
    {
      Owned(cells, Slots(), mem.blocks) && strings == Strings()
    }

    // The table as a sequence of rows.
    ghost function Rows(mem: Memory): (rows: seq<Row>)
      requires Valid()
      reads this, Repr, mem
      ensures WellTyped(metas, rows) && |rows| == rowCount
    {
      RowsOf(metas, cells, rowCount, mem.blocks)
    }

    constructor (id: nat, name: CString)
      ensures Valid() && fresh(Repr)
      ensures this.id == id && this.name == name
      ensures columns == [] && metas == [] && rowCount == 0 && strings == {} && inserts == 0
    {
      this.id, this.name := id, name;
      rowCount, rowCapacity := 0, BAZA_DEFAULT_ROW_CAPACITY;
      columns := [];
      metas, cells, strings, inserts, copied := [], [], {}, 0, 0;
      Repr, buffers := {this}, map[];
    }

    method ColumnById(cid: nat) returns (column: Column?)
      requires Valid()
      ensures var c := FindId(metas, cid); column == if c < |columns| then columns[c] else null
    {
      var i := 0;
      while i < |columns|
        invariant 0 <= i <= |columns|
        invariant forall c :: 0 <= c < i ==> metas[c].id != cid
      {
        if columns[i].id == cid {
          return columns[i];
        }
        i := i + 1;
      }
      return null;
    }

    method ColumnFind(name: CString) returns (column: Column?)
      requires Valid()
      ensures var c := FindColumn(metas, name); column == if c < |columns| then columns[c] else null
    {
      var i := 0;
      while i < |columns|
        invariant 0 <= i <= |columns|
        invariant FindColumn(metas, name) == i + FindColumn(metas[i..], name)
      {
        if columns[i].name == name {
          return columns[i];
        }
        i := i + 1;
      }
      return null;
    }

    // The slot of row nth, which may be one past the last row; always inside the buffer.
    method ColumnGetRow(cid: nat, nth: nat) returns (column: Column?)
      requires Valid()
      ensures var c := FindId(metas, cid); column == if nth <= rowCount && c < |columns| then columns[c] else null
      ensures column != null ==> nth < column.data.Length
    {
      if nth > rowCount {
        return null;
      }
      column := ColumnById(cid);
    }

    method ColumnNew(cid: nat, ctype: BaseType, name: CString) returns (res: BazaResult)
      requires Valid() && ctype != Invalid
      requires forall c :: 0 <= c < |columns| ==> columns[c].id != cid
      modifies this
      ensures Valid() && fresh(Repr - old(Repr))
      ensures rowCount == old(rowCount) && strings == old(strings) && inserts == old(inserts)
      ensures res == if rowCount > 0 then TableNotEmpty
                     else if FindColumn(old(metas), name) < |old(columns)| then DuplicateColumnName else OK
      ensures metas == if res == OK then old(metas) + [ColumnMeta(cid, name, ctype)] else old(metas)
      ensures res != OK ==> cells == old(cells)
    {
      if rowCount > 0 {
        return TableNotEmpty;
      }
      var existing := ColumnFind(name);
      if existing != null {
        return DuplicateColumnName;
      }
      var column := new Column(cid, name, ctype);
      column.ReallocData(rowCapacity);
      Append(column);
      return OK;
    }

    // Link the new column behind the last one.
    method Append(column: Column)
      requires Valid() && rowCount == 0
      requires column !in Repr && column.data !in Repr
      requires column.ctype != Invalid && column.data.Length == rowCapacity
      requires forall c :: 0 <= c < |columns| ==> columns[c].id != column.id && columns[c].name != column.name
      modifies this`columns, this`metas, this`cells, this`Repr, this`buffers
      ensures Valid() && Repr == old(Repr) + {column, column.data}
      ensures rowCount == old(rowCount) && strings == old(strings) && columns == old(columns) + [column]
    {
      columns, metas := columns + [column], metas + [column.Meta()];
      cells := cells + [[]];
      Repr, buffers := Repr + {column, column.data}, buffers[column.data := |columns| - 1];
    }

    method ReallocColumns(size: nat) returns (ghost larger: map<array<nat>, nat>)
      requires Layout() && rowCapacity <= size
      modifies columns
      ensures forall c :: 0 <= c < |columns| ==> columns[c].data.Length == size
      ensures forall c :: 0 <= c < |columns| ==> columns[c].data[..rowCapacity] == old(columns[c].data[..])
      ensures forall c :: 0 <= c < |columns| ==> columns[c].data in larger && larger[columns[c].data] == c
      ensures fresh(larger.Keys)
    {
      larger := map[];
      var i := 0;
      while i < |columns|
        invariant 0 <= i <= |columns|
        invariant forall c :: 0 <= c < i ==> columns[c].data.Length == size
        invariant forall c :: 0 <= c < i ==> columns[c].data[..rowCapacity] == old(columns[c].data[..])
        invariant forall c :: 0 <= c < i ==> columns[c].data in larger && larger[columns[c].data] == c
        invariant fresh(larger.Keys)
        invariant forall c :: i <= c < |columns| ==> columns[c].data == old(columns[c].data)
      {
        columns[i].ReallocData(size);
        larger := larger[columns[i].data := i];
        i := i + 1;
      }
    }

    // Grow every column.
    method Realloc(size: nat)
      requires Layout() && rowCapacity <= size
      modifies this`rowCapacity, this`copied, this`buffers, this`Repr, columns
      ensures Layout() && fresh(Repr - old(Repr))
      ensures rowCapacity == size && copied == old(copied) + old(rowCapacity)
      ensures forall c :: 0 <= c < |columns| ==> columns[c].data[..old(rowCapacity)] == old(columns[c].data[..])
    {
      buffers := ReallocColumns(size);
      copied := copied + rowCapacity;
      rowCapacity := size;
      Repr := Repr + buffers.Keys;
    }

    // Make room for one more row; its slots hold anything.
    method RowAdd()
      requires Valid()
      modifies this, columns
      ensures Valid() && fresh(Repr - old(Repr)) && strings == old(strings)
      ensures columns == old(columns) && metas == old(metas)
      ensures rowCount == old(rowCount) + 1 && inserts == old(inserts) + 1
      ensures forall c :: 0 <= c < |columns| ==> cells[c][..rowCount - 1] == old(cells[c])
    {
      rowCount := rowCount + 1;
      inserts := inserts + 1;
      GrowIfFull();
      ReadBack();
    }

    method GrowIfFull()
      requires Layout() && rowCount <= rowCapacity && Accounted()
      modifies this`rowCapacity, this`copied, this`buffers, this`Repr, columns
      ensures Layout() && fresh(Repr - old(Repr)) && Accounted()
      ensures rowCount < rowCapacity && old(rowCapacity) <= rowCapacity
      ensures forall c :: 0 <= c < |columns| ==> columns[c].data[..old(rowCapacity)] == old(columns[c].data[..])
    {
      if rowCount == rowCapacity {
        Realloc(rowCapacity * 2);
      }
    }

    // The slots in use after a change of rowCount or of the buffers.
    ghost method ReadBack()
      requires Layout() && rowCount <= rowCapacity
      modifies this`cells
      ensures Shaped(cells, |columns|, rowCount)
      ensures forall c :: 0 <= c < |columns| ==> columns[c].Starts(cells[c])
    {
      var g: Grid := [];
      for i := 0 to |columns|
        invariant Shaped(g, i, rowCount)
        invariant forall c :: 0 <= c < i ==> columns[c].data[..rowCount] == g[c]
      {
        g := g + [columns[i].data[..rowCount]];
      }
      cells := g;
    }

    // The cells of every column, as far as the deletion of a row has come.
    ghost predicate Shifted(done: nat, index: nat)
      requires Layout() && Shaped(cells, |columns|, rowCount) && index < rowCount
      reads this, Repr
    {
      forall c :: 0 <= c < |columns| ==>
        columns[c].Starts(if c < done then RemoveAt(cells[c], index) else cells[c])
    }

    // Take row `index` out of every column.
    method ShiftColumns(index: nat, mem: Memory)
      requires Layout() && Shaped(cells, |columns|, rowCount) && index < rowCount <= rowCapacity && mem !in Repr
      requires Shifted(0, index) && RowLive(metas, cells, index, mem.blocks)
      modifies buffers.Keys, mem
      ensures Shifted(|columns|, index)
      ensures mem.blocks == BlocksWithout(old(mem.blocks), metas, cells, |columns|, index)
    {
      ghost var live := mem.blocks;
      BlocksWithoutNone(live, metas, cells, index);
      var i := 0;
      while i < |columns|
        invariant 0 <= i <= |columns|
        invariant Shifted(i, index) == true  // kept folded
        invariant mem.blocks == BlocksWithout(live, metas, cells, i, index)
      {
        BlocksWithoutNext(live, metas, cells, i, index);
        assert columns[i].ctype == metas[i].ctype;
        ShiftColumn(i, index, mem);
        i := i + 1;
      }
    }

    method ShiftColumn(i: nat, index: nat, mem: Memory)
      requires Layout() && Shaped(cells, |columns|, rowCount) && index < rowCount <= rowCapacity && mem !in Repr
      requires i < |columns| && Shifted(i, index)
      requires columns[i].ctype == String ==> cells[i][index] in mem.blocks
      modifies columns[i].data, mem
      ensures Shifted(i + 1, index)
      ensures mem.blocks == old(mem.blocks) - (if columns[i].ctype == String then {cells[i][index]} else {})
    {
      var column := columns[i];
      assert column.Starts(cells[i]);
      assert column.data[index] == column.data[..rowCount][index];
      column.RowDelete(index, rowCount, mem);
      assert column.Starts(RemoveAt(cells[i], index));
      assert forall c :: 0 <= c < |columns| && c != i ==> columns[c].data != column.data;
    }

    ghost method TakeStock(mem: Memory)
      requires Valid() && Owned(cells, Slots(), mem.blocks)
      modifies this`strings
      ensures Valid() && Owns(mem) && strings == Strings() && Rows(mem) == old(Rows(mem))
    {
      strings := Strings();
    }

    method TakeOut(index: nat, mem: Memory)
      requires Valid() && mem !in Repr && index < rowCount && RowLive(metas, cells, index, mem.blocks)
      modifies this`rowCount, this`cells, buffers.Keys, mem
      ensures Valid() && rowCount == old(rowCount) - 1 && cells == RemoveRow(old(cells), index)
      ensures mem.blocks == old(mem.blocks) - RowStrings(metas, old(cells), |columns|, index)
    {
      ShiftColumns(index, mem);
      rowCount := rowCount - 1;
      cells := RemoveRow(cells, index);
    }

    // Out of bounds nothing happens. Otherwise the row goes, its strings are
    // freed, and the strings of everybody else are as before.
    method RowDelete(index: nat, mem: Memory) returns (res: BazaResult)
      requires Valid() && Owns(mem) && mem !in Repr
      modifies this`rowCount, this`cells, this`strings, buffers.Keys, mem
      ensures Valid() && Owns(mem)
      ensures res == if index < old(rowCount) then OK else IndexOutOfBounds
      ensures Rows(mem) == if index < old(rowCount) then RemoveAt(old(Rows(mem)), index) else old(Rows(mem))
      ensures mem.blocks - strings == old(mem.blocks - strings)
    {
      if index >= rowCount {
        return IndexOutOfBounds;
      }
      DropRow(index, mem);
      return OK;
    }

    method DropRow(index: nat, mem: Memory)
      requires Valid() && Owns(mem) && mem !in Repr && index < rowCount
      modifies this`rowCount, this`cells, this`strings, buffers.Keys, mem
      ensures Valid() && Owns(mem)
      ensures Rows(mem) == RemoveAt(old(Rows(mem)), index)
      ensures mem.blocks - strings == old(mem.blocks - strings)
    {
      RemoveRowOwned(metas, cells, rowCount, index, mem.blocks);
      RemoveRowRows(metas, cells, rowCount, index, mem.blocks);
      OwnedRowLive(metas, cells, rowCount, index, mem.blocks);
      TakeOut(index, mem);
      TakeStock(mem);
    }

    method GetSlot(column: Column, r: nat, ghost c: nat) returns (w: nat)
      requires Valid() && c < |columns| && columns[c] == column && r < rowCount
      ensures w == At(cells, Slot(c, r))
    {
      assert column.Starts(cells[c]);
      w := column.data[r];
      assert w == column.data[..rowCount][r];
    }

    // itable_free, as far as the strings go: exactly what the table owns is freed.
    method FreeAll(mem: Memory)
      requires Valid() && Owns(mem) && mem !in Repr
      modifies mem
      ensures mem.blocks == old(mem.blocks) - strings
    {
      ghost var live := mem.blocks;
      NoColumnsFreed(metas, cells, rowCount);
      var i := 0;
      while i < |columns|
        invariant 0 <= i <= |columns|
        invariant mem.blocks == live - Pointers(cells, SlotsBefore(metas, i, rowCount))
      {
        FreeNextColumn(metas, cells, rowCount, i, live);
        if columns[i].ctype == String {
          columns[i].FreeStrings(rowCount, mem, cells[i]);
        }
        i := i + 1;
      }
      assert SlotsBefore(metas, |columns|, rowCount) == Slots();
    }

    // Write through the pointer to a slot.
    method SetSlot(column: Column, r: nat, w: nat, ghost c: nat)
      requires Valid() && c < |columns| && columns[c] == column && r < rowCount
      modifies this`cells, column.data
      ensures Valid() && cells == SetCell(old(cells), Slot(c, r), w)
    {
      assert column.Starts(cells[c]);
      column.data[r] := w;
      cells := SetCell(cells, Slot(c, r), w);
      assert column.Starts(cells[c]);
    }
  }
}
