// The write loop over the columns of one row, on cells and blocks.
module RowWrites {
  import opened CText
  import opened Values
  import opened Filters
  import opened Cells
  import opened Assignments

  // The string slots written by the first j assignments.
  ghost function WrittenSlots(cols: seq<ColumnMeta>, targets: seq<nat>, j: nat, row: nat): set<Slot>
    requires j <= |targets| && forall i :: 0 <= i < |targets| ==> targets[i] < |cols|
  {
    set i: nat | i < j && cols[targets[i]].ctype == String :: Slot(targets[i], row)
  }

  predicate RowInGrid(cols: seq<ColumnMeta>, cells: Grid, row: nat) {
    |cells| == |cols| && forall c :: 0 <= c < |cells| ==> row < |cells[c]|
  }

  // What the loop starts from: the slots in base own their strings.
  datatype Start = Start(cells: Grid, blocks: Blocks, ghost base: set<Slot>)

  predicate ValidTargets(cols: seq<ColumnMeta>, targets: seq<nat>, values: seq<CString>) {
    Targets(targets, |cols|) && |targets| <= |values|
  }

  // After the first j assignments: who owns what, and that the strings of
  // everybody else are as before.
  ghost predicate WrittenOwned(cols: seq<ColumnMeta>, from: Start, cells: Grid, blocks: Blocks, targets: seq<nat>,
                               row: nat, j: nat)
    requires j <= |targets| && Targets(targets, |cols|)
  {
    var slots := from.base + WrittenSlots(cols, targets, j, row);
    && |cells| == |from.cells| && (forall c :: 0 <= c < |cells| ==> |cells[c]| == |from.cells[c]|)
    && Owned(cells, slots, blocks)
    && blocks - Pointers(cells, slots) == from.blocks - Pointers(from.cells, from.base)
  }

  // ... and what the slots read as.
  ghost predicate WrittenReads(cols: seq<ColumnMeta>, conv: IntConversion, from: Start, cells: Grid, blocks: Blocks,
                               targets: seq<nat>, values: seq<CString>, row: nat, j: nat)
    requires j <= |targets| && ValidTargets(cols, targets, values)
  {
    && (forall t :: Readable(cols, from.cells, from.base, t) && !(t.r == row && t.c in targets[..j]) ==>
          Cell(cols, cells, blocks, t) == Cell(cols, from.cells, from.blocks, t))
    && (forall i :: 0 <= i < j ==>
          Literal(conv, cols[targets[i]].ctype, values[i]) == Some(Cell(cols, cells, blocks, Slot(targets[i], row))))
  }

  ghost predicate Written(cols: seq<ColumnMeta>, conv: IntConversion, from: Start, cells: Grid, blocks: Blocks,
                          targets: seq<nat>, values: seq<CString>, row: nat, j: nat)
    requires j <= |targets| && ValidTargets(cols, targets, values)
  {
    && WrittenOwned(cols, from, cells, blocks, targets, row, j)
    && WrittenReads(cols, conv, from, cells, blocks, targets, values, row, j)
  }

  lemma WrittenStart(cols: seq<ColumnMeta>, conv: IntConversion, from: Start,
                     targets: seq<nat>, values: seq<CString>, row: nat)
    requires ValidTargets(cols, targets, values) && Owned(from.cells, from.base, from.blocks)
    ensures Written(cols, conv, from, from.cells, from.blocks, targets, values, row, 0)
  {
  }

  lemma WrittenSlotsNext(cols: seq<ColumnMeta>, targets: seq<nat>, j: nat, row: nat)
    requires j < |targets| && Targets(targets, |cols|)
    ensures WrittenSlots(cols, targets, j + 1, row)
         == WrittenSlots(cols, targets, j, row)
            + (if cols[targets[j]].ctype == String then {Slot(targets[j], row)} else {})
    ensures Slot(targets[j], row) !in WrittenSlots(cols, targets, j, row)
    ensures targets[..j + 1] == targets[..j] + [targets[j]] && targets[j] !in targets[..j]
  {
  }

  lemma WriteNumberStep(cols: seq<ColumnMeta>, conv: IntConversion, from: Start, cells: Grid, blocks: Blocks,
                        targets: seq<nat>, values: seq<CString>, row: nat, j: nat, w: nat)
    requires j < |targets| && ValidTargets(cols, targets, values)
    requires Written(cols, conv, from, cells, blocks, targets, values, row, j)
    requires RowInGrid(cols, cells, row) && cols[targets[j]].ctype != String
    requires Slot(targets[j], row) !in from.base
    requires Literal(conv, cols[targets[j]].ctype, values[j]) == Some(ReadCell(cols[targets[j]].ctype, w, blocks))
    ensures Written(cols, conv, from, SetCell(cells, Slot(targets[j], row), w), blocks, targets, values, row, j + 1)
  {
    var s, slots := Slot(targets[j], row), from.base + WrittenSlots(cols, targets, j, row);
    var cells' := SetCell(cells, s, w);
    assert WrittenOwned(cols, from, cells', blocks, targets, row, j + 1) by {
      WrittenSlotsNext(cols, targets, j, row);
      assert from.base + WrittenSlots(cols, targets, j + 1, row) == slots;
      WriteNumber(cells, slots, blocks, s, w);
    }
    assert forall t: Slot :: t.c < |cols| && t != s ==> Cell(cols, cells', blocks, t) == Cell(cols, cells, blocks, t);
    ReadsNext(cols, conv, from, cells, blocks, cells', blocks, targets, values, row, j);
  }

  lemma WriteStringStep(cols: seq<ColumnMeta>, conv: IntConversion, from: Start, cells: Grid, blocks: Blocks,
                        targets: seq<nat>, values: seq<CString>, row: nat, j: nat, p: nat, rest: Blocks)
    requires j < |targets| && ValidTargets(cols, targets, values)
    requires Written(cols, conv, from, cells, blocks, targets, values, row, j)
    requires RowInGrid(cols, cells, row) && cols[targets[j]].ctype == String
    requires var s := Slot(targets[j], row); rest == if s in from.base then blocks - {At(cells, s)} else blocks
    requires p !in rest
    ensures var cells' := SetCell(cells, Slot(targets[j], row), p);
            Written(cols, conv, from, cells', rest[p := values[j]], targets, values, row, j + 1)
  {
    var s, slots := Slot(targets[j], row), from.base + WrittenSlots(cols, targets, j, row);
    var cells', blocks' := SetCell(cells, s, p), rest[p := values[j]];
    WrittenSlotsNext(cols, targets, j, row);
    assert s in slots <==> s in from.base;
    assert WrittenOwned(cols, from, cells', blocks', targets, row, j + 1) by {
      assert from.base + WrittenSlots(cols, targets, j + 1, row) == slots + {s};
      WriteString(cells, slots, blocks, s, p, values[j], rest);
    }
    WriteStringReads(cols, cells, slots, blocks, s, p, values[j], rest);
    ReadsNext(cols, conv, from, cells, blocks, cells', blocks', targets, values, row, j);
  }

  // If the slot written reads as its literal and the others as before, the
  // reads are as they should be after one more assignment.
  lemma ReadsNext(cols: seq<ColumnMeta>, conv: IntConversion, from: Start, cells: Grid, blocks: Blocks,
                  cells': Grid, blocks': Blocks, targets: seq<nat>, values: seq<CString>, row: nat, j: nat)
    requires j < |targets| && ValidTargets(cols, targets, values)
    requires WrittenReads(cols, conv, from, cells, blocks, targets, values, row, j)
    requires |cells| == |from.cells| && (forall c :: 0 <= c < |cells| ==> |cells[c]| == |from.cells[c]|)
    requires RowInGrid(cols, cells, row)
    requires |cells'| == |cells| && (forall c :: 0 <= c < |cells| ==> |cells'[c]| == |cells[c]|)
    requires var s, slots := Slot(targets[j], row), from.base + WrittenSlots(cols, targets, j, row);
             && Literal(conv, cols[s.c].ctype, values[j]) == Some(Cell(cols, cells', blocks', s))
             && forall t :: t != s && Readable(cols, cells, slots, t) ==>
                  Cell(cols, cells', blocks', t) == Cell(cols, cells, blocks, t)
    ensures WrittenReads(cols, conv, from, cells', blocks', targets, values, row, j + 1)
  {
  }

  // ---------------------------------------------------------------------
  // The finished row
  // ---------------------------------------------------------------------

  // Growing the table by a row of arbitrary slots disturbs nothing.
  lemma GrownOwned(cols: seq<ColumnMeta>, cells: Grid, grown: Grid, n: nat, blocks: Blocks)
    requires Shaped(cells, |cols|, n) && Shaped(grown, |cols|, n + 1)
    requires forall c :: 0 <= c < |cols| ==> grown[c][..n] == cells[c]
    requires Owned(cells, StringSlots(cols, n), blocks)
    ensures Owned(grown, StringSlots(cols, n), blocks)
    ensures Pointers(grown, StringSlots(cols, n)) == Pointers(cells, StringSlots(cols, n))
    ensures forall r :: 0 <= r < n ==> RowOf(cols, grown, blocks, r) == RowOf(cols, cells, blocks, r)
  {
  }

  lemma AllSlotsWritten(cols: seq<ColumnMeta>, n: nat)
    ensures StringSlots(cols, n) + WrittenSlots(cols, AllColumns(|cols|), |cols|, n) == StringSlots(cols, n + 1)
  {
    var targets := AllColumns(|cols|);
    forall s
      ensures s in StringSlots(cols, n + 1) <==>
              s in StringSlots(cols, n) || s in WrittenSlots(cols, targets, |cols|, n)
    {
      if s in StringSlots(cols, n + 1) && s.r == n {
        assert targets[s.c] == s.c;
      }
    }
  }

  // INSERT: the old rows, and behind them the row of the literals.
  lemma AppendedRow(cols: seq<ColumnMeta>, conv: IntConversion, grown: Grid, blocks: Blocks,
                    cells': Grid, blocks': Blocks, values: seq<CString>, n: nat)
    requires |cols| <= |values| && AllConvert(conv, cols, values)
    requires Shaped(grown, |cols|, n + 1) && Shaped(cells', |cols|, n + 1)
    requires var from := Start(grown, blocks, StringSlots(cols, n));
             Written(cols, conv, from, cells', blocks', AllColumns(|cols|), values, n, |cols|)
    ensures Owned(cells', StringSlots(cols, n + 1), blocks')
    ensures blocks' - Pointers(cells', StringSlots(cols, n + 1)) == blocks - Pointers(grown, StringSlots(cols, n))
    ensures var rows' := RowsOf(cols, cells', n + 1, blocks');
            && rows'[n] == Literals(conv, cols, values)
            && forall r :: 0 <= r < n ==> rows'[r] == RowOf(cols, grown, blocks, r)
  {
    AllSlotsWritten(cols, n);
    var rows', targets := RowsOf(cols, cells', n + 1, blocks'), AllColumns(|cols|);
    forall c | 0 <= c < |cols|
      ensures rows'[n][c] == Literal(conv, cols[c].ctype, values[c]).value
    {
      assert targets[c] == c;
      assert rows'[n][c] == Cell(cols, cells', blocks', Slot(targets[c], n));
    }
    forall r | 0 <= r < n
      ensures rows'[r] == RowOf(cols, grown, blocks, r)
    {
      forall c | 0 <= c < |cols|
        ensures rows'[r][c] == RowOf(cols, grown, blocks, r)[c]
      {
        assert Readable(cols, grown, StringSlots(cols, n), Slot(c, r));
        assert rows'[r][c] == Cell(cols, cells', blocks', Slot(c, r));
      }
    }
  }

  lemma InsertedRow(cols: seq<ColumnMeta>, conv: IntConversion, cells: Grid, grown: Grid, blocks: Blocks,
                    cells': Grid, blocks': Blocks, values: seq<CString>, n: nat)
    requires |cols| <= |values| && AllConvert(conv, cols, values)
    requires Shaped(cells, |cols|, n) && Shaped(grown, |cols|, n + 1) && Shaped(cells', |cols|, n + 1)
    requires forall c :: 0 <= c < |cols| ==> grown[c][..n] == cells[c]
    requires Owned(cells, StringSlots(cols, n), blocks)
    requires var from := Start(grown, blocks, StringSlots(cols, n));
             Written(cols, conv, from, cells', blocks', AllColumns(|cols|), values, n, |cols|)
    ensures Owned(cells', StringSlots(cols, n + 1), blocks')
    ensures blocks' - Pointers(cells', StringSlots(cols, n + 1)) == blocks - Pointers(cells, StringSlots(cols, n))
    ensures RowsOf(cols, cells', n + 1, blocks') == RowsOf(cols, cells, n, blocks) + [Literals(conv, cols, values)]
  {
    GrownOwned(cols, cells, grown, n, blocks);
    AppendedRow(cols, conv, grown, blocks, cells', blocks', values, n);
  }

  lemma ReplacedCell(cols: seq<ColumnMeta>, conv: IntConversion, from: Start, cells': Grid, blocks': Blocks,
                     targets: seq<nat>, values: seq<CString>, n: nat, row: nat, r: nat, c: nat)
    requires ValidTargets(cols, targets, values) && AllConvert(conv, MetasOf(cols, targets), values)
    requires Shaped(from.cells, |cols|, n) && Shaped(cells', |cols|, n) && row < n && r < n && c < |cols|
    requires from.base == StringSlots(cols, n)
    requires Written(cols, conv, from, cells', blocks', targets, values, row, |targets|)
    ensures var old' := RowOf(cols, from.cells, from.blocks, r);
            RowOf(cols, cells', blocks', r)[c]
            == if r == row then Assign(old', targets, Literals(conv, MetasOf(cols, targets), values), |targets|)[c]
               else old'[c]
  {
    var lits := Literals(conv, MetasOf(cols, targets), values);
    AssignMeaning(RowOf(cols, from.cells, from.blocks, row), targets, lits, |targets|);
    assert targets[..|targets|] == targets;
    assert RowOf(cols, cells', blocks', r)[c] == Cell(cols, cells', blocks', Slot(c, r));
    if r == row && c in targets {
      var i :| 0 <= i < |targets| && targets[i] == c;
      assert Literal(conv, cols[targets[i]].ctype, values[i])
          == Some(Cell(cols, cells', blocks', Slot(targets[i], row)));
    } else {
      assert Readable(cols, from.cells, from.base, Slot(c, r));
      assert RowOf(cols, from.cells, from.blocks, r)[c] == Cell(cols, from.cells, from.blocks, Slot(c, r));
    }
  }

  // UPDATE: one row assigned, the others as before.
  lemma ReplacedRow(cols: seq<ColumnMeta>, conv: IntConversion, from: Start, cells': Grid, blocks': Blocks,
                    targets: seq<nat>, values: seq<CString>, n: nat, row: nat)
    requires ValidTargets(cols, targets, values) && AllConvert(conv, MetasOf(cols, targets), values)
    requires Shaped(from.cells, |cols|, n) && Shaped(cells', |cols|, n) && row < n
    requires from.base == StringSlots(cols, n)
    requires Written(cols, conv, from, cells', blocks', targets, values, row, |targets|)
    ensures var rows, lits := RowsOf(cols, from.cells, n, from.blocks), Literals(conv, MetasOf(cols, targets), values);
            RowsOf(cols, cells', n, blocks') == rows[row := Assign(rows[row], targets, lits, |targets|)]
  {
    var rows, lits := RowsOf(cols, from.cells, n, from.blocks), Literals(conv, MetasOf(cols, targets), values);
    var rows', want := RowsOf(cols, cells', n, blocks'), rows[row := Assign(rows[row], targets, lits, |targets|)];
    forall r | 0 <= r < n
      ensures rows'[r] == want[r]
    {
      forall c | 0 <= c < |cols|
        ensures rows'[r][c] == want[r][c]
      {
        ReplacedCell(cols, conv, from, cells', blocks', targets, values, n, row, r, c);
      }
    }
  }

  lemma ReplacedOwned(cols: seq<ColumnMeta>, conv: IntConversion, from: Start, cells': Grid, blocks': Blocks,
                      targets: seq<nat>, values: seq<CString>, n: nat, row: nat)
    requires ValidTargets(cols, targets, values) && row < n
    requires from.base == StringSlots(cols, n)
    requires Written(cols, conv, from, cells', blocks', targets, values, row, |targets|)
    ensures Owned(cells', StringSlots(cols, n), blocks')
    ensures blocks' - Pointers(cells', StringSlots(cols, n)) == from.blocks - Pointers(from.cells, StringSlots(cols, n))
  {
  }
}
