// The cells of a table as its columns hold them, the rows they stand for, and
// who owns the strings they point to. A cell of a string column is a pointer to
// a live block; a cell of an integer column is the number stored in the slot.
module Cells {
  import opened CText
  import opened Integers
  import opened Values
  import opened RowLists
  import opened Filters

  // Column by column, the slots in use.
  type Grid = seq<seq<nat>>

  // The live strings by address.
  type Blocks = map<nat, CString>

  datatype Slot = Slot(c: nat, r: nat)

  predicate Shaped(cells: Grid, k: nat, n: nat) {
    |cells| == k && forall c :: 0 <= c < k ==> |cells[c]| == n
  }

  function ReadCell(ctype: BaseType, w: nat, blocks: Blocks): (v: Value)
    ensures Typed(ctype, v)
  {
    match ctype
    case String => Text(if w in blocks then blocks[w] else [])
    case Int32 => Num(Signed32(w % TWO32))
    case _ => Num(Signed64(w % TWO64))
  }

  // Integer slots are read as signed numbers of their width.
  lemma CellIsSigned(ctype: BaseType, w: nat, blocks: Blocks)
    requires ctype == Int32 || ctype == Int64
    ensures var v := ReadCell(ctype, w, blocks); v.Num? && IsSigned(v.n, w, if ctype == Int32 then TWO32 else TWO64)
  {
  }

  // What an assignment to a slot of this type keeps of a converted literal.
  function StoredBits(ctype: BaseType, w: Word): nat {
    if ctype == Int32 then w % TWO32 else w
  }

  lemma StoredBitsRead(ctype: BaseType, w: Word, blocks: Blocks)
    requires ctype != String
    ensures ReadCell(ctype, StoredBits(ctype, w), blocks) == Num(NumberOf(ctype, w))
  {
  }

  function RowOf(cols: seq<ColumnMeta>, cells: Grid, blocks: Blocks, r: nat): (row: Row)
    requires |cells| == |cols| && forall c :: 0 <= c < |cols| ==> r < |cells[c]|
    ensures RowTyped(cols, row)
    ensures forall c :: 0 <= c < |cols| ==> row[c] == ReadCell(cols[c].ctype, cells[c][r], blocks)
  {
    seq(|cols|, c requires 0 <= c < |cols| => ReadCell(cols[c].ctype, cells[c][r], blocks))
  }

  function RowsOf(cols: seq<ColumnMeta>, cells: Grid, n: nat, blocks: Blocks): (rows: seq<Row>)
    requires Shaped(cells, |cols|, n)
    ensures WellTyped(cols, rows) && |rows| == n
    ensures forall r :: 0 <= r < n ==> rows[r] == RowOf(cols, cells, blocks, r)
  {
    seq(n, r requires 0 <= r < n => RowOf(cols, cells, blocks, r))
  }

  // ---------------------------------------------------------------------
  // Ownership
  // ---------------------------------------------------------------------

  // The slots of string columns in the first n rows.
  ghost function StringSlots(cols: seq<ColumnMeta>, n: nat): set<Slot> {
    set c: nat, r: nat | c < |cols| && r < n && cols[c].ctype == String :: Slot(c, r)
  }

  predicate InGrid(cells: Grid, s: Slot) {
    s.c < |cells| && s.r < |cells[s.c]|
  }

  function At(cells: Grid, s: Slot): nat {
    if InGrid(cells, s) then cells[s.c][s.r] else 0
  }

  // No two of these slots point to the same block.
  ghost predicate Exclusive(cells: Grid, slots: set<Slot>) {
    && (forall s :: s in slots ==> InGrid(cells, s))
    && forall s, t :: s in slots && t in slots && At(cells, s) == At(cells, t) ==> s == t
  }

  ghost function Pointers(cells: Grid, slots: set<Slot>): set<nat> {
    set s | s in slots :: At(cells, s)
  }

  // The slots own their blocks: all live, none shared.
  ghost predicate Owned(cells: Grid, slots: set<Slot>, blocks: Blocks) {
    Exclusive(cells, slots) && Pointers(cells, slots) <= blocks.Keys
  }

  lemma OwnedWithout(cells: Grid, slots: set<Slot>, blocks: Blocks, gone: set<nat>)
    requires Owned(cells, slots, blocks) && Pointers(cells, slots) !! gone
    ensures Owned(cells, slots, blocks - gone)
  {
  }

  // Blocks a is exchanged for b, and nothing else happens: whoever owns none of
  // a keeps what it owns, and owns none of b.
  lemma OwnedElsewhere(cells: Grid, slots: set<Slot>, blocks: Blocks, other: Blocks, a: set<nat>, b: set<nat>)
    requires Owned(cells, slots, blocks) && Pointers(cells, slots) !! a
    requires other - b == blocks - a
    ensures Owned(cells, slots, other) && Pointers(cells, slots) !! b
    ensures forall p :: p in Pointers(cells, slots) ==> p in blocks && p in other && blocks[p] == other[p]
  {
    forall p | p in Pointers(cells, slots)
      ensures p in other && p !in b && other[p] == blocks[p]
    {
      assert p in blocks - a;
      assert p in other - b && (other - b)[p] == (blocks - a)[p];
    }
  }

  // ---------------------------------------------------------------------
  // Writing one slot
  // ---------------------------------------------------------------------

  function SetCell(cells: Grid, s: Slot, w: nat): (g: Grid)
    requires InGrid(cells, s)
    ensures |g| == |cells| && forall c :: 0 <= c < |g| ==> |g[c]| == |cells[c]|
    ensures forall t :: At(g, t) == if t == s then w else At(cells, t)
  {
    var column: seq<nat> := cells[s.c][s.r := w];
    cells[s.c := column]
  }

  // A string slot receives a fresh copy p of some text; if it owned a block
  // before, that block has been freed (and its address may be reused for p).
  lemma WriteString(cells: Grid, slots: set<Slot>, blocks: Blocks, s: Slot, p: nat, text: CString, rest: Blocks)
    requires Owned(cells, slots, blocks) && InGrid(cells, s)
    requires rest == (if s in slots then blocks - {At(cells, s)} else blocks)
    requires p !in rest
    ensures Owned(SetCell(cells, s, p), slots + {s}, rest[p := text])
    ensures rest[p := text] - Pointers(SetCell(cells, s, p), slots + {s}) == blocks - Pointers(cells, slots)
    ensures forall t :: t in slots && t != s ==> At(cells, t) in rest && At(cells, t) != p
  {
  }

  function Cell(cols: seq<ColumnMeta>, cells: Grid, blocks: Blocks, t: Slot): Value
    requires t.c < |cols|
  {
    ReadCell(cols[t.c].ctype, At(cells, t), blocks)
  }

  // A slot whose content means something: a number, or a string it owns.
  ghost predicate Readable(cols: seq<ColumnMeta>, cells: Grid, slots: set<Slot>, t: Slot) {
    t.c < |cols| && InGrid(cells, t) && (cols[t.c].ctype == String ==> t in slots)
  }

  // Writing a string changes what that slot reads as, and nothing else.
  lemma WriteStringReads(cols: seq<ColumnMeta>, cells: Grid, slots: set<Slot>, blocks: Blocks,
                         s: Slot, p: nat, text: CString, rest: Blocks)
    requires Owned(cells, slots, blocks) && InGrid(cells, s) && s.c < |cols| && cols[s.c].ctype == String
    requires rest == (if s in slots then blocks - {At(cells, s)} else blocks)
    requires p !in rest
    ensures var cells' := SetCell(cells, s, p);
            && Cell(cols, cells', rest[p := text], s) == Text(text)
            && forall t :: t != s && Readable(cols, cells, slots, t) ==>
                 Cell(cols, cells', rest[p := text], t) == Cell(cols, cells, blocks, t)
  {
  }

  lemma WriteNumber(cells: Grid, slots: set<Slot>, blocks: Blocks, s: Slot, w: nat)
    requires Owned(cells, slots, blocks) && InGrid(cells, s) && s !in slots
    ensures Owned(SetCell(cells, s, w), slots, blocks)
    ensures Pointers(SetCell(cells, s, w), slots) == Pointers(cells, slots)
  {
  }

  // ---------------------------------------------------------------------
  // Removing one row
  // ---------------------------------------------------------------------

  function RemoveRow(cells: Grid, i: nat): (g: Grid)
    requires forall c :: 0 <= c < |cells| ==> i < |cells[c]|
    ensures |g| == |cells| && forall c :: 0 <= c < |g| ==> g[c] == RemoveAt(cells[c], i)
  {
    seq(|cells|, c requires 0 <= c < |cells| => RemoveAt(cells[c], i))
  }

  // The strings of row i in the first k columns.
  ghost function RowStrings(cols: seq<ColumnMeta>, cells: Grid, k: nat, i: nat): set<nat>
    requires k <= |cols| == |cells| && forall c :: 0 <= c < |cells| ==> i < |cells[c]|
  {
    set c: nat | c < k && cols[c].ctype == String :: cells[c][i]
  }

  // The blocks left when these strings have been freed.
  ghost function BlocksWithout(blocks: Blocks, cols: seq<ColumnMeta>, cells: Grid, k: nat, i: nat): Blocks
    requires k <= |cols| == |cells| && forall c :: 0 <= c < |cells| ==> i < |cells[c]|
  {
    blocks - RowStrings(cols, cells, k, i)
  }

  lemma BlocksWithoutNone(blocks: Blocks, cols: seq<ColumnMeta>, cells: Grid, i: nat)
    requires |cols| == |cells| && forall c :: 0 <= c < |cells| ==> i < |cells[c]|
    ensures BlocksWithout(blocks, cols, cells, 0, i) == blocks
  {
  }

  lemma BlocksWithoutNext(blocks: Blocks, cols: seq<ColumnMeta>, cells: Grid, k: nat, i: nat)
    requires k < |cols| == |cells| && forall c :: 0 <= c < |cells| ==> i < |cells[c]|
    requires RowLive(cols, cells, i, blocks)
    ensures BlocksWithout(blocks, cols, cells, k + 1, i)
         == BlocksWithout(blocks, cols, cells, k, i) - (if cols[k].ctype == String then {cells[k][i]} else {})
    ensures cols[k].ctype == String ==> cells[k][i] in BlocksWithout(blocks, cols, cells, k, i)
  {
  }

  // They are live and can be freed one after the other.
  ghost predicate RowLive(cols: seq<ColumnMeta>, cells: Grid, i: nat, blocks: Blocks)
    requires |cols| == |cells| && forall c :: 0 <= c < |cells| ==> i < |cells[c]|
  {
    forall c :: 0 <= c < |cols| && cols[c].ctype == String ==>
      cells[c][i] in blocks && cells[c][i] !in RowStrings(cols, cells, c, i)
  }

  lemma OwnedRowLive(cols: seq<ColumnMeta>, cells: Grid, n: nat, i: nat, blocks: Blocks)
    requires Shaped(cells, |cols|, n) && i < n
    requires Owned(cells, StringSlots(cols, n), blocks)
    ensures RowLive(cols, cells, i, blocks)
    ensures RowStrings(cols, cells, |cols|, i) <= Pointers(cells, StringSlots(cols, n))
  {
    forall c: nat | c < |cols| && cols[c].ctype == String
      ensures cells[c][i] in Pointers(cells, StringSlots(cols, n))
      ensures cells[c][i] !in RowStrings(cols, cells, c, i)
    {
      var s := Slot(c, i);
      assert s in StringSlots(cols, n) && At(cells, s) == cells[c][i];
      forall d: nat | d < c && cols[d].ctype == String
        ensures cells[d][i] != cells[c][i]
      {
        var t := Slot(d, i);
        assert t in StringSlots(cols, n) && At(cells, t) == cells[d][i];
      }
    }
  }

  // Where a slot of the shortened table was before.
  function Before(s: Slot, i: nat): Slot {
    Slot(s.c, if s.r < i then s.r else s.r + 1)
  }

  lemma RemoveRowOwned(cols: seq<ColumnMeta>, cells: Grid, n: nat, i: nat, blocks: Blocks)
    requires Shaped(cells, |cols|, n) && i < n
    requires Owned(cells, StringSlots(cols, n), blocks)
    ensures var gone := RowStrings(cols, cells, |cols|, i);
            && Owned(RemoveRow(cells, i), StringSlots(cols, n - 1), blocks - gone)
            && Pointers(RemoveRow(cells, i), StringSlots(cols, n - 1)) == Pointers(cells, StringSlots(cols, n)) - gone
  {
    var cells' := RemoveRow(cells, i);
    var all, left := StringSlots(cols, n), StringSlots(cols, n - 1);
    var gone := RowStrings(cols, cells, |cols|, i);
    assert forall s :: s in left ==>
        InGrid(cells', s) && Before(s, i) in all && At(cells', s) == At(cells, Before(s, i));
    forall s, t | s in left && t in left && At(cells', s) == At(cells', t)
      ensures s == t
    {
      assert Before(s, i) == Before(t, i);
    }
    forall q
      ensures q in Pointers(cells', left) <==> q in Pointers(cells, all) && q !in gone
    {
      if q in Pointers(cells', left) {
        var s :| s in left && At(cells', s) == q;
        OtherRowKept(cols, cells, n, i, blocks, Before(s, i));
      }
      if q in Pointers(cells, all) && q !in gone {
        var t :| t in all && At(cells, t) == q;
        assert t.r == i ==> At(cells, t) in gone;
        var s := Slot(t.c, if t.r < i then t.r else t.r - 1);
        assert s in left && Before(s, i) == t;
      }
    }
  }

  lemma RemoveRowRows(cols: seq<ColumnMeta>, cells: Grid, n: nat, i: nat, blocks: Blocks)
    requires Shaped(cells, |cols|, n) && i < n
    requires Owned(cells, StringSlots(cols, n), blocks)
    ensures var gone := RowStrings(cols, cells, |cols|, i);
            RowsOf(cols, RemoveRow(cells, i), n - 1, blocks - gone) == RemoveAt(RowsOf(cols, cells, n, blocks), i)
  {
    var gone := RowStrings(cols, cells, |cols|, i);
    var rows, rows' := RowsOf(cols, cells, n, blocks), RowsOf(cols, RemoveRow(cells, i), n - 1, blocks - gone);
    forall r | 0 <= r < n - 1
      ensures rows'[r] == RemoveAt(rows, i)[r]
    {
      var r0 := if r < i then r else r + 1;
      forall c | 0 <= c < |cols|
        ensures rows'[r][c] == rows[r0][c]
      {
        assert RemoveRow(cells, i)[c][r] == cells[c][r0];
        if cols[c].ctype == String {
          OtherRowKept(cols, cells, n, i, blocks, Slot(c, r0));
        }
      }
    }
  }

  lemma OtherRowKept(cols: seq<ColumnMeta>, cells: Grid, n: nat, i: nat, blocks: Blocks, s: Slot)
    requires Shaped(cells, |cols|, n) && i < n && s in StringSlots(cols, n) && s.r != i
    requires Owned(cells, StringSlots(cols, n), blocks)
    ensures At(cells, s) in blocks && At(cells, s) !in RowStrings(cols, cells, |cols|, i)
  {
    assert At(cells, s) in Pointers(cells, StringSlots(cols, n));
    forall c: nat | c < |cols| && cols[c].ctype == String
      ensures cells[c][i] != At(cells, s)
    {
      var t := Slot(c, i);
      assert t in StringSlots(cols, n) && At(cells, t) == cells[c][i] && t != s;
    }
  }

  // The rows depend on the owned blocks only.
  lemma RowsAgree(cols: seq<ColumnMeta>, cells: Grid, n: nat, blocks: Blocks, other: Blocks)
    requires Shaped(cells, |cols|, n)
    requires forall p :: p in Pointers(cells, StringSlots(cols, n)) ==>
               p in blocks && p in other && blocks[p] == other[p]
    ensures RowsOf(cols, cells, n, blocks) == RowsOf(cols, cells, n, other)
  {
    forall r | 0 <= r < n
      ensures RowOf(cols, cells, blocks, r) == RowOf(cols, cells, other, r)
    {
      forall c | 0 <= c < |cols|
        ensures RowOf(cols, cells, blocks, r)[c] == RowOf(cols, cells, other, r)[c]
      {
        if cols[c].ctype == String {
          assert Slot(c, r) in StringSlots(cols, n);
          assert At(cells, Slot(c, r)) in Pointers(cells, StringSlots(cols, n));
        }
      }
    }
  }

  // ---------------------------------------------------------------------
  // Freeing column by column
  // ---------------------------------------------------------------------

  ghost function SlotsBefore(cols: seq<ColumnMeta>, k: nat, n: nat): set<Slot> {
    set c: nat, r: nat | c < |cols| && c < k && r < n && cols[c].ctype == String :: Slot(c, r)
  }

  lemma NoColumnsFreed(cols: seq<ColumnMeta>, cells: Grid, n: nat)
    ensures Pointers(cells, SlotsBefore(cols, 0, n)) == {}
  {
  }

  lemma FreeNextColumn(cols: seq<ColumnMeta>, cells: Grid, n: nat, k: nat, blocks: Blocks)
    requires Shaped(cells, |cols|, n) && k < |cols| && Owned(cells, StringSlots(cols, n), blocks)
    ensures var freed := Pointers(cells, SlotsBefore(cols, k, n));
            var column := if cols[k].ctype == String then cells[k] else [];
            && Pointers(cells, SlotsBefore(cols, k + 1, n)) == freed + (set p | p in column)
            && (forall r :: 0 <= r < |column| ==> column[r] in blocks && column[r] !in freed)
            && (forall r, q :: 0 <= r < q < |column| ==> column[r] != column[q])
  {
    var all, before := StringSlots(cols, n), SlotsBefore(cols, k, n);
    var column := if cols[k].ctype == String then cells[k] else [];
    assert before <= all;
    forall r: nat | r < |column|
      ensures Slot(k, r) in all && At(cells, Slot(k, r)) == column[r] && column[r] in blocks
      ensures column[r] !in Pointers(cells, before)
      ensures Slot(k, r) in SlotsBefore(cols, k + 1, n)
    {
      assert At(cells, Slot(k, r)) in Pointers(cells, all);
      assert forall t :: t in before ==> t in all && t != Slot(k, r);
    }
    forall r: nat, q: nat | r < q < |column|
      ensures column[r] != column[q]
    {
      assert Slot(k, r) != Slot(k, q);
    }
    forall p
      ensures p in Pointers(cells, SlotsBefore(cols, k + 1, n)) <==> p in Pointers(cells, before) || p in column
    {
      if p in Pointers(cells, SlotsBefore(cols, k + 1, n)) {
        var t :| t in SlotsBefore(cols, k + 1, n) && At(cells, t) == p;
        assert t in before || (t.c == k && p == column[t.r]);
      }
      if p in column {
        var r: nat :| r < |column| && column[r] == p;
        assert At(cells, Slot(k, r)) == p;
      }
    }
  }
}
