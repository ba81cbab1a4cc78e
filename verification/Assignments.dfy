// Writing literals into some columns of some rows: the row-level meaning of
// INSERT and UPDATE.
module Assignments {
  import opened CText
  import opened Values
  import opened RowLists
  import opened IntLists
  import opened Filters

  predicate DistinctNats(s: seq<nat>) {
    forall i, j :: 0 <= i < j < |s| ==> s[i] != s[j]
  }

  predicate Targets(targets: seq<nat>, k: nat) {
    DistinctNats(targets) && forall i :: 0 <= i < |targets| ==> targets[i] < k
  }

  // The columns whose name is in the list, in table order whatever the order of the list.
  function ListedColumns(cols: seq<ColumnMeta>, names: seq<CString>, first: nat): (targets: seq<nat>)
    requires first <= |cols|
    ensures forall i :: 0 <= i < |targets| ==> first <= targets[i] < |cols|
    ensures forall i, j :: 0 <= i < j < |targets| ==> targets[i] < targets[j]
    decreases |cols| - first
  {
    if first == |cols| then []
    else (if cols[first].name in names then [first] else []) + ListedColumns(cols, names, first + 1)
  }

  lemma {:induction false} ListedColumnsMeaning(cols: seq<ColumnMeta>, names: seq<CString>, first: nat)
    requires first <= |cols|
    ensures forall c :: first <= c < |cols| ==> (c in ListedColumns(cols, names, first) <==> cols[c].name in names)
    decreases |cols| - first
  {
    if first < |cols| {
      ListedColumnsMeaning(cols, names, first + 1);
    }
  }

  // ---------------------------------------------------------------------
  // Which value a SET writes into which column
  // ---------------------------------------------------------------------

  predicate DistinctColumns(cols: seq<ColumnMeta>) {
    forall c, d :: 0 <= c < d < |cols| ==> cols[c].name != cols[d].name
  }

  // The i-th value goes into the column with the i-th name of the SET.
  predicate PairedAsNamed(cols: seq<ColumnMeta>, names: seq<CString>) {
    var targets := ListedColumns(cols, names, 0);
    |targets| == |names| && forall i :: 0 <= i < |names| ==> cols[targets[i]].name == names[i]
  }

  // All names are columns of the table, in the order of the table.
  predicate NamedInTableOrder(cols: seq<ColumnMeta>, names: seq<CString>) {
    && (forall i :: 0 <= i < |names| ==> FindColumn(cols, names[i]) < |cols|)
    && (forall i, j :: 0 <= i < j < |names| ==> FindColumn(cols, names[i]) < FindColumn(cols, names[j]))
  }

  lemma FindColumnAt(cols: seq<ColumnMeta>, c: nat)
    requires DistinctColumns(cols) && c < |cols|
    ensures FindColumn(cols, cols[c].name) == c
  {
  }

  // The positions of the names, when they ascend.
  function Positions(cols: seq<ColumnMeta>, names: seq<CString>): (places: seq<int>)
    ensures |places| == |names| && forall i :: 0 <= i < |names| ==> places[i] == FindColumn(cols, names[i])
  {
    seq(|names|, i requires 0 <= i < |names| => FindColumn(cols, names[i]))
  }

  lemma InOrderIsPaired(cols: seq<ColumnMeta>, names: seq<CString>)
    requires DistinctColumns(cols) && NamedInTableOrder(cols, names)
    ensures PairedAsNamed(cols, names)
    ensures forall i :: 0 <= i < |names| ==> ListedColumns(cols, names, 0)[i] == FindColumn(cols, names[i])
  {
    var targets, places := ListedColumns(cols, names, 0), Positions(cols, names);
    ListedColumnsMeaning(cols, names, 0);
    forall c: int
      ensures c in targets <==> c in places
    {
      if c in targets {
        var i :| 0 <= i < |names| && names[i] == cols[c].name;
        FindColumnAt(cols, c);
        assert places[i] == c;
      }
      if c in places {
        var i :| 0 <= i < |places| && places[i] == c;
        assert cols[c].name == names[i] && names[i] in names;
      }
    }
    AscendingUnique(targets, places);
  }

  // UPDATE writes every value into the column it was given for exactly when the
  // SET names columns of the table and names them in table order.
  lemma PairedExactly(cols: seq<ColumnMeta>, names: seq<CString>)
    requires DistinctColumns(cols)
    ensures PairedAsNamed(cols, names) <==> NamedInTableOrder(cols, names)
  {
    if NamedInTableOrder(cols, names) {
      InOrderIsPaired(cols, names);
    }
    if PairedAsNamed(cols, names) {
      var targets := ListedColumns(cols, names, 0);
      forall i | 0 <= i < |names|
        ensures FindColumn(cols, names[i]) == targets[i]
      {
        FindColumnAt(cols, targets[i]);
      }
    }
  }

  function AllColumns(k: nat): (targets: seq<nat>)
    ensures |targets| == k && forall i :: 0 <= i < k ==> targets[i] == i
  {
    seq(k, i => i)
  }

  function MetasOf(cols: seq<ColumnMeta>, targets: seq<nat>): (metas: seq<ColumnMeta>)
    requires forall i :: 0 <= i < |targets| ==> targets[i] < |cols|
    ensures |metas| == |targets| && forall i :: 0 <= i < |targets| ==> metas[i] == cols[targets[i]]
  {
    seq(|targets|, i requires 0 <= i < |targets| => cols[targets[i]])
  }

  // There is a value for each of the columns, and it converts.
  predicate AllConvert(conv: IntConversion, metas: seq<ColumnMeta>, values: seq<CString>) {
    |metas| <= |values| && forall i :: 0 <= i < |metas| ==> Literal(conv, metas[i].ctype, values[i]).Some?
  }

  // Going through the columns, no value behind the last one is read: there are
  // enough of them, or one of those there are does not convert.
  predicate EnoughValues(conv: IntConversion, metas: seq<ColumnMeta>, values: seq<CString>) {
    |metas| <= |values| || exists i :: 0 <= i < |values| && Literal(conv, metas[i].ctype, values[i]).None?
  }

  function Literals(conv: IntConversion, metas: seq<ColumnMeta>, values: seq<CString>): (lits: seq<Value>)
    requires AllConvert(conv, metas, values)
    ensures |lits| == |metas|
    ensures forall i :: 0 <= i < |metas| ==> lits[i] == Literal(conv, metas[i].ctype, values[i]).value
  {
    seq(|metas|, i requires 0 <= i < |metas| => Literal(conv, metas[i].ctype, values[i]).value)
  }

  // The row after the first j assignments.
  function Assign(row: Row, targets: seq<nat>, lits: seq<Value>, j: nat): (r: Row)
    requires j <= |targets| == |lits| && forall i :: 0 <= i < |targets| ==> targets[i] < |row|
    ensures |r| == |row|
  {
    if j == 0 then row else Assign(row, targets, lits, j - 1)[targets[j - 1] := lits[j - 1]]
  }

  // Every target column gets its literal, every other column keeps its cell.
  lemma {:induction false} AssignMeaning(row: Row, targets: seq<nat>, lits: seq<Value>, j: nat)
    requires j <= |targets| == |lits| && Targets(targets, |row|)
    ensures forall i :: 0 <= i < j ==> Assign(row, targets, lits, j)[targets[i]] == lits[i]
    ensures forall c :: 0 <= c < |row| && c !in targets[..j] ==> Assign(row, targets, lits, j)[c] == row[c]
  {
    if j > 0 {
      AssignMeaning(row, targets, lits, j - 1);
      assert targets[..j] == targets[..j - 1] + [targets[j - 1]];
    }
  }

  lemma AssignTwice(row: Row, targets: seq<nat>, lits: seq<Value>)
    requires |targets| == |lits| && Targets(targets, |row|)
    ensures var once := Assign(row, targets, lits, |targets|);
            Assign(once, targets, lits, |targets|) == once
  {
    var n := |targets|;
    var once := Assign(row, targets, lits, n);
    AssignMeaning(row, targets, lits, n);
    AssignMeaning(once, targets, lits, n);
    var twice := Assign(once, targets, lits, n);
    forall c | 0 <= c < |row|
      ensures twice[c] == once[c]
    {
      if c in targets[..n] {
        var i :| 0 <= i < n && targets[i] == c;
      }
    }
  }

  // The columns of the row that the SET names hold the literals of their values,
  // the others are as before.
  predicate WrittenAsNamed(cols: seq<ColumnMeta>, conv: IntConversion, names: seq<CString>, values: seq<CString>,
                           before: Row, row: Row)
    requires |names| <= |values|
  {
    && |row| == |before| == |cols|
    && (forall i :: 0 <= i < |names| ==>
          var c := FindColumn(cols, names[i]);
          c < |cols| && Literal(conv, cols[c].ctype, values[i]) == Some(row[c]))
    && (forall c :: 0 <= c < |cols| && cols[c].name !in names ==> row[c] == before[c])
  }

  lemma NamedColumnGetsValue(cols: seq<ColumnMeta>, conv: IntConversion, names: seq<CString>,
                             values: seq<CString>, row: Row, lits: seq<Value>, i: nat)
    requires DistinctColumns(cols) && NamedInTableOrder(cols, names) && |row| == |cols| && i < |names| <= |values|
    requires |lits| == |ListedColumns(cols, names, 0)| == |names|
    requires forall k :: 0 <= k < |lits| ==>
               Literal(conv, cols[ListedColumns(cols, names, 0)[k]].ctype, values[k]) == Some(lits[k])
    ensures var targets, c := ListedColumns(cols, names, 0), FindColumn(cols, names[i]);
            Literal(conv, cols[c].ctype, values[i]) == Some(Assign(row, targets, lits, |targets|)[c])
  {
    InOrderIsPaired(cols, names);
    AssignMeaning(row, ListedColumns(cols, names, 0), lits, |lits|);
  }

  lemma OtherColumnKeeps(cols: seq<ColumnMeta>, names: seq<CString>, row: Row, lits: seq<Value>, c: nat)
    requires |row| == |cols| && |lits| == |ListedColumns(cols, names, 0)| && c < |cols| && cols[c].name !in names
    ensures var targets := ListedColumns(cols, names, 0); Assign(row, targets, lits, |targets|)[c] == row[c]
  {
    var targets := ListedColumns(cols, names, 0);
    ListedColumnsMeaning(cols, names, 0);
    AssignMeaning(row, targets, lits, |targets|);
    assert targets[..|targets|] == targets;
  }

  lemma AssignAsNamed(cols: seq<ColumnMeta>, conv: IntConversion, names: seq<CString>, values: seq<CString>, row: Row)
    requires DistinctColumns(cols) && NamedInTableOrder(cols, names) && |row| == |cols|
    requires AllConvert(conv, MetasOf(cols, ListedColumns(cols, names, 0)), values)
    ensures |names| <= |values|
    ensures var targets := ListedColumns(cols, names, 0);
            var lits := Literals(conv, MetasOf(cols, targets), values);
            WrittenAsNamed(cols, conv, names, values, row, Assign(row, targets, lits, |targets|))
  {
    var lits := Literals(conv, MetasOf(cols, ListedColumns(cols, names, 0)), values);
    InOrderIsPaired(cols, names);
    forall i | 0 <= i < |names| {
      NamedColumnGetsValue(cols, conv, names, values, row, lits, i);
    }
    forall c | 0 <= c < |cols| && cols[c].name !in names {
      OtherColumnKeeps(cols, names, row, lits, c);
    }
  }

  // Assigning to the listed rows, in the order of the list.
  function UpdateRows(rows: seq<Row>, list: seq<int>, k: nat, targets: seq<nat>, lits: seq<Value>): (r: seq<Row>)
    requires |targets| == |lits| && Targets(targets, k) && Below(list, |rows|)
    requires forall i :: 0 <= i < |rows| ==> |rows[i]| == k
    ensures |r| == |rows| && forall i :: 0 <= i < |r| ==> |r[i]| == k
    decreases |list|
  {
    if list == [] then rows
    else UpdateRows(rows[list[0] := Assign(rows[list[0]], targets, lits, |targets|)], list[1..], k, targets, lits)
  }

  // Exactly the listed rows change, each by one assignment, however often and
  // in whatever order they are listed.
  lemma {:induction false} UpdateRowsMeaning(rows: seq<Row>, list: seq<int>, k: nat, targets: seq<nat>,
                                             lits: seq<Value>)
    requires |targets| == |lits| && Targets(targets, k) && Below(list, |rows|)
    requires forall i :: 0 <= i < |rows| ==> |rows[i]| == k
    ensures forall r :: 0 <= r < |rows| ==>
              UpdateRows(rows, list, k, targets, lits)[r]
              == if r in list then Assign(rows[r], targets, lits, |targets|) else rows[r]
    decreases |list|
  {
    if list != [] {
      var rows' := rows[list[0] := Assign(rows[list[0]], targets, lits, |targets|)];
      UpdateRowsMeaning(rows', list[1..], k, targets, lits);
      AssignTwice(rows[list[0]], targets, lits);
      assert forall r :: r in list <==> r == list[0] || r in list[1..];
    }
  }

  // Any list with the same members updates the table in the same way.
  lemma UpdateOrderIrrelevant(rows: seq<Row>, list: seq<int>, other: seq<int>, k: nat, targets: seq<nat>,
                              lits: seq<Value>)
    requires |targets| == |lits| && Targets(targets, k) && Below(list, |rows|) && Below(other, |rows|)
    requires forall i :: 0 <= i < |rows| ==> |rows[i]| == k
    requires forall r :: r in list <==> r in other
    ensures UpdateRows(rows, list, k, targets, lits) == UpdateRows(rows, other, k, targets, lits)
  {
    UpdateRowsMeaning(rows, list, k, targets, lits);
    UpdateRowsMeaning(rows, other, k, targets, lits);
  }

  // ---------------------------------------------------------------------
  // UPDATE ... WHERE, as a whole
  // ---------------------------------------------------------------------

  lemma {:induction false} ChainStatus(cols: seq<ColumnMeta>, conv: IntConversion, rows: seq<Row>, other: seq<Row>,
                                       chain: seq<Filter>, rel: FilterRelation, acc: seq<int>, acc': seq<int>)
    requires WellTyped(cols, rows) && WellTyped(cols, other) && |rows| == |other|
    ensures ChainRows(cols, conv, rows, chain, rel, acc).Rows? == ChainRows(cols, conv, other, chain, rel, acc').Rows?
    decreases |chain|
  {
    if chain != [] {
      var f := chain[0];
      var at := Resolve(cols, conv, f);
      if at.Column? && (Supported(f.op) || rows == []) && rel != RelInvalid {
        var list := Combine(rel, acc, FindSeq(cols, rows, at.c, f.op, at.right, |rows|)).value;
        var list' := Combine(rel, acc', FindSeq(cols, other, at.c, f.op, at.right, |other|)).value;
        ChainStatus(cols, conv, rows, other, chain[1..], f.nextRelation, list, list');
      }
    }
  }

  lemma {:induction false} AssignKeepsTypes(cols: seq<ColumnMeta>, targets: seq<nat>, lits: seq<Value>, row: Row,
                                            j: nat)
    requires Targets(targets, |cols|) && j <= |targets| == |lits| && RowTyped(cols, row)
    requires forall i :: 0 <= i < |lits| ==> Typed(cols[targets[i]].ctype, lits[i])
    ensures RowTyped(cols, Assign(row, targets, lits, j))
  {
    if j > 0 {
      AssignKeepsTypes(cols, targets, lits, row, j - 1);
    }
  }

  lemma AssignTyped(cols: seq<ColumnMeta>, conv: IntConversion, targets: seq<nat>, values: seq<CString>, row: Row,
                    j: nat)
    requires Targets(targets, |cols|) && AllConvert(conv, MetasOf(cols, targets), values)
    requires RowTyped(cols, row) && j <= |targets|
    ensures RowTyped(cols, Assign(row, targets, Literals(conv, MetasOf(cols, targets), values), j))
  {
  }

  // Exactly the rows the chain is true of get the new values; and doing the
  // same UPDATE again finds nothing left to change.
  lemma FilteredUpdate(cols: seq<ColumnMeta>, conv: IntConversion, rows: seq<Row>, chain: seq<Filter>,
                       targets: seq<nat>, values: seq<CString>)
    requires WellTyped(cols, rows) && Targets(targets, |cols|)
    requires AllConvert(conv, MetasOf(cols, targets), values)
    requires ChainRows(cols, conv, rows, chain, RelNone, []).Rows?
    ensures var lits := Literals(conv, MetasOf(cols, targets), values);
            var list := ChainRows(cols, conv, rows, chain, RelNone, []).list;
            && Below(list, |rows|)
            && var once := UpdateRows(rows, list, |cols|, targets, lits);
            && (forall r :: 0 <= r < |rows| ==>
                  once[r] == if ChainTruth(cols, conv, chain, RelNone, false, rows[r])
                             then Assign(rows[r], targets, lits, |targets|) else rows[r])
            && WellTyped(cols, once)
            && var again := ChainRows(cols, conv, once, chain, RelNone, []);
            && again.Rows? && Below(again.list, |once|)
            && UpdateRows(once, again.list, |cols|, targets, lits) == once
  {
    var lits := Literals(conv, MetasOf(cols, targets), values);
    var list := ChainRows(cols, conv, rows, chain, RelNone, []).list;
    ChainMeaning(cols, conv, rows, chain, RelNone, []);
    var once := UpdateRows(rows, list, |cols|, targets, lits);
    UpdateRowsMeaning(rows, list, |cols|, targets, lits);
    forall r | 0 <= r < |once|
      ensures RowTyped(cols, once[r])
    {
      AssignTyped(cols, conv, targets, values, rows[r], |targets|);
    }
    ChainStatus(cols, conv, rows, once, chain, RelNone, [], []);
    ChainMeaning(cols, conv, once, chain, RelNone, []);
    var again := ChainRows(cols, conv, once, chain, RelNone, []).list;
    UpdateRowsMeaning(once, again, |cols|, targets, lits);
    forall r | 0 <= r < |once|
      ensures UpdateRows(once, again, |cols|, targets, lits)[r] == once[r]
    {
      AssignTwice(rows[r], targets, lits);
    }
  }
}
