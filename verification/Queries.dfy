// The database as a value and the queries as functions on it.
module Queries {
  import opened CText
  import opened Integers
  import opened Values
  import opened RowLists
  import opened Filters
  import opened Assignments

  datatype TableModel = TableModel(id: nat, name: CString, cols: seq<ColumnMeta>, rows: seq<Row>)

  datatype DbModel = DbModel(tables: seq<TableModel>, nextColumnId: nat)

  datatype Query =
    | Create(name: CString, columns: seq<CString>, types: seq<CString>)
    | Insert(name: CString, values: seq<CString>)
    | Delete(name: CString, filters: seq<Filter>)
    | Update(name: CString, filters: seq<Filter>, columns: seq<CString>, values: seq<CString>)

  datatype Response = Response(db: DbModel, result: BazaResult)

  function BaseTypeFromStr(t: CString): BaseType {
    if SameIgnoringCase(t, "int32") then Int32
    else if SameIgnoringCase(t, "int64") then Int64
    else if SameIgnoringCase(t, "string") then String
    else Invalid
  }

  // How the types are written in a CREATE.
  function TypeName(ctype: BaseType): CString
    requires ctype != Invalid
  {
    match ctype
    case String => "string"
    case Int32 => "int32"
    case Int64 => "int64"
  }

  lemma TypesExactly(t: CString, ctype: BaseType)
    ensures ctype != Invalid && SameIgnoringCase(t, TypeName(ctype)) <==>
            ctype == BaseTypeFromStr(t) && ctype != Invalid
  {
    if ctype != Invalid && SameIgnoringCase(t, TypeName(ctype)) {
      assert Lower(t[0]) == TypeName(ctype)[0] && (|t| == 5 ==> Lower(t[3]) == TypeName(ctype)[3]);
    }
  }

  predicate TypesValid(types: seq<CString>) {
    forall i :: 0 <= i < |types| ==> BaseTypeFromStr(types[i]) != Invalid
  }

  // The first table of that name, or |tables|.
  function FindTable(tables: seq<TableModel>, name: CString): (k: nat)
    ensures k <= |tables|
    ensures forall i :: 0 <= i < k ==> tables[i].name != name
    ensures k < |tables| ==> tables[k].name == name
  {
    if tables == [] || tables[0].name == name then 0 else 1 + FindTable(tables[1..], name)
  }

  ghost predicate DbTyped(db: DbModel) {
    forall i :: 0 <= i < |db.tables| ==> WellTyped(db.tables[i].cols, db.tables[i].rows)
  }

  function NewColumns(columns: seq<CString>, types: seq<CString>, firstId: nat): (cols: seq<ColumnMeta>)
    requires |columns| <= |types|
    ensures |cols| == |columns|
    ensures forall i :: 0 <= i < |cols| ==> cols[i] == ColumnMeta(firstId + i, columns[i], BaseTypeFromStr(types[i]))
  {
    seq(|columns|, i requires 0 <= i < |columns| => ColumnMeta(firstId + i, columns[i], BaseTypeFromStr(types[i])))
  }

  predicate DistinctNames(names: seq<CString>) {
    forall i, j :: 0 <= i < j < |names| ==> names[i] != names[j]
  }

  // What a query demands beyond the error results: otherwise the program reads
  // past the end of a list, calls a missing function or exits.
  predicate SafeOnTable(t: TableModel, conv: IntConversion, q: Query)
    requires WellTyped(t.cols, t.rows)
  {
    match q
    case Create(name, columns, types) => true
    case Insert(name, values) => t.cols != [] && EnoughValues(conv, t.cols, values)
    case Delete(name, filters) => ChainRows(t.cols, conv, t.rows, filters, RelNone, []) != Crash
    case Update(name, filters, columns, values) =>
      && columns != []
      && var targets := ListedColumns(t.cols, columns, 0);
      && var found := ChainRows(t.cols, conv, t.rows, filters, RelNone, []);
      && found != Crash
      && (found.Rows? ==> targets != [] && EnoughValues(conv, MetasOf(t.cols, targets), values))
  }

  predicate Safe(db: DbModel, conv: IntConversion, q: Query)
    requires DbTyped(db)
  {
    var k := FindTable(db.tables, q.name);
    && (q.Create? ==> TypesValid(q.types) ==> |q.columns| <= |q.types| && DistinctNames(q.columns))
    && (k < |db.tables| ==> SafeOnTable(db.tables[k], conv, q))
  }

  // ---------------------------------------------------------------------
  // The statements on one table
  // ---------------------------------------------------------------------

  datatype TableResponse = TableResponse(table: TableModel, result: BazaResult)

  function ApplyInsert(t: TableModel, conv: IntConversion, values: seq<CString>): TableResponse
    requires EnoughValues(conv, t.cols, values)
  {
    if AllConvert(conv, t.cols, values) then TableResponse(t.(rows := t.rows + [Literals(conv, t.cols, values)]), OK)
    else TableResponse(t, Err)
  }

  function ApplyDelete(t: TableModel, conv: IntConversion, filters: seq<Filter>): TableResponse
    requires WellTyped(t.cols, t.rows)
    requires ChainRows(t.cols, conv, t.rows, filters, RelNone, []) != Crash
  {
    if filters == [] then TableResponse(t.(rows := []), OK)
    else
      match ChainRows(t.cols, conv, t.rows, filters, RelNone, [])
      case Fail(res) => TableResponse(t, res)
      case Rows(list) =>
        var d := DeleteLoop(t.rows, list, 0);
        TableResponse(t.(rows := d.rows), if d.ok then OK else IndexOutOfBounds)
  }

  // The rows an UPDATE goes through; without a filter all of them, in order.
  function UpdatedRows(t: TableModel, conv: IntConversion, filters: seq<Filter>): (list: seq<int>)
    requires WellTyped(t.cols, t.rows)
    requires ChainRows(t.cols, conv, t.rows, filters, RelNone, []).Rows?
    ensures Below(list, |t.rows|)
  {
    ChainMeaning(t.cols, conv, t.rows, filters, RelNone, []);
    KeptNumbers({}, 0, |t.rows|);
    if filters == [] then Kept({}, 0, |t.rows|) else ChainRows(t.cols, conv, t.rows, filters, RelNone, []).list
  }

  function ApplyUpdate(t: TableModel, conv: IntConversion, filters: seq<Filter>,
                       columns: seq<CString>, values: seq<CString>): TableResponse
    requires WellTyped(t.cols, t.rows)
    requires var found := ChainRows(t.cols, conv, t.rows, filters, RelNone, []);
             && found != Crash
             && (found.Rows? ==> EnoughValues(conv, MetasOf(t.cols, ListedColumns(t.cols, columns, 0)), values))
  {
    var targets := ListedColumns(t.cols, columns, 0);
    match ChainRows(t.cols, conv, t.rows, filters, RelNone, [])
    case Fail(res) => TableResponse(t, res)
    case Rows(_) =>
      if !AllConvert(conv, MetasOf(t.cols, targets), values) then TableResponse(t, ValueType)
      else
        var lits := Literals(conv, MetasOf(t.cols, targets), values);
        TableResponse(t.(rows := UpdateRows(t.rows, UpdatedRows(t, conv, filters), |t.cols|, targets, lits)), OK)
  }

  // ---------------------------------------------------------------------
  // The queries on the database
  // ---------------------------------------------------------------------

  // The table is added before the types are looked at.
  function ApplyCreate(db: DbModel, name: CString, columns: seq<CString>, types: seq<CString>): (r: Response)
    requires TypesValid(types) ==> |columns| <= |types|
  {
    if !TypesValid(types) then
      Response(db.(tables := db.tables + [TableModel(|db.tables|, name, [], [])]), InvalidQuery)
    else
      var cols := NewColumns(columns, types, db.nextColumnId);
      Response(DbModel(db.tables + [TableModel(|db.tables|, name, cols, [])], db.nextColumnId + |columns|), OK)
  }

  function ApplyToTable(t: TableModel, conv: IntConversion, q: Query): TableResponse
    requires WellTyped(t.cols, t.rows) && SafeOnTable(t, conv, q) && !q.Create?
  {
    match q
    case Insert(name, values) => ApplyInsert(t, conv, values)
    case Delete(name, filters) => ApplyDelete(t, conv, filters)
    case Update(name, filters, columns, values) => ApplyUpdate(t, conv, filters, columns, values)
  }

  function Apply(db: DbModel, conv: IntConversion, q: Query): (r: Response)
    requires DbTyped(db) && Safe(db, conv, q)
  {
    var k := FindTable(db.tables, q.name);
    if q.Create? then ApplyCreate(db, q.name, q.columns, q.types)
    else if k == |db.tables| then Response(db, TableNotFound)
    else
      var r := ApplyToTable(db.tables[k], conv, q);
      Response(db.(tables := db.tables[k := r.table]), r.result)
  }

  lemma ApplyAt(db: DbModel, conv: IntConversion, q: Query)
    requires DbTyped(db) && Safe(db, conv, q) && !q.Create?
    ensures var k := FindTable(db.tables, q.name);
            if k == |db.tables| then Apply(db, conv, q) == Response(db, TableNotFound)
            else
              && SafeOnTable(db.tables[k], conv, q)
              && var r := ApplyToTable(db.tables[k], conv, q);
              Apply(db, conv, q) == Response(db.(tables := db.tables[k := r.table]), r.result)
  {
  }

  // ---------------------------------------------------------------------
  // Runs
  // ---------------------------------------------------------------------

  lemma ApplyToTableTyped(t: TableModel, conv: IntConversion, q: Query)
    requires WellTyped(t.cols, t.rows) && SafeOnTable(t, conv, q) && !q.Create?
    ensures var t' := ApplyToTable(t, conv, q).table; t' == t.(rows := t'.rows) && WellTyped(t'.cols, t'.rows)
  {
    match q
    case Insert(name, values) =>
      assert AllConvert(conv, t.cols, values) ==> RowTyped(t.cols, Literals(conv, t.cols, values));
    case Delete(name, filters) =>
      if filters != [] && ChainRows(t.cols, conv, t.rows, filters, RelNone, []).Rows? {
        DeleteLoopTyped(t.cols, t.rows, ChainRows(t.cols, conv, t.rows, filters, RelNone, []).list, 0);
      }
    case Update(name, filters, columns, values) =>
      var targets := ListedColumns(t.cols, columns, 0);
      var found := ChainRows(t.cols, conv, t.rows, filters, RelNone, []);
      if found.Rows? && AllConvert(conv, MetasOf(t.cols, targets), values) {
        UpdateRowsTyped(t.cols, conv, t.rows, UpdatedRows(t, conv, filters), targets, values);
      }
  }

  lemma ApplyTyped(db: DbModel, conv: IntConversion, q: Query)
    requires DbTyped(db) && Safe(db, conv, q)
    ensures DbTyped(Apply(db, conv, q).db)
  {
    var k := FindTable(db.tables, q.name);
    if !q.Create? && k < |db.tables| {
      ApplyToTableTyped(db.tables[k], conv, q);
    }
  }

  lemma {:induction false} DeleteLoopTyped(cols: seq<ColumnMeta>, rows: seq<Row>, list: seq<int>, done: nat)
    requires WellTyped(cols, rows)
    ensures WellTyped(cols, DeleteLoop(rows, list, done).rows)
    decreases |list|
  {
    if list != [] && WrapSub(list[0], done) < |rows| {
      DeleteLoopTyped(cols, RemoveAt(rows, WrapSub(list[0], done)), list[1..], done + 1);
    }
  }

  lemma UpdateRowsTyped(cols: seq<ColumnMeta>, conv: IntConversion, rows: seq<Row>, list: seq<int>,
                        targets: seq<nat>, values: seq<CString>)
    requires WellTyped(cols, rows) && Below(list, |rows|) && Targets(targets, |cols|)
    requires AllConvert(conv, MetasOf(cols, targets), values)
    ensures WellTyped(cols, UpdateRows(rows, list, |cols|, targets, Literals(conv, MetasOf(cols, targets), values)))
  {
    var lits := Literals(conv, MetasOf(cols, targets), values);
    UpdateRowsMeaning(rows, list, |cols|, targets, lits);
    forall r | 0 <= r < |rows|
      ensures RowTyped(cols, UpdateRows(rows, list, |cols|, targets, lits)[r])
    {
      AssignTyped(cols, conv, targets, values, rows[r], |targets|);
    }
  }

  predicate SafeRun(db: DbModel, conv: IntConversion, qs: seq<Query>)
    requires DbTyped(db)
    decreases |qs|
  {
    || qs == []
    || (Safe(db, conv, qs[0]) &&
        (ApplyTyped(db, conv, qs[0]); SafeRun(Apply(db, conv, qs[0]).db, conv, qs[1..])))
  }

  function Run(db: DbModel, conv: IntConversion, qs: seq<Query>): DbModel
    requires DbTyped(db) && SafeRun(db, conv, qs)
    decreases |qs|
  {
    if qs == [] then db
    else
      ApplyTyped(db, conv, qs[0]);
      Run(Apply(db, conv, qs[0]).db, conv, qs[1..])
  }

  // A run is its queries one after the other.
  lemma {:induction false} RunOneMore(db: DbModel, conv: IntConversion, qs: seq<Query>, q: Query)
    requires DbTyped(db) && SafeRun(db, conv, qs)
    ensures DbTyped(Run(db, conv, qs))
    ensures SafeRun(db, conv, qs + [q]) <==> Safe(Run(db, conv, qs), conv, q)
    ensures SafeRun(db, conv, qs + [q]) ==> Run(db, conv, qs + [q]) == Apply(Run(db, conv, qs), conv, q).db
    decreases |qs|
  {
    if qs == [] {
      assert [] + [q] == [q];
      if Safe(db, conv, q) {
        ApplyTyped(db, conv, q);
      }
    } else {
      assert (qs + [q])[1..] == qs[1..] + [q];
      ApplyTyped(db, conv, qs[0]);
      RunOneMore(Apply(db, conv, qs[0]).db, conv, qs[1..], q);
    }
  }

  // The query inserts a row into table k.
  predicate InsertsOne(db: DbModel, conv: IntConversion, q: Query, k: nat)
    requires DbTyped(db) && Safe(db, conv, q)
  {
    q.Insert? && k < |db.tables| && FindTable(db.tables, q.name) == k && Apply(db, conv, q).result == OK
  }

  // How many rows a run inserts into table k.
  function InsertsInto(db: DbModel, conv: IntConversion, qs: seq<Query>, k: nat): nat
    requires DbTyped(db) && SafeRun(db, conv, qs)
    decreases |qs|
  {
    if qs == [] then 0
    else
      ApplyTyped(db, conv, qs[0]);
      (if InsertsOne(db, conv, qs[0], k) then 1 else 0) + InsertsInto(Apply(db, conv, qs[0]).db, conv, qs[1..], k)
  }

  // ---------------------------------------------------------------------
  // What errors leave behind
  // ---------------------------------------------------------------------

  lemma UpdatedRowsMeaning(t: TableModel, conv: IntConversion, filters: seq<Filter>)
    requires WellTyped(t.cols, t.rows) && ChainRows(t.cols, conv, t.rows, filters, RelNone, []).Rows?
    ensures forall i :: 0 <= i < |t.rows| ==>
              (i in UpdatedRows(t, conv, filters)
               <==> filters == [] || ChainTruth(t.cols, conv, filters, RelNone, false, t.rows[i]))
  {
    ChainMeaning(t.cols, conv, t.rows, filters, RelNone, []);
    KeptNumbers({}, 0, |t.rows|);
  }

  // An UPDATE that fails has changed nothing; one that succeeds has written, in
  // exactly the rows its filters are true of, the first values into the columns that
  // the SET names, one by one in the order of the table.
  lemma UpdateIsAllOrNothing(t: TableModel, conv: IntConversion, filters: seq<Filter>,
                             columns: seq<CString>, values: seq<CString>)
    requires WellTyped(t.cols, t.rows) && EnoughValues(conv, MetasOf(t.cols, ListedColumns(t.cols, columns, 0)), values)
    requires ChainRows(t.cols, conv, t.rows, filters, RelNone, []) != Crash
    ensures var r, targets := ApplyUpdate(t, conv, filters, columns, values), ListedColumns(t.cols, columns, 0);
            if r.result != OK then r.table == t
            else
              && AllConvert(conv, MetasOf(t.cols, targets), values)
              && r.table == t.(rows := r.table.rows) && |r.table.rows| == |t.rows|
              && var lits := Literals(conv, MetasOf(t.cols, targets), values);
              forall i :: 0 <= i < |t.rows| ==>
                r.table.rows[i] == if filters == [] || ChainTruth(t.cols, conv, filters, RelNone, false, t.rows[i])
                                   then Assign(t.rows[i], targets, lits, |targets|) else t.rows[i]
  {
    var targets := ListedColumns(t.cols, columns, 0);
    var found := ChainRows(t.cols, conv, t.rows, filters, RelNone, []);
    if found.Rows? && AllConvert(conv, MetasOf(t.cols, targets), values) {
      var list, lits := UpdatedRows(t, conv, filters), Literals(conv, MetasOf(t.cols, targets), values);
      var rows' := UpdateRows(t.rows, list, |t.cols|, targets, lits);
      assert ApplyUpdate(t, conv, filters, columns, values) == TableResponse(t.(rows := rows'), OK);
      UpdateRowsMeaning(t.rows, list, |t.cols|, targets, lits);
      UpdatedRowsMeaning(t, conv, filters);
    } else {
      ErrorsAreErrors(t.cols, conv, t.rows, filters, RelNone, []);
    }
  }

  lemma {:induction false} ErrorsAreErrors(cols: seq<ColumnMeta>, conv: IntConversion, rows: seq<Row>,
                                           chain: seq<Filter>, rel: FilterRelation, acc: seq<int>)
    requires WellTyped(cols, rows)
    ensures ChainRows(cols, conv, rows, chain, rel, acc) != Fail(OK)
    decreases |chain|
  {
    if chain != [] {
      var at := Resolve(cols, conv, chain[0]);
      if at.Column? && (Supported(chain[0].op) || rows == []) && rel != RelInvalid {
        var list := Combine(rel, acc, FindSeq(cols, rows, at.c, chain[0].op, at.right, |rows|)).value;
        ErrorsAreErrors(cols, conv, rows, chain[1..], chain[0].nextRelation, list);
      }
    }
  }

  // No INSERT or UPDATE that returns an error has changed anything anywhere, and
  // none that succeeds has touched another table.
  lemma WritesAreAllOrNothing(db: DbModel, conv: IntConversion, q: Query)
    requires DbTyped(db) && Safe(db, conv, q) && (q.Insert? || q.Update?)
    ensures var r, k := Apply(db, conv, q), FindTable(db.tables, q.name);
            if r.result != OK then r.db == db
            else k < |db.tables| && r.db == db.(tables := db.tables[k := r.db.tables[k]])
  {
  }

  // CREATE is not all-or-nothing: whatever its result it adds a table, and it
  // fails exactly when some type is unknown, leaving that table without columns.
  lemma CreateAlwaysAddsATable(db: DbModel, conv: IntConversion, q: Query)
    requires DbTyped(db) && Safe(db, conv, q) && q.Create?
    ensures var r := Apply(db, conv, q);
            && |r.db.tables| == |db.tables| + 1 && r.db.tables[..|db.tables|] == db.tables
            && (r.result == OK <==> TypesValid(q.types))
            && (r.result != OK ==> r.db.tables[|db.tables|].cols == [])
  {
  }

  lemma {:induction false} FindTableAppend(tables: seq<TableModel>, t: TableModel, name: CString)
    ensures FindTable(tables + [t], name)
         == if FindTable(tables, name) < |tables| then FindTable(tables, name)
            else if t.name == name then |tables| else |tables| + 1
  {
    if tables != [] && tables[0].name != name {
      assert (tables + [t])[1..] == tables[1..] + [t];
      FindTableAppend(tables[1..], t, name);
    }
  }

  // Names stay bound: no query ever changes which table a known name denotes, so
  // a second table of the same name, or one whose CREATE is repeated after a
  // failure, is out of reach for good.
  lemma NamesStayBound(db: DbModel, conv: IntConversion, q: Query, name: CString)
    requires DbTyped(db) && Safe(db, conv, q)
    requires FindTable(db.tables, name) < |db.tables|
    ensures var k := FindTable(db.tables, name);
            var db' := Apply(db, conv, q).db;
            && k < |db'.tables| && FindTable(db'.tables, name) == k
            && db'.tables[k].id == db.tables[k].id && db'.tables[k].cols == db.tables[k].cols
  {
    var db' := Apply(db, conv, q).db;
    if q.Create? {
      FindTableAppend(db.tables, db'.tables[|db.tables|], name);
    } else {
      OnlyRowsChange(db, conv, q);
      SameNames(db.tables, db'.tables, name);
    }
  }

  lemma OnlyRowsChange(db: DbModel, conv: IntConversion, q: Query)
    requires DbTyped(db) && Safe(db, conv, q) && !q.Create?
    ensures var db' := Apply(db, conv, q).db;
            && |db'.tables| == |db.tables| && db'.nextColumnId == db.nextColumnId
            && forall i :: 0 <= i < |db.tables| ==> db'.tables[i] == db.tables[i].(rows := db'.tables[i].rows)
  {
  }

  lemma SameNames(tables: seq<TableModel>, other: seq<TableModel>, name: CString)
    requires |tables| == |other| && forall i :: 0 <= i < |tables| ==> tables[i].name == other[i].name
    ensures FindTable(tables, name) == FindTable(other, name)
  {
  }

  // ... and over whole runs.
  lemma {:induction false} NamesStayBoundForever(db: DbModel, conv: IntConversion, qs: seq<Query>, name: CString)
    requires DbTyped(db) && SafeRun(db, conv, qs)
    requires FindTable(db.tables, name) < |db.tables|
    ensures var k := FindTable(db.tables, name);
            var db' := Run(db, conv, qs);
            && k < |db'.tables| && FindTable(db'.tables, name) == k
            && db'.tables[k].id == db.tables[k].id && db'.tables[k].cols == db.tables[k].cols
    decreases |qs|
  {
    if qs != [] {
      ApplyTyped(db, conv, qs[0]);
      NamesStayBound(db, conv, qs[0], name);
      NamesStayBoundForever(Apply(db, conv, qs[0]).db, conv, qs[1..], name);
    }
  }
}
