// The database: tables found by name and by id, one heap of strings for all of
// them, and the queries proved to act as the functions of module Queries.
module Database {
  import opened CText
  import opened Values
  import opened Filters
  import opened Cells
  import opened Storage
  import opened RowLoops
  import opened Queries
  import opened Statements

  class DataBase {
    const conv: IntConversion
    const mem: Memory
    var tables: seq<Table>
    var nextTableId: nat
    var nextColumnId: nat
    ghost var Repr: set<object>

    // The tables share no memory: neither their own, nor the strings they point to.
    ghost predicate Apart()
      reads this, Repr
    {
      && this !in Repr && mem !in Repr
      && (forall i :: 0 <= i < |tables| ==> tables[i] in Repr && tables[i].Repr <= Repr)
      && (forall i, j :: 0 <= i < j < |tables| ==>
            tables[i].Repr !! tables[j].Repr && tables[i].strings !! tables[j].strings)
    }

    // Every live string belongs to some table.
    ghost predicate NothingLeaked()
      reads this, mem, tables
    {
      HeldFrom(0)
    }

    // ... to one of those from the k-th on.
    ghost predicate HeldFrom(k: nat)
      reads this, mem, tables
    {
      forall p :: p in mem.blocks ==> exists i :: k <= i < |tables| && p in tables[i].strings
    }

    // Ids are handed out once, in order.
    ghost predicate Numbered()
      reads this, tables
    {
      && nextTableId == |tables|
      && (forall i :: 0 <= i < |tables| ==> tables[i].id == i)
      && (forall i :: 0 <= i < |tables| ==>
            forall c :: 0 <= c < |tables[i].metas| ==> tables[i].metas[c].id < nextColumnId)
    }

    ghost predicate Valid()
      reads this, mem, tables, Repr
    {
      && Apart() && NothingLeaked() && Numbered()
      && forall i :: 0 <= i < |tables| ==> tables[i].Valid() && tables[i].Owns(mem)
    }

    ghost function Model(): (db: DbModel)
      requires Valid()
      reads this, mem, tables, Repr
      ensures DbTyped(db) && |db.tables| == |tables| && db.nextColumnId == nextColumnId
      ensures forall i :: 0 <= i < |tables| ==> db.tables[i] == ModelOf(tables[i], mem)
    {
      DbModel(seq(|tables|, i requires 0 <= i < |tables| && tables[i] in Repr
                              requires tables[i].Repr <= Repr && tables[i].Valid()
                              reads this, mem, tables, Repr
                            => ModelOf(tables[i], mem)), nextColumnId)
    }

    // How many rows have ever been inserted into table k.
    ghost function InsertsOf(k: nat): nat
      reads this, tables
    {
      if k < |tables| then tables[k].inserts else 0
    }

    constructor (conv: IntConversion)
      ensures Valid() && Model() == DbModel([], 0) && this.conv == conv
      ensures mem.blocks == map[]
      ensures forall k: nat :: InsertsOf(k) == 0
    {
      this.conv := conv;
      mem := new Memory();
      tables, nextTableId, nextColumnId, Repr := [], 0, 0, {};
    }

    // idb_table_get: the first table of that name.
    method TableGet(name: CString) returns (table: Table?)
      requires Valid()
      ensures var k := FindTable(Model().tables, name); table == if k < |tables| then tables[k] else null
    {
      ghost var models := Model().tables;
      var i := 0;
      while i < |tables|
        invariant 0 <= i <= |tables|
        invariant FindTable(models, name) == i + FindTable(models[i..], name)
      {
        if tables[i].name == name {
          return tables[i];
        }
        i := i + 1;
      }
      return null;
    }

    // idb_table_get_byid: whatever has an id is found by it.
    method TableGetById(tid: nat) returns (table: Table?)
      requires Valid()
      ensures table == if tid < |tables| then tables[tid] else null
    {
      var i := 0;
      while i < |tables|
        invariant 0 <= i <= |tables| && (tid < |tables| ==> i <= tid)
      {
        if tables[i].id == tid {
          return tables[i];
        }
        i := i + 1;
      }
      return null;
    }

    // The effect of a statement on table k, before the database is put together again.
    twostate predicate StatementOn(k: nat)
      reads this, mem, tables, Repr
    {
      && old(Valid()) && k < |tables| && tables == old(tables)
      && nextTableId == old(nextTableId) && nextColumnId == old(nextColumnId)
      && tables[k] in Repr && tables[k].Repr <= Repr && Repr == old(Repr) + tables[k].Repr
      && Stepped(tables[k], mem) && tables[k].metas == old(tables[k].metas)
      && forall i :: 0 <= i < |tables| && i != k ==> unchanged(old(tables[i].Repr))
    }

    // Table i is as it was.
    twostate predicate Kept(i: nat, k: nat)
      requires i < |tables| && k < |tables| && old(Valid()) && tables == old(tables)
      requires tables[i] in Repr && tables[i].Repr <= Repr
      reads this, mem, tables, Repr
    {
      && tables[i].Valid() && tables[i].Owns(mem)
      && tables[i].Repr == old(tables[i].Repr) && tables[i].metas == old(tables[i].metas)
      && tables[i].strings == old(tables[i].strings) && tables[i].strings !! tables[k].strings
      && ModelOf(tables[i], mem) == old(ModelOf(tables[i], mem))
    }

    // A statement on table k, with everything known about the others.
    twostate predicate OthersKept(k: nat)
      reads this, mem, tables, Repr
    {
      && StatementOn(k)
      && forall i :: 0 <= i < |tables| && i != k ==> tables[i] in Repr && tables[i].Repr <= Repr && Kept(i, k)
    }

    twostate lemma OthersAreKept(k: nat)
      requires StatementOn(k)
      ensures OthersKept(k)
    {
      forall i | 0 <= i < |tables| && i != k
        ensures tables[i] in Repr && tables[i].Repr <= Repr && (Kept(i, k) == true)
      {
        var t := tables[i];
        assert unchanged(old(t.Repr)) && t in old(t.Repr);
        assert t.Valid() == old(t.Valid());
        OwnedElsewhere(t.cells, t.Slots(), old(mem.blocks), mem.blocks, old(tables[k].strings), tables[k].strings);
        RowsAgree(t.metas, t.cells, t.rowCount, old(mem.blocks), mem.blocks);
      }
    }

    twostate lemma StillApart(k: nat)
      requires OthersKept(k)
      ensures Apart()
    {
      forall i, j | 0 <= i < j < |tables|
        ensures tables[i].Repr !! tables[j].Repr && tables[i].strings !! tables[j].strings
      {
        assert old(tables[i].Repr !! tables[j].Repr && tables[i].strings !! tables[j].strings);
        assert i != k ==> Kept(i, k);
        assert j != k ==> Kept(j, k);
      }
    }

    twostate lemma StillNothingLeaked(k: nat)
      requires OthersKept(k)
      ensures NothingLeaked()
    {
      forall p | p in mem.blocks
        ensures exists i :: 0 <= i < |tables| && p in tables[i].strings
      {
        if p !in tables[k].strings {
          StillThere(mem.blocks, tables[k].strings, old(mem.blocks), old(tables[k].strings), p);
          var i :| 0 <= i < |tables| && p in old(tables[i].strings);
          assert Kept(i, k);
          assert p in tables[i].strings;
        }
      }
    }

    twostate lemma StillValid(k: nat)
      requires OthersKept(k)
      ensures Numbered()
      ensures forall i :: 0 <= i < |tables| ==> tables[i].Valid() && tables[i].Owns(mem)
      ensures forall i :: 0 <= i < |tables| && i != k ==> ModelOf(tables[i], mem) == old(ModelOf(tables[i], mem))
    {
      forall i | 0 <= i < |tables| && i != k
        ensures tables[i].Valid() && tables[i].Owns(mem) && tables[i].metas == old(tables[i].metas)
        ensures ModelOf(tables[i], mem) == old(ModelOf(tables[i], mem))
      {
        assert Kept(i, k);
      }
    }

    // With the other tables as they were, the database is in order again.
    twostate lemma Restored(k: nat)
      requires StatementOn(k)
      ensures Valid() && Model() == old(Model()).(tables := old(Model()).tables[k := ModelOf(tables[k], mem)])
    {
      OthersAreKept(k);
      StillApart(k);
      StillNothingLeaked(k);
      StillValid(k);
      assert Valid() == true;  // kept folded
    }

    method Execute(q: Query) returns (res: BazaResult)
      requires Valid() && !q.Create? && Safe(Model(), conv, q)
      modifies this`Repr, Repr, mem
      ensures Valid() && fresh(Repr - old(Repr))
      ensures Response(Model(), res) == Apply(old(Model()), conv, q)
      ensures forall k: nat :: InsertsOf(k) == old(InsertsOf(k)) + if InsertsOne(old(Model()), conv, q, k) then 1 else 0
    {
      ghost var db := Model();
      ApplyAt(db, conv, q);
      var table := Lookup(q.name);
      if table == null {
        return TableNotFound;
      }
      res := ExecuteAt(table, q, FindTable(db.tables, q.name));
    }

    // Every statement finds its table by name and from then on by its id.
    method Lookup(name: CString) returns (table: Table?)
      requires Valid()
      ensures var k := FindTable(Model().tables, name);
              if k == |tables| then table == null
              else table == tables[k] && ModelOf(tables[k], mem) == Model().tables[k]
    {
      var named := TableGet(name);
      if named == null {
        return null;
      }
      table := TableGetById(named.id);
      ghost var k := FindTable(Model().tables, name);
      assert named == tables[k] && tables[k].id == k;
      assert Model().tables[k] == ModelOf(tables[k], mem);
    }

    method ExecuteAt(table: Table, q: Query, ghost k: nat) returns (res: BazaResult)
      requires Valid() && k < |tables| && tables[k] == table
      requires !q.Create? && SafeOnTable(ModelOf(table, mem), conv, q)
      modifies this`Repr, Repr, mem
      ensures Valid() && fresh(Repr - old(Repr)) && tables[k] == table
      ensures Model() == old(Model()).(tables := old(Model()).tables[k := ModelOf(table, mem)])
      ensures TableResponse(ModelOf(table, mem), res) == ApplyToTable(old(ModelOf(table, mem)), conv, q)
      ensures forall i: nat :: InsertsOf(i) == old(InsertsOf(i)) + if i == k && q.Insert? && res == OK then 1 else 0
    {
      assert forall i :: 0 <= i < |tables| && i != k ==> tables[i].Repr !! table.Repr;
      res := ExecuteOn(table, q);
      assert forall i :: 0 <= i < |tables| && i != k ==> unchanged(old(tables[i].Repr));
      Repr := Repr + table.Repr;
      assert Stepped(table, mem) == true;
      assert StatementOn(k) == true;
      Restored(k);
    }

    method ExecuteOn(table: Table, q: Query) returns (res: BazaResult)
      requires table.Valid() && table.Owns(mem) && mem !in table.Repr
      requires !q.Create? && SafeOnTable(ModelOf(table, mem), conv, q)
      modifies table, table.Repr, mem
      ensures Stepped(table, mem)
      ensures TableResponse(ModelOf(table, mem), res) == ApplyToTable(old(ModelOf(table, mem)), conv, q)
      ensures table.inserts == old(table.inserts) + if q.Insert? && res == OK then 1 else 0
    {
      match q {
        case Insert(_, values) =>
          res := InterpretInsert(table, values, mem, conv);
        case Delete(_, filters) =>
          res := InterpretDelete(table, filters, mem, conv);
        case Update(_, filters, columns, values) =>
          res := InterpretUpdate(table, filters, columns, values, mem, conv);
      }
    }

    // A new, empty table has been linked behind the last one.
    twostate predicate Linked(table: Table)
      reads this, mem, tables, Repr
    {
      && old(Valid()) && tables == old(tables) + [table]
      && table in Repr && table.Repr <= Repr && Repr == old(Repr) + table.Repr
      && table.Repr !! old(Repr) && this !in table.Repr && mem !in table.Repr
      && table.Valid() && table.rowCount == 0 && table.strings == {} && table.id == old(nextTableId)
      && nextTableId == old(nextTableId) + 1 && nextColumnId >= old(nextColumnId)
      && (forall c :: 0 <= c < |table.metas| ==> table.metas[c].id < nextColumnId)
      && unchanged(old(Repr)) && unchanged(mem)
    }

    twostate lemma LinkedApart(table: Table)
      requires Linked(table)
      ensures Apart()
    {
      forall i | 0 <= i < |tables| - 1
        ensures tables[i].Repr == old(tables[i].Repr) && tables[i].strings == old(tables[i].strings)
      {
        assert tables[i] == old(tables)[i];
      }
    }

    twostate lemma LinkedNothingLeaked(table: Table)
      requires Linked(table)
      ensures NothingLeaked()
    {
      forall p | p in mem.blocks
        ensures exists i :: 0 <= i < |tables| && p in tables[i].strings
      {
        var i :| 0 <= i < |old(tables)| && p in old(tables[i].strings);
        assert tables[i] == old(tables)[i];
        assert tables[i].strings == old(tables[i].strings);
      }
    }

    twostate lemma LinkedValid(table: Table)
      requires Linked(table)
      ensures Numbered()
      ensures forall i :: 0 <= i < |tables| ==> tables[i].Valid() && tables[i].Owns(mem)
      ensures forall i :: 0 <= i < |tables| - 1 ==> ModelOf(tables[i], mem) == old(ModelOf(tables[i], mem))
    {
      assert table.Slots() == {};
      forall i | 0 <= i < |tables| - 1
        ensures tables[i].Valid() && tables[i].Owns(mem) && tables[i].metas == old(tables[i].metas)
        ensures tables[i].id == old(tables[i].id)
        ensures ModelOf(tables[i], mem) == old(ModelOf(tables[i], mem))
      {
        assert tables[i] == old(tables)[i] && tables[i] in old(Repr);
        assert tables[i].Valid() == old(tables[i].Valid());
      }
    }

    // The ids of its columns have been taken from the counter.
    method AppendTable(table: Table)
      requires Valid() && table.Valid() && table.rowCount == 0 && table.strings == {} && table.id == nextTableId
      requires table.inserts == 0
      requires table.Repr !! Repr && this !in table.Repr && mem !in table.Repr
      requires forall c :: 0 <= c < |table.metas| ==> table.metas[c].id < nextColumnId + |table.metas|
      modifies this
      ensures Valid() && Repr == old(Repr) + table.Repr
      ensures Model() == DbModel(old(Model()).tables + [TableModel(table.id, table.name, table.metas, [])],
                                 old(nextColumnId) + |table.metas|)
      ensures forall k: nat :: InsertsOf(k) == old(InsertsOf(k))
    {
      tables := tables + [table];
      nextTableId := nextTableId + 1;
      nextColumnId := nextColumnId + |table.columns|;
      Repr := Repr + table.Repr;
      assert Linked(table) == true;
      LinkedApart(table);
      LinkedNothingLeaked(table);
      LinkedValid(table);
      assert Valid() == true;
      assert table.Rows(mem) == [];
    }

    // The table is linked whether or not the types turn out to be known.
    method InterpretCreate(name: CString, columns: seq<CString>, types: seq<CString>) returns (res: BazaResult)
      requires Valid()
      requires TypesValid(types) ==> |columns| <= |types| && DistinctNames(columns)
      modifies this
      ensures Valid() && fresh(Repr - old(Repr))
      ensures Response(Model(), res) == ApplyCreate(old(Model()), name, columns, types)
      ensures forall k: nat :: InsertsOf(k) == old(InsertsOf(k))
    {
      var table;
      table, res := BuildTable(nextTableId, name, columns, types, nextColumnId);
      AppendTable(table);
    }

    method InterpretQuery(q: Query) returns (res: BazaResult)
      requires Valid() && Safe(Model(), conv, q)
      modifies this, Repr, mem
      ensures Valid() && fresh(Repr - old(Repr))
      ensures Response(Model(), res) == Apply(old(Model()), conv, q)
      ensures forall k: nat :: InsertsOf(k) == old(InsertsOf(k)) + if InsertsOne(old(Model()), conv, q, k) then 1 else 0
    {
      if q.Create? {
        res := InterpretCreate(q.name, q.columns, q.types);
      } else {
        res := Execute(q);
      }
    }

    // Whole runs: the database goes through the states of its model, and after
    // every query each live string still belongs to exactly one cell. In a database
    // that starts empty, growth has copied at most twice as many slots per column of
    // a table as the run has inserted rows into it.
    method RunQueries(qs: seq<Query>)
      requires Valid() && SafeRun(Model(), conv, qs)
      modifies this, Repr, mem
      ensures Valid() && fresh(Repr - old(Repr))
      ensures Model() == Run(old(Model()), conv, qs)
      ensures forall k: nat :: InsertsOf(k) == old(InsertsOf(k)) + InsertsInto(old(Model()), conv, qs, k)
      ensures forall k: nat :: k < |tables| ==>
                tables[k].copied <= 2 * (old(InsertsOf(k)) + InsertsInto(old(Model()), conv, qs, k))
    {
      ghost var end := Run(Model(), conv, qs);
      var i := 0;
      assert qs[0..] == qs;
      while i < |qs|
        invariant 0 <= i <= |qs|
        invariant (Valid() == true) && fresh(Repr - old(Repr))
        invariant SafeRun(Model(), conv, qs[i..]) && Run(Model(), conv, qs[i..]) == end
        invariant forall k: nat :: InsertsOf(k) + InsertsInto(Model(), conv, qs[i..], k)
                                == old(InsertsOf(k)) + InsertsInto(old(Model()), conv, qs, k)
      {
        assert qs[i..][0] == qs[i] && qs[i..][1..] == qs[i + 1..];
        var res := InterpretQuery(qs[i]);
        i := i + 1;
      }
    }

    // storage_deinit: what is freed is all there was.
    method Deinit()
      requires Valid()
      modifies mem
      ensures mem.blocks == map[]
    {
      var i := 0;
      while i < |tables|
        invariant 0 <= i <= |tables|
        invariant HeldFrom(i) == true
        invariant forall j :: i <= j < |tables| ==> tables[j].Owns(mem) == true
      {
        FreeTable(i);
        i := i + 1;
      }
      assert forall p :: p !in mem.blocks;
    }

    lemma StillHeld(i: nat, live: Blocks)
      requires Apart() && i < |tables|
      requires mem.blocks == live - tables[i].strings
      requires forall p :: p in live ==> exists j :: i <= j < |tables| && p in tables[j].strings
      ensures HeldFrom(i + 1)
    {
    }

    lemma StillOwned(i: nat, j: nat, live: Blocks)
      requires Apart() && i < j < |tables|
      requires mem.blocks == live - tables[i].strings
      requires Owned(tables[j].cells, tables[j].Slots(), live) && tables[j].strings == tables[j].Strings()
      ensures tables[j].Owns(mem)
    {
      OwnedWithout(tables[j].cells, tables[j].Slots(), live, tables[i].strings);
    }

    method FreeTable(i: nat)
      requires Apart() && i < |tables| && tables[i].Valid()
      requires HeldFrom(i) && forall j :: i <= j < |tables| ==> tables[j].Owns(mem)
      modifies mem
      ensures HeldFrom(i + 1)
      ensures forall j :: i < j < |tables| ==> tables[j].Owns(mem)
    {
      ghost var live := mem.blocks;
      tables[i].FreeAll(mem);
      StillHeld(i, live);
      forall j | i < j < |tables|
        ensures tables[j].Owns(mem) == true
      {
        StillOwned(i, j, live);
      }
    }
  }

  lemma StillThere(blocks: Blocks, strings: set<nat>, before: Blocks, owned: set<nat>, p: nat)
    requires blocks - strings == before - owned && p in blocks && p !in strings
    ensures p in before && p !in owned
  {
    assert p in before - owned;
  }

  // A new table with its columns; without columns if some type is unknown.
  method BuildTable(id: nat, name: CString, columns: seq<CString>, types: seq<CString>, firstId: nat)
    returns (table: Table, res: BazaResult)
    requires TypesValid(types) ==> |columns| <= |types| && DistinctNames(columns)
    ensures table.Valid() && fresh(table.Repr)
    ensures table.id == id && table.name == name && table.rowCount == 0 && table.strings == {} && table.inserts == 0
    ensures res == if TypesValid(types) then OK else InvalidQuery
    ensures table.metas == if TypesValid(types) then NewColumns(columns, types, firstId) else []
  {
    table := new Table(id, name);
    var btypes := ConvertTypes(types);
    if |btypes| < |types| {
      return table, InvalidQuery;
    }
    AddColumns(table, columns, btypes, types, firstId);
    return table, OK;
  }

  // The types up to the first unknown one.
  method ConvertTypes(types: seq<CString>) returns (btypes: seq<BaseType>)
    ensures |btypes| == |types| <==> TypesValid(types)
    ensures |btypes| <= |types|
    ensures forall i :: 0 <= i < |btypes| ==> btypes[i] == BaseTypeFromStr(types[i])
  {
    btypes := [];
    var i := 0;
    while i < |types|
      invariant 0 <= i <= |types| && |btypes| == i
      invariant forall j :: 0 <= j < i ==> btypes[j] == BaseTypeFromStr(types[j]) && btypes[j] != Invalid
    {
      var btype := BaseTypeFromStr(types[i]);
      if btype == Invalid {
        return;
      }
      btypes := btypes + [btype];
      i := i + 1;
    }
  }

  method AddColumns(table: Table, columns: seq<CString>, btypes: seq<BaseType>, ghost types: seq<CString>, firstId: nat)
    requires table.Valid() && table.metas == [] && table.rowCount == 0
    requires |columns| <= |btypes| == |types| && DistinctNames(columns)
    requires forall i :: 0 <= i < |btypes| ==> btypes[i] == BaseTypeFromStr(types[i]) && btypes[i] != Invalid
    modifies table
    ensures table.Valid() && fresh(table.Repr - old(table.Repr))
    ensures table.rowCount == 0 && table.strings == old(table.strings) && table.inserts == old(table.inserts)
    ensures table.metas == NewColumns(columns, types, firstId)
  {
    var i := 0;
    while i < |columns|
      invariant 0 <= i <= |columns|
      invariant (table.Valid() == true) && fresh(table.Repr - old(table.Repr)) && table.rowCount == 0
      invariant table.strings == old(table.strings) && table.inserts == old(table.inserts)
      invariant table.metas == NewColumns(columns, types, firstId)[..i]
    {
      assert FindColumn(table.metas, columns[i]) == i;
      var res := table.ColumnNew(firstId + i, btypes[i], columns[i]);
      i := i + 1;
    }
  }
}
