// WHERE chains: how the lists of matching rows are computed and what they mean.
module Filters {
  import opened CText
  import opened Integers
  import opened Values
  import opened RowLists
  import opened IntLists

  datatype FilterRelation = RelInvalid | RelNone | And | Or

  datatype Filter = Filter(column: CString, op: FilterOp, value: CString, nextRelation: FilterRelation)

  datatype ColumnMeta = ColumnMeta(id: nat, name: CString, ctype: BaseType)

  type Row = seq<Value>

  datatype BazaResult =
    | OK | IndexOutOfBounds | ColumnNotFound | TableNotEmpty | TableNotFound
    | DuplicateColumnName | InvalidQuery | ValueType | FilterValueType | ServerError | Err

  // A type-correct table: every row has one cell of the right type per column.
  predicate WellTyped(cols: seq<ColumnMeta>, rows: seq<Row>) {
    forall r :: 0 <= r < |rows| ==> RowTyped(cols, rows[r])
  }

  predicate RowTyped(cols: seq<ColumnMeta>, row: Row) {
    |row| == |cols| && forall c :: 0 <= c < |cols| ==> Typed(cols[c].ctype, row[c])
  }

  // The first column of that name, or |cols|.
  function FindColumn(cols: seq<ColumnMeta>, name: CString): (c: nat)
    ensures c <= |cols|
    ensures forall i :: 0 <= i < c ==> cols[i].name != name
    ensures c < |cols| ==> cols[c].name == name
  {
    if cols == [] || cols[0].name == name then 0 else 1 + FindColumn(cols[1..], name)
  }

  // The cell that a literal denotes in a column; conv is the C library's integer
  // conversion, of which only determinism is assumed.
  function Literal(conv: IntConversion, ctype: BaseType, text: CString): (v: Option<Value>)
    ensures v.Some? ==> Typed(ctype, v.value)
  {
    if ctype == Int32 || ctype == Int64 then
      match conv(text) {
        case None => None
        case Some(w) => Some(Num(NumberOf(ctype, w)))
      }
    else Some(Text(text))
  }

  // The row numbers below n whose cell in column c passes the comparison, ascending.
  function FindSeq(cols: seq<ColumnMeta>, rows: seq<Row>, c: nat, op: FilterOp, right: Value, n: nat): seq<int>
    requires WellTyped(cols, rows) && c < |cols| && n <= |rows|
    requires Typed(cols[c].ctype, right) && (Supported(op) || n == 0)
  {
    if n == 0 then []
    else FindSeq(cols, rows, c, op, right, n - 1) +
         if Holds(op, cols[c].ctype, rows[n - 1][c], right) then [n - 1] else []
  }

  lemma {:induction false} FindSeqMeaning(cols: seq<ColumnMeta>, rows: seq<Row>, c: nat, op: FilterOp, right: Value,
                                          n: nat)
    requires WellTyped(cols, rows) && c < |cols| && n <= |rows|
    requires Typed(cols[c].ctype, right) && (Supported(op) || n == 0)
    ensures var list := FindSeq(cols, rows, c, op, right, n);
            && Ascending(list) && Below(list, n)
            && forall r :: r in list <==> 0 <= r < n && Holds(op, cols[c].ctype, rows[r][c], right)
  {
    if n > 0 {
      FindSeqMeaning(cols, rows, c, op, right, n - 1);
      var before, last := FindSeq(cols, rows, c, op, right, n - 1), rows[n - 1];
      assert RowTyped(cols, last);
      assert FindSeq(cols, rows, c, op, right, n)
          == before + if Holds(op, cols[c].ctype, last[c], right) then [n - 1] else [];
    }
  }

  function MatchList(cols: seq<ColumnMeta>, rows: seq<Row>, c: nat, op: FilterOp, right: Value): seq<int>
    requires WellTyped(cols, rows) && c < |cols| && Typed(cols[c].ctype, right) && Supported(op)
  {
    FindSeq(cols, rows, c, op, right, |rows|)
  }

  // The match lists of <, = and > share no row and miss none; those of <= and >=
  // are the corresponding unions.
  lemma ComparisonsPartition(cols: seq<ColumnMeta>, rows: seq<Row>, c: nat, right: Value)
    requires WellTyped(cols, rows) && c < |cols|
    requires cols[c].ctype != Invalid && Typed(cols[c].ctype, right)
    ensures forall r :: 0 <= r < |rows| ==>
              && r in MatchList(cols, rows, c, Lesser, right)
               + MatchList(cols, rows, c, Equal, right)
               + MatchList(cols, rows, c, Greater, right)
              && !(r in MatchList(cols, rows, c, Lesser, right) && r in MatchList(cols, rows, c, Equal, right))
              && !(r in MatchList(cols, rows, c, Greater, right) && r in MatchList(cols, rows, c, Equal, right))
              && !(r in MatchList(cols, rows, c, Lesser, right) && r in MatchList(cols, rows, c, Greater, right))
              && (r in MatchList(cols, rows, c, LesserEqual, right) <==>
                  r in MatchList(cols, rows, c, Lesser, right) || r in MatchList(cols, rows, c, Equal, right))
              && (r in MatchList(cols, rows, c, GreaterEqual, right) <==>
                  r in MatchList(cols, rows, c, Greater, right) || r in MatchList(cols, rows, c, Equal, right))
  {
    FindSeqMeaning(cols, rows, c, Lesser, right, |rows|);
    FindSeqMeaning(cols, rows, c, Equal, right, |rows|);
    FindSeqMeaning(cols, rows, c, Greater, right, |rows|);
    FindSeqMeaning(cols, rows, c, LesserEqual, right, |rows|);
    FindSeqMeaning(cols, rows, c, GreaterEqual, right, |rows|);
    forall r | 0 <= r < |rows|
      ensures var left := rows[r][c];
              && (left == right || Precedes(left, right) || Precedes(right, left))
              && (Holds(Equal, cols[c].ctype, left, right) <==> left == right)
              && (Holds(Lesser, cols[c].ctype, left, right) <==> Precedes(left, right))
              && (Holds(Greater, cols[c].ctype, left, right) <==> Precedes(right, left))
              && !(Precedes(left, right) && Precedes(right, left))
    {
      assert RowTyped(cols, rows[r]);
      ComparisonsFollowOrder(cols[c].ctype, rows[r][c], right);
      if cols[c].ctype == String {
        StrCmpOrders(rows[r][c].s, right.s);
      }
    }
  }

  // ---------------------------------------------------------------------
  // The chain as the interpreter folds it
  // ---------------------------------------------------------------------

  // Crash: a call through a missing entry of the function table.
  datatype ChainResult = Rows(list: seq<int>) | Fail(res: BazaResult) | Crash

  // Everything one filter needs to be evaluated at all.
  datatype Resolved = Column(c: nat, right: Value) | Unresolved(res: BazaResult)

  function Resolve(cols: seq<ColumnMeta>, conv: IntConversion, f: Filter): (r: Resolved)
    ensures r.Column? ==> r.c < |cols| && Typed(cols[r.c].ctype, r.right) && cols[r.c].ctype != Invalid
  {
    var c := FindColumn(cols, f.column);
    if c == |cols| then Unresolved(ColumnNotFound)
    else if cols[c].ctype == Invalid then Unresolved(ServerError)
    else
      match Literal(conv, cols[c].ctype, f.value)
      case None => Unresolved(FilterValueType)
      case Some(v) => Column(c, v)
  }

  function Combine(rel: FilterRelation, acc: seq<int>, list: seq<int>): Option<seq<int>> {
    match rel
    case RelNone => Some(list)
    case And => Some(IntersectSeq(acc, list))
    case Or => Some(UnionSeq(acc, list))
    case RelInvalid => None
  }

  function ChainRows(cols: seq<ColumnMeta>, conv: IntConversion, rows: seq<Row>,
                     chain: seq<Filter>, rel: FilterRelation, acc: seq<int>): ChainResult
    requires WellTyped(cols, rows)
    decreases |chain|
  {
    if chain == [] then Rows(acc)
    else
      match Resolve(cols, conv, chain[0])
      case Unresolved(res) => Fail(res)
      case Column(c, right) =>
        if !Supported(chain[0].op) && rows != [] then Crash
        else
          match Combine(rel, acc, FindSeq(cols, rows, c, chain[0].op, right, |rows|))
          case None => Fail(ServerError)
          case Some(list) => ChainRows(cols, conv, rows, chain[1..], chain[0].nextRelation, list)
  }

  // One round of the fold.
  function OneFilter(cols: seq<ColumnMeta>, conv: IntConversion, rows: seq<Row>,
                     f: Filter, rel: FilterRelation, acc: seq<int>): ChainResult
    requires WellTyped(cols, rows)
  {
    match Resolve(cols, conv, f)
    case Unresolved(res) => Fail(res)
    case Column(c, right) =>
      if !Supported(f.op) && rows != [] then Crash
      else
        match Combine(rel, acc, FindSeq(cols, rows, c, f.op, right, |rows|))
        case None => Fail(ServerError)
        case Some(list) => Rows(list)
  }

  lemma ChainFolds(cols: seq<ColumnMeta>, conv: IntConversion, rows: seq<Row>,
                   chain: seq<Filter>, rel: FilterRelation, acc: seq<int>)
    requires WellTyped(cols, rows) && chain != []
    ensures var one := OneFilter(cols, conv, rows, chain[0], rel, acc);
            ChainRows(cols, conv, rows, chain, rel, acc) ==
            if one.Rows? then ChainRows(cols, conv, rows, chain[1..], chain[0].nextRelation, one.list) else one
  {
  }

  // ---------------------------------------------------------------------
  // Its meaning, one row at a time
  // ---------------------------------------------------------------------

  // One condition on one row.
  predicate Passes(cols: seq<ColumnMeta>, conv: IntConversion, f: Filter, row: Row)
    requires RowTyped(cols, row)
  {
    var r := Resolve(cols, conv, f);
    r.Column? && Supported(f.op) && Holds(f.op, cols[r.c].ctype, row[r.c], r.right)
  }

  function Join(rel: FilterRelation, a: bool, b: bool): bool {
    match rel
    case And => a && b
    case Or => a || b
    case _ => b
  }

  // The strict left-to-right reading of the chain.
  predicate ChainTruth(cols: seq<ColumnMeta>, conv: IntConversion, chain: seq<Filter>,
                       rel: FilterRelation, acc: bool, row: Row)
    requires RowTyped(cols, row)
    decreases |chain|
  {
    if chain == [] then acc
    else
      ChainTruth(cols, conv, chain[1..], chain[0].nextRelation,
                 Join(rel, acc, Passes(cols, conv, chain[0], row)), row)
  }

  lemma CombineMeaning(rel: FilterRelation, acc: seq<int>, list: seq<int>, n: nat)
    requires Distinct(acc) && Below(acc, n) && Ascending(list) && Below(list, n) && rel != RelInvalid
    ensures var r := Combine(rel, acc, list).value;
            && Distinct(r) && Below(r, n)
            && (forall x :: x in r <==> Join(rel, x in acc, x in list))
            && (rel != Or && Ascending(acc) ==> Ascending(r))
  {
    IntersectMeaning(acc, list);
    UnionMeaning(acc, list);
    var r := Combine(rel, acc, list).value;
    forall i | 0 <= i < |r|
      ensures 0 <= r[i] < n
    {
      assert r[i] in r;
    }
  }

  // The list computed has no duplicates, holds valid row numbers only, and
  // contains row r exactly when the chain is true of it.
  lemma {:induction false} ChainMeaning(cols: seq<ColumnMeta>, conv: IntConversion, rows: seq<Row>,
                                        chain: seq<Filter>, rel: FilterRelation, acc: seq<int>)
    requires WellTyped(cols, rows) && Distinct(acc) && Below(acc, |rows|)
    requires ChainRows(cols, conv, rows, chain, rel, acc).Rows?
    ensures var list := ChainRows(cols, conv, rows, chain, rel, acc).list;
            && Distinct(list) && Below(list, |rows|)
            && forall r :: 0 <= r < |rows| ==> (r in list <==> ChainTruth(cols, conv, chain, rel, r in acc, rows[r]))
    decreases |chain|
  {
    if chain != [] {
      var f := chain[0];
      var at := Resolve(cols, conv, f);
      FindSeqMeaning(cols, rows, at.c, f.op, at.right, |rows|);
      var found := FindSeq(cols, rows, at.c, f.op, at.right, |rows|);
      CombineMeaning(rel, acc, found, |rows|);
      var list := Combine(rel, acc, found).value;
      ChainMeaning(cols, conv, rows, chain[1..], f.nextRelation, list);
      forall r | 0 <= r < |rows|
        ensures (r in list) == Join(rel, r in acc, Passes(cols, conv, f, rows[r]))
      {
        assert RowTyped(cols, rows[r]);
      }
    }
  }

  // ---------------------------------------------------------------------
  // When a chain can be evaluated
  // ---------------------------------------------------------------------

  // A filter that can be evaluated on these rows.
  predicate Usable(cols: seq<ColumnMeta>, conv: IntConversion, rows: seq<Row>, f: Filter) {
    Resolve(cols, conv, f).Column? && (Supported(f.op) || rows == [])
  }

  // The relations in front of the filters, the first one being rel.
  function Relations(chain: seq<Filter>, rel: FilterRelation): (rels: seq<FilterRelation>)
    ensures |rels| == |chain|
  {
    if chain == [] then [] else [rel] + Relations(chain[1..], chain[0].nextRelation)
  }

  // Filter i is the first one that cannot be evaluated.
  predicate StopsAt(cols: seq<ColumnMeta>, conv: IntConversion, rows: seq<Row>,
                    chain: seq<Filter>, rel: FilterRelation, i: nat)
  {
    && i < |chain|
    && !(Usable(cols, conv, rows, chain[i]) && Relations(chain, rel)[i] != RelInvalid)
    && forall j :: 0 <= j < i ==> Usable(cols, conv, rows, chain[j]) && Relations(chain, rel)[j] != RelInvalid
  }

  lemma StopsLater(cols: seq<ColumnMeta>, conv: IntConversion, rows: seq<Row>,
                   chain: seq<Filter>, rel: FilterRelation)
    requires chain != [] && Usable(cols, conv, rows, chain[0]) && rel != RelInvalid
    ensures forall i: nat :: StopsAt(cols, conv, rows, chain, rel, i) ==>
              i > 0 && StopsAt(cols, conv, rows, chain[1..], chain[0].nextRelation, i - 1)
  {
    forall i: nat | StopsAt(cols, conv, rows, chain, rel, i)
      ensures i > 0 && StopsAt(cols, conv, rows, chain[1..], chain[0].nextRelation, i - 1)
    {
      assert forall j :: 0 <= j < i - 1 ==> chain[1..][j] == chain[j + 1];
    }
  }

  // What becomes of a filter that cannot be evaluated.
  function Failure(cols: seq<ColumnMeta>, conv: IntConversion, rows: seq<Row>, f: Filter): ChainResult {
    var at := Resolve(cols, conv, f);
    if at.Unresolved? then Fail(at.res)
    else if !Supported(f.op) && rows != [] then Crash
    else Fail(ServerError)
  }

  // A chain has a list of rows exactly when each of its filters can be evaluated
  // and each relation is one; otherwise its first bad filter decides.
  lemma {:induction false} EvaluatesExactly(cols: seq<ColumnMeta>, conv: IntConversion, rows: seq<Row>,
                                            chain: seq<Filter>, rel: FilterRelation, acc: seq<int>)
    requires WellTyped(cols, rows)
    ensures ChainRows(cols, conv, rows, chain, rel, acc).Rows? <==>
            (forall f :: f in chain ==> Usable(cols, conv, rows, f)) && RelInvalid !in Relations(chain, rel)
    ensures forall i: nat :: StopsAt(cols, conv, rows, chain, rel, i) ==>
              ChainRows(cols, conv, rows, chain, rel, acc) == Failure(cols, conv, rows, chain[i])
    decreases |chain|
  {
    if chain != [] {
      var f, rest, next := chain[0], chain[1..], chain[0].nextRelation;
      assert forall g :: g in chain <==> g == f || g in rest;
      if Usable(cols, conv, rows, f) && rel != RelInvalid {
        var at := Resolve(cols, conv, f);
        var list := Combine(rel, acc, FindSeq(cols, rows, at.c, f.op, at.right, |rows|)).value;
        EvaluatesExactly(cols, conv, rows, rest, next, list);
        StopsLater(cols, conv, rows, chain, rel);
      }
    }
  }

  // The call through a missing function is made exactly when there are rows and an
  // operator without one comes before every other failure.
  lemma CrashesExactly(cols: seq<ColumnMeta>, conv: IntConversion, rows: seq<Row>,
                       chain: seq<Filter>, rel: FilterRelation, acc: seq<int>)
    requires WellTyped(cols, rows)
    ensures ChainRows(cols, conv, rows, chain, rel, acc) == Crash <==>
            && rows != []
            && exists i: nat :: StopsAt(cols, conv, rows, chain, rel, i)
                             && Resolve(cols, conv, chain[i]).Column? && !Supported(chain[i].op)
  {
    EvaluatesExactly(cols, conv, rows, chain, rel, acc);
    if !ChainRows(cols, conv, rows, chain, rel, acc).Rows? {
      var i := FirstStop(cols, conv, rows, chain, rel);
    }
  }

  lemma {:induction false} FirstStop(cols: seq<ColumnMeta>, conv: IntConversion, rows: seq<Row>,
                                     chain: seq<Filter>, rel: FilterRelation) returns (i: nat)
    requires (exists f :: f in chain && !Usable(cols, conv, rows, f)) || RelInvalid in Relations(chain, rel)
    ensures StopsAt(cols, conv, rows, chain, rel, i)
    decreases |chain|
  {
    var f, rest, next := chain[0], chain[1..], chain[0].nextRelation;
    i := 0;
    if Usable(cols, conv, rows, f) && rel != RelInvalid {
      assert forall g :: g in chain <==> g == f || g in rest;
      var k := FirstStop(cols, conv, rows, rest, next);
      i := k + 1;
      assert forall j :: 0 < j < i ==> chain[j] == rest[j - 1];
    }
  }

  // ---------------------------------------------------------------------
  // AND and OR have no precedence
  // ---------------------------------------------------------------------

  predicate LeftToRight(a: bool, rels: seq<FilterRelation>, vals: seq<bool>)
    requires |rels| == |vals|
    decreases |vals|
  {
    if vals == [] then a else LeftToRight(Join(rels[0], a, vals[0]), rels[1..], vals[1..])
  }

  // AND binds tighter than OR: a disjunction of conjunctions.
  predicate AndBeforeOr(a: bool, rels: seq<FilterRelation>, vals: seq<bool>)
    requires |rels| == |vals|
    decreases |vals|
  {
    if vals == [] then a
    else if rels[0] == Or then a || AndBeforeOr(vals[0], rels[1..], vals[1..])
    else AndBeforeOr(Join(rels[0], a, vals[0]), rels[1..], vals[1..])
  }

  predicate AndOr(rels: seq<FilterRelation>) {
    forall i :: 0 <= i < |rels| ==> rels[i] == And || rels[i] == Or
  }

  predicate NoAndAfterOr(rels: seq<FilterRelation>) {
    forall i, j :: 0 <= i < j < |rels| && rels[i] == Or ==> rels[j] != And
  }

  ghost predicate UsualReading(rels: seq<FilterRelation>) {
    forall a, vals: seq<bool> :: |vals| == |rels| ==> LeftToRight(a, rels, vals) == AndBeforeOr(a, rels, vals)
  }

  // The chain is a ChainTruth over its conditions joined by these relations.
  lemma {:induction false} ChainIsLeftToRight(cols: seq<ColumnMeta>, conv: IntConversion, chain: seq<Filter>,
                                              rel: FilterRelation, acc: bool, row: Row)
    requires RowTyped(cols, row)
    ensures ChainTruth(cols, conv, chain, rel, acc, row)
         == LeftToRight(acc, Relations(chain, rel), Conditions(cols, conv, chain, row))
    decreases |chain|
  {
    if chain != [] {
      ChainIsLeftToRight(cols, conv, chain[1..], chain[0].nextRelation,
                         Join(rel, acc, Passes(cols, conv, chain[0], row)), row);
    }
  }

  function Conditions(cols: seq<ColumnMeta>, conv: IntConversion, chain: seq<Filter>, row: Row): (vals: seq<bool>)
    requires RowTyped(cols, row)
    ensures |vals| == |chain|
  {
    if chain == [] then [] else [Passes(cols, conv, chain[0], row)] + Conditions(cols, conv, chain[1..], row)
  }

  lemma {:induction false} OnlyOrs(a: bool, rels: seq<FilterRelation>, vals: seq<bool>)
    requires |rels| == |vals| && AndOr(rels) && NoAndAfterOr(rels)
    ensures LeftToRight(a, rels, vals) == AndBeforeOr(a, rels, vals)
    ensures (forall i :: 0 <= i < |rels| ==> rels[i] == Or) ==> (LeftToRight(a, rels, vals) == (a || true in vals))
    decreases |vals|
  {
    if vals != [] {
      OnlyOrs(Join(rels[0], a, vals[0]), rels[1..], vals[1..]);
      OnlyOrs(vals[0], rels[1..], vals[1..]);
      if rels[0] == Or {
        assert forall i :: 0 <= i < |rels[1..]| ==> rels[1..][i] == rels[i + 1];
      }
    }
  }

  function Falses(n: nat): (vals: seq<bool>)
    ensures |vals| == n && true !in vals
  {
    seq(n, _ => false)
  }

  lemma {:induction false} FalsesLose(a: bool, rels: seq<FilterRelation>)
    requires AndOr(rels)
    ensures LeftToRight(false, rels, Falses(|rels|)) == false
    ensures And in rels ==> LeftToRight(a, rels, Falses(|rels|)) == false
  {
    if rels != [] {
      assert Falses(|rels|)[1..] == Falses(|rels| - 1);
      FalsesLose(false, rels[1..]);
      FalsesLose(Join(rels[0], a, false), rels[1..]);
    }
  }

  // True up to the first OR, false behind it.
  function Separating(rels: seq<FilterRelation>): (vals: seq<bool>)
    ensures |vals| == |rels|
  {
    if rels == [] then []
    else if rels[0] == Or then Falses(|rels|)
    else [true] + Separating(rels[1..])
  }

  lemma {:induction false} SeparatingWorks(rels: seq<FilterRelation>)
    requires AndOr(rels) && !NoAndAfterOr(rels)
    ensures !LeftToRight(true, rels, Separating(rels)) && AndBeforeOr(true, rels, Separating(rels))
  {
    if rels[0] == Or {
      assert forall j :: 0 < j < |rels| ==> rels[j] == rels[1..][j - 1];
      FalsesLose(true, rels[1..]);
      assert Falses(|rels|)[1..] == Falses(|rels| - 1);
      assert And in rels[1..];
    } else {
      assert forall i :: 0 < i < |rels| ==> rels[i] == rels[1..][i - 1];
      SeparatingWorks(rels[1..]);
    }
  }

  // The chain agrees with the usual AND-before-OR reading for all outcomes of
  // its conditions exactly when no AND follows an OR.
  lemma UsualReadingExactly(rels: seq<FilterRelation>)
    requires AndOr(rels)
    ensures UsualReading(rels) <==> NoAndAfterOr(rels)
  {
    if NoAndAfterOr(rels) {
      forall a, vals: seq<bool> | |vals| == |rels|
        ensures LeftToRight(a, rels, vals) == AndBeforeOr(a, rels, vals)
      {
        OnlyOrs(a, rels, vals);
      }
    } else {
      SeparatingWorks(rels);
    }
  }

  // ---------------------------------------------------------------------
  // AND-only chains
  // ---------------------------------------------------------------------

  predicate AndOnly(chain: seq<Filter>) {
    forall i :: 0 <= i < |chain| - 1 ==> chain[i].nextRelation == And
  }

  lemma {:induction false} AndOnlyMeaning(cols: seq<ColumnMeta>, conv: IntConversion, rows: seq<Row>,
                                          chain: seq<Filter>, rel: FilterRelation, acc: seq<int>)
    requires WellTyped(cols, rows) && Ascending(acc) && Below(acc, |rows|) && AndOnly(chain)
    requires rel == And || (rel == RelNone && chain != [])
    ensures ChainRows(cols, conv, rows, chain, rel, acc).Rows? <==>
            forall f :: f in chain ==> Usable(cols, conv, rows, f)
    ensures ChainRows(cols, conv, rows, chain, rel, acc).Rows? ==>
              var list := ChainRows(cols, conv, rows, chain, rel, acc).list;
              && Ascending(list) && Below(list, |rows|)
              && forall r :: 0 <= r < |rows| ==>
                   (r in list <==>
                    (rel == And ==> r in acc) && forall f :: f in chain ==> Passes(cols, conv, f, rows[r]))
    decreases |chain|
  {
    if chain != [] {
      var f := chain[0];
      assert f in chain && forall g :: g in chain <==> g == f || g in chain[1..];
      if Usable(cols, conv, rows, f) {
        var at := Resolve(cols, conv, f);
        var found := FindSeq(cols, rows, at.c, f.op, at.right, |rows|);
        FindSeqMeaning(cols, rows, at.c, f.op, at.right, |rows|);
        CombineMeaning(rel, acc, found, |rows|);
        var list := Combine(rel, acc, found).value;
        if |chain| > 1 {
          AndOnlyMeaning(cols, conv, rows, chain[1..], And, list);
        }
        forall r | 0 <= r < |rows|
          ensures (r in list) == Join(rel, r in acc, Passes(cols, conv, f, rows[r]))
        {
          assert RowTyped(cols, rows[r]);
        }
      }
    }
  }

  datatype Condition = Condition(column: CString, op: FilterOp, value: CString)

  function ConditionsOf(chain: seq<Filter>): (conds: seq<Condition>)
    ensures |conds| == |chain|
    ensures forall i :: 0 <= i < |chain| ==> conds[i] == Condition(chain[i].column, chain[i].op, chain[i].value)
  {
    seq(|chain|, i requires 0 <= i < |chain| => Condition(chain[i].column, chain[i].op, chain[i].value))
  }

  lemma SameConditions(chain: seq<Filter>, other: seq<Filter>, f: Filter) returns (g: Filter)
    requires multiset(ConditionsOf(chain)) == multiset(ConditionsOf(other)) && f in chain
    ensures g in other && g.column == f.column && g.op == f.op && g.value == f.value
  {
    var i :| 0 <= i < |chain| && chain[i] == f;
    assert ConditionsOf(chain)[i] in multiset(ConditionsOf(chain));
    assert ConditionsOf(chain)[i] in ConditionsOf(other);
    var j :| 0 <= j < |other| && ConditionsOf(other)[j] == ConditionsOf(chain)[i];
    g := other[j];
  }

  lemma PermutedConditions(cols: seq<ColumnMeta>, conv: IntConversion, rows: seq<Row>,
                           chain: seq<Filter>, other: seq<Filter>)
    requires WellTyped(cols, rows) && multiset(ConditionsOf(chain)) == multiset(ConditionsOf(other))
    requires forall f :: f in chain ==> Usable(cols, conv, rows, f)
    ensures forall f :: f in other ==> Usable(cols, conv, rows, f)
    ensures forall row | RowTyped(cols, row) && (forall f :: f in chain ==> Passes(cols, conv, f, row)) ::
              forall f :: f in other ==> Passes(cols, conv, f, row)
  {
    forall f | f in other
      ensures Usable(cols, conv, rows, f)
      ensures forall row | RowTyped(cols, row) && (forall f :: f in chain ==> Passes(cols, conv, f, row)) ::
                Passes(cols, conv, f, row)
    {
      var g := SameConditions(other, chain, f);
      assert Resolve(cols, conv, f) == Resolve(cols, conv, g);
      assert forall row | RowTyped(cols, row) :: Passes(cols, conv, f, row) == Passes(cols, conv, g, row);
    }
  }

  // The order of the conditions of an AND-only chain does not matter: the list
  // is the same element for element.
  lemma AndOnlyCanonical(cols: seq<ColumnMeta>, conv: IntConversion, rows: seq<Row>,
                         chain: seq<Filter>, other: seq<Filter>)
    requires WellTyped(cols, rows) && chain != [] && other != [] && AndOnly(chain) && AndOnly(other)
    requires multiset(ConditionsOf(chain)) == multiset(ConditionsOf(other))
    requires ChainRows(cols, conv, rows, chain, RelNone, []).Rows?
    ensures ChainRows(cols, conv, rows, other, RelNone, []) == ChainRows(cols, conv, rows, chain, RelNone, [])
  {
    AndOnlyMeaning(cols, conv, rows, chain, RelNone, []);
    AndOnlyMeaning(cols, conv, rows, other, RelNone, []);
    PermutedConditions(cols, conv, rows, chain, other);
    PermutedConditions(cols, conv, rows, other, chain);
    var a := ChainRows(cols, conv, rows, chain, RelNone, []).list;
    var b := ChainRows(cols, conv, rows, other, RelNone, []).list;
    forall r
      ensures r in a <==> r in b
    {
      if 0 <= r < |rows| {
        assert RowTyped(cols, rows[r]);
      }
    }
    AscendingUnique(a, b);
  }

  // ---------------------------------------------------------------------
  // Filtered DELETE
  // ---------------------------------------------------------------------

  // The rows of which the chain is false, in order.
  function Unmatched(cols: seq<ColumnMeta>, conv: IntConversion, chain: seq<Filter>, rows: seq<Row>): seq<Row>
    requires WellTyped(cols, rows)
  {
    if rows == [] then []
    else (if ChainTruth(cols, conv, chain, RelNone, false, rows[0]) then [] else [rows[0]])
         + Unmatched(cols, conv, chain, rows[1..])
  }

  lemma {:induction false} SurvivorsUnmatched(cols: seq<ColumnMeta>, conv: IntConversion, chain: seq<Filter>,
                                              rows: seq<Row>, s: set<int>, first: int)
    requires WellTyped(cols, rows)
    requires forall r :: 0 <= r < |rows| ==>
               (first + r in s <==> ChainTruth(cols, conv, chain, RelNone, false, rows[r]))
    ensures Survivors(rows, s, first) == Unmatched(cols, conv, chain, rows)
  {
    if rows != [] {
      assert forall r :: 0 <= r < |rows[1..]| ==> rows[1..][r] == rows[r + 1] && (first + 1 + r == first + (r + 1));
      SurvivorsUnmatched(cols, conv, chain, rows[1..], s, first + 1);
    }
  }

  // Whatever the chain, an ascending list leaves exactly the rows it is false of.
  lemma DeleteLeavesUnmatched(cols: seq<ColumnMeta>, conv: IntConversion, chain: seq<Filter>, rows: seq<Row>)
    requires WellTyped(cols, rows) && |rows| < TWO64
    requires ChainRows(cols, conv, rows, chain, RelNone, []).Rows?
    requires Ascending(ChainRows(cols, conv, rows, chain, RelNone, []).list)
    ensures DeleteLoop(rows, ChainRows(cols, conv, rows, chain, RelNone, []).list, 0)
         == DeleteResult(true, Unmatched(cols, conv, chain, rows))
  {
    var list := ChainRows(cols, conv, rows, chain, RelNone, []).list;
    ChainMeaning(cols, conv, rows, chain, RelNone, []);
    DeleteAscending(rows, list);
    SurvivorsUnmatched(cols, conv, chain, rows, Elements(list), 0);
  }

  // For a single condition, or conditions joined by AND, DELETE keeps exactly
  // the rows that fail some condition.
  lemma AndOnlyDelete(cols: seq<ColumnMeta>, conv: IntConversion, chain: seq<Filter>, rows: seq<Row>)
    requires WellTyped(cols, rows) && |rows| < TWO64 && chain != [] && AndOnly(chain)
    requires ChainRows(cols, conv, rows, chain, RelNone, []).Rows?
    ensures DeleteLoop(rows, ChainRows(cols, conv, rows, chain, RelNone, []).list, 0)
         == DeleteResult(true, Unmatched(cols, conv, chain, rows))
    ensures forall r :: 0 <= r < |rows| ==>
              (ChainTruth(cols, conv, chain, RelNone, false, rows[r])
               <==> forall f :: f in chain ==> Passes(cols, conv, f, rows[r]))
  {
    AndOnlyMeaning(cols, conv, rows, chain, RelNone, []);
    DeleteLeavesUnmatched(cols, conv, chain, rows);
    ChainMeaning(cols, conv, rows, chain, RelNone, []);
  }
}
