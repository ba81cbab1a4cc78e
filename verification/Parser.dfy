// Parsing WHERE chains and the clauses behind SELECT ... FROM <table>.
module Parser {
  import opened CText
  import opened Values
  import opened Filters
  import opened Tokens
  import opened SqlLists
  import opened StrLists

  // ---------------------------------------------------------------------
  // Operators, relations and sort directions
  // ---------------------------------------------------------------------

  datatype SortDirection = SortAscending | SortDescending | SortInvalid

  function FilterOpFromStr(s: CString): FilterOp {
    if SameIgnoringCase(s, "=") then Equal
    else if SameIgnoringCase(s, "!=") then NotEqual
    else if SameIgnoringCase(s, ">") then Greater
    else if SameIgnoringCase(s, ">=") then GreaterEqual
    else if SameIgnoringCase(s, "<") then Lesser
    else if SameIgnoringCase(s, "<=") then LesserEqual
    else if SameIgnoringCase(s, "like") then FLike
    else FInvalid
  }

  function FilterRelFromStr(s: CString): FilterRelation {
    if SameIgnoringCase(s, "and") then And
    else if SameIgnoringCase(s, "or") then Or
    else RelInvalid
  }

  function SortDirectionFromStr(s: CString): SortDirection {
    if SameIgnoringCase(s, "ASC") then SortAscending
    else if SameIgnoringCase(s, "DESC") then SortDescending
    else SortInvalid
  }

  // How operators and relations are printed.
  function FilterOpToStr(op: FilterOp): CString {
    match op
    case FInvalid => "!invalid filter!"
    case FNone => "none"
    case Equal => "="
    case NotEqual => "!="
    case Greater => ">"
    case GreaterEqual => ">="
    case Lesser => "<"
    case LesserEqual => "<="
    case FLike => "like"
  }

  function FilterRelToStr(rel: FilterRelation): CString {
    match rel
    case RelInvalid => "!invalid filter relation!"
    case RelNone => "none"
    case And => "and"
    case Or => "or"
  }

  function SortDirectionToStr(direction: SortDirection): CString {
    match direction
    case SortAscending => "ASC"
    case SortDescending => "DESC"
    case SortInvalid => "!INVALID SORT DIRECTION!"
  }

  // t is the operator, in any letter case.
  predicate SpellsOp(t: CString, op: FilterOp) {
    op != FInvalid && op != FNone && SameIgnoringCase(t, FilterOpToStr(op))
  }

  predicate SpellsRel(t: CString, rel: FilterRelation) {
    (rel == And || rel == Or) && SameIgnoringCase(t, FilterRelToStr(rel))
  }

  predicate SpellsSort(t: CString, direction: SortDirection) {
    direction != SortInvalid && SameIgnoringCase(t, SortDirectionToStr(direction))
  }

  lemma SpelledAlike(t: CString, a: CString, b: CString)
    requires SameIgnoringCase(t, a) && SameIgnoringCase(t, b)
    ensures SameIgnoringCase(a, b)
  {
  }

  // The conversion from text knows every operator and nothing else.
  lemma OpsExactly(t: CString, op: FilterOp)
    ensures SpellsOp(t, op) <==> op == FilterOpFromStr(t) && op != FInvalid
  {
    var from := FilterOpFromStr(t);
    assert from != FInvalid ==> SpellsOp(t, from);
    if SpellsOp(t, op) {
      assert from != FInvalid;
      var a, b := FilterOpToStr(from), FilterOpToStr(op);
      SpelledAlike(t, a, b);
      assert Lower(a[0]) == Lower(b[0]) && |a| == |b|;
    }
  }

  lemma RelsExactly(t: CString, rel: FilterRelation)
    ensures SpellsRel(t, rel) <==> rel == FilterRelFromStr(t) && rel != RelInvalid
  {
  }

  lemma SortsExactly(t: CString, direction: SortDirection)
    ensures SpellsSort(t, direction) <==> direction == SortDirectionFromStr(t) && direction != SortInvalid
  {
  }

  // ---------------------------------------------------------------------
  // WHERE chains
  // ---------------------------------------------------------------------

  // Crash: a missing token is read.
  datatype FilterParse = Parsed(filters: seq<Filter>, rest: seq<CString>) | ParseError | ParseCrash

  function ParseFiltersSpec(toks: seq<CString>): (r: FilterParse)
    ensures r.Parsed? ==> r.filters != [] && |r.rest| < |toks|
    decreases |toks|
  {
    if toks == [] then ParseError
    else if |toks| == 1 then ParseCrash
    else
      var op := FilterOpFromStr(toks[1]);
      if op == FInvalid || |toks| == 2 then ParseError
      else if |toks| == 3 || FilterRelFromStr(toks[3]) == RelInvalid then
        Parsed([Filter(toks[0], op, toks[2], RelNone)], toks[3..])
      else if |toks| == 4 then ParseError
      else
        match ParseFiltersSpec(toks[4..])
        case Parsed(more, rest) => Parsed([Filter(toks[0], op, toks[2], FilterRelFromStr(toks[3]))] + more, rest)
        case failure => failure
  }

  predicate StartsWithRelation(toks: seq<CString>) {
    toks != [] && exists rel :: SpellsRel(toks[0], rel)
  }

  // The tokens are the chain: column, operator and value of each filter, with
  // relations between them.
  predicate SpellsChain(toks: seq<CString>, chain: seq<Filter>)
    decreases |chain|
  {
    && chain != [] && |toks| >= 3 && SpellsFilter(toks, chain[0])
    && if |chain| == 1 then |toks| == 3 && chain[0].nextRelation == RelNone
       else |toks| >= 4 && SpellsRel(toks[3], chain[0].nextRelation) && SpellsChain(toks[4..], chain[1..])
  }

  predicate SpellsFilter(toks: seq<CString>, f: Filter)
    requires |toks| >= 3
  {
    toks[0] == f.column && SpellsOp(toks[1], f.op) && toks[2] == f.value
  }

  lemma Slices(toks: seq<CString>, k: nat, n: nat)
    requires k <= n <= |toks|
    ensures toks[..n][k..] == toks[k..][..n - k] && toks[k..][n - k..] == toks[n..] && toks[..n][..k] == toks[..k]
  {
  }

  // The tokens are the chain, and behind it a rest that does not go on with a relation.
  predicate ChainInFront(toks: seq<CString>, chain: seq<Filter>, rest: seq<CString>) {
    var n := 4 * |chain| - 1;
    && chain != [] && n <= |toks| && rest == toks[n..]
    && SpellsChain(toks[..n], chain) && !StartsWithRelation(rest)
  }

  lemma LongerInFront(toks: seq<CString>, chain: seq<Filter>, rest: seq<CString>)
    requires |chain| > 1
    ensures ChainInFront(toks, chain, rest) <==>
            && |toks| > 4 && SpellsFilter(toks, chain[0]) && SpellsRel(toks[3], chain[0].nextRelation)
            && ChainInFront(toks[4..], chain[1..], rest)
  {
    var n := 4 * |chain| - 1;
    if n <= |toks| {
      Slices(toks, 4, n);
    }
  }

  lemma ParsesOne(toks: seq<CString>, f: Filter, rest: seq<CString>)
    ensures ParseFiltersSpec(toks) == Parsed([f], rest) <==> ChainInFront(toks, [f], rest)
  {
    if |toks| >= 3 {
      OpsExactly(toks[1], f.op);
      if |toks| > 3 {
        RelsExactly(toks[3], FilterRelFromStr(toks[3]));
        RelsExactly(toks[3], And);
        RelsExactly(toks[3], Or);
      }
    }
  }

  lemma ParsesMore(toks: seq<CString>, f: Filter, more: seq<Filter>, rest: seq<CString>)
    requires more != []
    ensures ParseFiltersSpec(toks) == Parsed([f] + more, rest) <==>
            && |toks| > 4 && SpellsFilter(toks, f) && SpellsRel(toks[3], f.nextRelation)
            && ParseFiltersSpec(toks[4..]) == Parsed(more, rest)
  {
    if |toks| > 4 {
      OpsExactly(toks[1], f.op);
      RelsExactly(toks[3], f.nextRelation);
      var r := ParseFiltersSpec(toks[4..]);
      if r.Parsed? {
        assert ([f] + more)[0] == f && ([f] + more)[1..] == more;
        var g := Filter(toks[0], FilterOpFromStr(toks[1]), toks[2], FilterRelFromStr(toks[3]));
        assert ([g] + r.filters)[0] == g && ([g] + r.filters)[1..] == r.filters;
      }
    }
  }

  // The parser reads a chain exactly when the tokens spell it and no further
  // relation follows.
  lemma {:induction false} ParsesExactly(toks: seq<CString>, chain: seq<Filter>, rest: seq<CString>)
    ensures ParseFiltersSpec(toks) == Parsed(chain, rest) <==> ChainInFront(toks, chain, rest)
    decreases |chain|
  {
    if |chain| == 1 {
      assert chain == [chain[0]];
      ParsesOne(toks, chain[0], rest);
    } else if |chain| > 1 {
      assert chain == [chain[0]] + chain[1..];
      ParsesMore(toks, chain[0], chain[1..], rest);
      LongerInFront(toks, chain, rest);
      if |toks| > 4 {
        ParsesExactly(toks[4..], chain[1..], rest);
      }
    }
  }

  // ---------------------------------------------------------------------
  // What is no chain
  // ---------------------------------------------------------------------

  // The i-th group of four tokens is a filter with a relation behind it.
  predicate RelatedFilter(toks: seq<CString>, i: nat) {
    && 4 * i + 3 < |toks|
    && FilterOpFromStr(toks[4 * i + 1]) != FInvalid && FilterRelFromStr(toks[4 * i + 3]) != RelInvalid
  }

  predicate RelatedFilters(toks: seq<CString>, k: nat) {
    forall i :: 0 <= i < k ==> RelatedFilter(toks, i)
  }

  // Nothing but related filters, and then the column of one more.
  ghost predicate EndsBehindColumn(toks: seq<CString>) {
    exists k: nat :: |toks| == 4 * k + 1 && RelatedFilters(toks, k)
  }

  // Related filters, and then nothing, no operator, or an operator without a value.
  ghost predicate Malformed(toks: seq<CString>) {
    exists k: nat :: RelatedFilters(toks, k) && BreaksOffAt(toks, k)
  }

  predicate BreaksOffAt(toks: seq<CString>, k: nat) {
    var n := 4 * k;
    || |toks| == n
    || (|toks| >= n + 2 && (FilterOpFromStr(toks[n + 1]) == FInvalid || |toks| == n + 2))
  }

  lemma LaterFilter(toks: seq<CString>, i: nat)
    requires |toks| >= 4
    ensures RelatedFilter(toks, i + 1) <==> RelatedFilter(toks[4..], i)
  {
  }

  lemma LaterFilters(toks: seq<CString>, k: nat)
    requires |toks| >= 4 && RelatedFilter(toks, 0)
    ensures RelatedFilters(toks, k + 1) <==> RelatedFilters(toks[4..], k)
  {
    if RelatedFilters(toks, k + 1) {
      forall i | 0 <= i < k
        ensures RelatedFilter(toks[4..], i)
      {
        LaterFilter(toks, i);
      }
    }
    if RelatedFilters(toks[4..], k) {
      forall i | 0 < i < k + 1
        ensures RelatedFilter(toks, i)
      {
        LaterFilter(toks, i - 1);
      }
    }
  }

  lemma NoRelatedFilter(toks: seq<CString>)
    requires !RelatedFilter(toks, 0)
    ensures forall k: nat :: RelatedFilters(toks, k) ==> k == 0
  {
  }

  // A missing token is read exactly when the tokens end behind a column.
  lemma {:induction false} CrashesExactly(toks: seq<CString>)
    ensures ParseFiltersSpec(toks) == ParseCrash <==> EndsBehindColumn(toks)
    decreases |toks|
  {
    if RelatedFilter(toks, 0) {
      var rest := toks[4..];
      CrashesExactly(rest);
      if EndsBehindColumn(toks) {
        var k: nat :| |toks| == 4 * k + 1 && RelatedFilters(toks, k);
        LaterFilters(toks, k - 1);
      }
      if EndsBehindColumn(rest) {
        var k: nat :| |rest| == 4 * k + 1 && RelatedFilters(rest, k);
        LaterFilters(toks, k);
      }
    } else {
      NoRelatedFilter(toks);
      assert RelatedFilters(toks, 0);
    }
  }

  // ... and the parser rejects exactly what breaks off elsewhere.
  lemma {:induction false} RejectsExactly(toks: seq<CString>)
    ensures ParseFiltersSpec(toks) == ParseError <==> Malformed(toks)
    decreases |toks|
  {
    if RelatedFilter(toks, 0) {
      var rest := toks[4..];
      RejectsExactly(rest);
      if Malformed(toks) {
        var k: nat :| RelatedFilters(toks, k) && BreaksOffAt(toks, k);
        LaterFilters(toks, k - 1);
        assert BreaksOffAt(rest, k - 1);
      }
      if Malformed(rest) {
        var k: nat :| RelatedFilters(rest, k) && BreaksOffAt(rest, k);
        LaterFilters(toks, k);
        assert BreaksOffAt(toks, k + 1);
      }
    } else {
      NoRelatedFilter(toks);
      assert RelatedFilters(toks, 0);
    }
  }

  // ---------------------------------------------------------------------
  // Printing a chain and reading it back
  // ---------------------------------------------------------------------

  // How a filter is written: its operator and the relation behind it, and whether
  // column and value stand in quotes.
  datatype Words = Words(op: CString, rel: CString, columnQuoted: bool, valueQuoted: bool)

  predicate Spelling(chain: seq<Filter>, words: seq<Words>)
  {
    && |words| == |chain|
    && forall i :: 0 <= i < |chain| ==>
         && SpellsOp(words[i].op, chain[i].op)
         && if i + 1 < |chain| then SpellsRel(words[i].rel, chain[i].nextRelation) else chain[i].nextRelation == RelNone
  }

  // Empty texts and texts with white space need quotes.
  predicate QuotedWhereNeeded(chain: seq<Filter>, words: seq<Words>)
    requires |words| == |chain|
  {
    forall i :: 0 <= i < |chain| ==>
      && Writable(Item(chain[i].column, words[i].columnQuoted), WHITE)
      && Writable(Item(chain[i].value, words[i].valueQuoted), WHITE)
  }

  function FilterItems(f: Filter, w: Words): seq<Item> {
    [Item(f.column, w.columnQuoted), Item(w.op, false), Item(f.value, w.valueQuoted)]
  }

  function Printed(chain: seq<Filter>, words: seq<Words>): (items: seq<Item>)
    requires |words| == |chain|
    ensures |items| == if chain == [] then 0 else 4 * |chain| - 1
  {
    if chain == [] then []
    else if |chain| == 1 then FilterItems(chain[0], words[0])
    else FilterItems(chain[0], words[0]) + [Item(words[0].rel, false)] + Printed(chain[1..], words[1..])
  }

  // Words that differ from a printed one in letter case only can stand bare.
  lemma BareWord(t: CString, word: CString)
    requires SameIgnoringCase(t, word) && word != []
    requires forall i :: 0 <= i < |word| ==> word[i] > ' ' && word[i] != '"'
    ensures Writable(Item(t, false), WHITE)
  {
  }

  lemma {:induction false} PrintedWritable(chain: seq<Filter>, words: seq<Words>)
    requires Spelling(chain, words) && QuotedWhereNeeded(chain, words)
    ensures AllWritable(Printed(chain, words), WHITE)
    decreases |chain|
  {
    if chain != [] {
      BareWord(words[0].op, FilterOpToStr(chain[0].op));
      var head := FilterItems(chain[0], words[0]);
      assert AllWritable(head, WHITE);
      if |chain| > 1 {
        var rel, behind := Item(words[0].rel, false), Printed(chain[1..], words[1..]);
        BareWord(rel.text, FilterRelToStr(chain[0].nextRelation));
        assert chain[1..][0] == chain[1];
        PrintedWritable(chain[1..], words[1..]);
        assert Printed(chain, words) == head + [rel] + behind;
      }
    }
  }

  lemma PrintedTexts(chain: seq<Filter>, words: seq<Words>)
    requires chain != [] && |words| == |chain|
    ensures var toks := Texts(Printed(chain, words));
            && |toks| >= 3 && toks[0] == chain[0].column && toks[1] == words[0].op && toks[2] == chain[0].value
            && (|chain| == 1 ==> |toks| == 3)
            && (|chain| > 1 ==>
                  |toks| > 4 && toks[3] == words[0].rel && toks[4..] == Texts(Printed(chain[1..], words[1..])))
  {
  }

  lemma {:induction false} PrintedSpells(chain: seq<Filter>, words: seq<Words>)
    requires chain != [] && Spelling(chain, words)
    ensures SpellsChain(Texts(Printed(chain, words)), chain)
    decreases |chain|
  {
    PrintedTexts(chain, words);
    if |chain| > 1 {
      PrintedSpells(chain[1..], words[1..]);
    }
  }

  lemma TextsParts(a: seq<Item>, b: seq<Item>)
    ensures Texts(a + b)[..|a|] == Texts(a) && Texts(a + b)[|a|..] == Texts(b)
  {
  }

  // A chain printed with any gaps, quoted or bare, in any letter case, and in front of
  // anything that does not go on with AND or OR, is split and parsed back to itself.
  lemma FilterTextRoundTrip(chain: seq<Filter>, words: seq<Words>, behind: seq<Item>, gaps: seq<CString>)
    requires chain != [] && Spelling(chain, words) && QuotedWhereNeeded(chain, words)
    requires AllWritable(behind, WHITE)
    requires !StartsWithRelation(Texts(behind))
    requires Gaps(gaps, |Printed(chain, words)| + |behind|, WHITE)
    ensures ParseFiltersSpec(SplitQuoted([], Layout(Printed(chain, words) + behind, gaps), WHITE))
         == Parsed(chain, Texts(behind))
  {
    var items := Printed(chain, words);
    PrintedWritable(chain, words);
    QuotedRoundTrip(items + behind, gaps, WHITE);
    PrintedSpells(chain, words);
    TextsParts(items, behind);
    ParsesExactly(Texts(items + behind), chain, Texts(behind));
  }

  // ---------------------------------------------------------------------
  // The clauses behind SELECT <columns> FROM <table>
  // ---------------------------------------------------------------------

  // No filters are the empty chain.
  datatype SelectTail = SelectTail(filters: seq<Filter>, sort: Option<(CString, SortDirection)>)

  // Fatal: the program gives up. Stuck: the loop makes no progress any more.
  datatype TailResult = TailDone(tail: SelectTail) | TailError | TailFatal | TailCrash | TailStuck

  datatype WhereParse = NoWhere | WhereFound(filters: seq<Filter>, rest: seq<CString>) | WhereFatal | WhereCrash

  datatype OrderParse = NoOrder | OrderFound(column: CString, direction: SortDirection, rest: seq<CString>)

  predicate StartsWith(toks: seq<CString>, word: CString) {
    toks != [] && SameIgnoringCase(toks[0], word)
  }

  function ParseWhereSpec(toks: seq<CString>): (r: WhereParse)
    ensures r.WhereFound? ==> |r.rest| < |toks|
  {
    if !StartsWith(toks, "WHERE") then NoWhere
    else
      match ParseFiltersSpec(toks[1..])
      case Parsed(filters, rest) => WhereFound(filters, rest)
      case ParseError => WhereFatal
      case ParseCrash => WhereCrash
  }

  function ParseOrderSpec(toks: seq<CString>): (r: OrderParse)
    ensures r.OrderFound? ==> |r.rest| < |toks|
  {
    if |toks| < 4 || !StartsWith(toks, "ORDER") || !StartsWith(toks[1..], "BY") then NoOrder
    else OrderFound(toks[2], SortDirectionFromStr(toks[3]), toks[4..])
  }

  // One round of the loop tries WHERE and then ORDER BY.
  function ParseClausesSpec(toks: seq<CString>, tail: SelectTail): TailResult
    decreases |toks|
  {
    if toks == [] then TailDone(tail)
    else
      match ParseWhereSpec(toks)
      case WhereFatal => TailFatal
      case WhereCrash => TailCrash
      case WhereFound(filters, rest) => AfterWhere(toks, rest, tail.(filters := filters))
      case NoWhere => AfterWhere(toks, toks, tail)
  }

  function AfterWhere(toks: seq<CString>, rest: seq<CString>, tail: SelectTail): TailResult
    requires |rest| <= |toks|
    decreases |toks|, 0
  {
    match ParseOrderSpec(rest)
    case OrderFound(column, direction, rest') =>
      if direction == SortInvalid then TailError
      else ParseClausesSpec(rest', tail.(sort := Some((column, direction))))
    case NoOrder => if |rest| < |toks| then ParseClausesSpec(rest, tail) else TailStuck
  }

  datatype Clause = WhereClause(chain: seq<Filter>) | OrderClause(column: CString, direction: SortDirection)

  function ClauseLength(clause: Clause): nat {
    match clause
    case WhereClause(chain) => 4 * |chain|
    case OrderClause(_, _) => 4
  }

  predicate SpellsClause(toks: seq<CString>, clause: Clause) {
    match clause
    case WhereClause(chain) => StartsWith(toks, "WHERE") && |toks| == 4 * |chain| && SpellsChain(toks[1..], chain)
    case OrderClause(column, direction) =>
      && |toks| == 4 && StartsWith(toks, "ORDER") && StartsWith(toks[1..], "BY")
      && toks[2] == column && SpellsSort(toks[3], direction)
  }

  // The tokens up to n are these clauses, one after the other.
  predicate SpellsClauses(toks: seq<CString>, clauses: seq<Clause>)
    decreases |clauses|
  {
    if clauses == [] then toks == []
    else
      var n := ClauseLength(clauses[0]);
      0 < n <= |toks| && SpellsClause(toks[..n], clauses[0]) && SpellsClauses(toks[n..], clauses[1..])
  }

  // What the clauses leave behind: the last one of each kind.
  function Selected(tail: SelectTail, clauses: seq<Clause>): SelectTail
    decreases |clauses|
  {
    if clauses == [] then tail
    else
      Selected(match clauses[0]
               case WhereClause(chain) => tail.(filters := chain)
               case OrderClause(column, direction) => tail.(sort := Some((column, direction))),
               clauses[1..])
  }

  // A clause that stands last replaces the one of its kind and leaves the other.
  lemma {:induction false} LaterClauseWins(tail: SelectTail, clauses: seq<Clause>, last: Clause)
    ensures var before, sel := Selected(tail, clauses), Selected(tail, clauses + [last]);
            && (last.WhereClause? ==> sel == before.(filters := last.chain))
            && (last.OrderClause? ==> sel == before.(sort := Some((last.column, last.direction))))
    decreases |clauses|
  {
    if clauses == [] {
      assert [] + [last] == [last];
    } else {
      assert (clauses + [last])[1..] == clauses[1..] + [last];
      LaterClauseWins(Selected(tail, [clauses[0]]), clauses[1..], last);
      SelectedFirst(tail, clauses);
      SelectedFirst(tail, clauses + [last]);
    }
  }

  // It makes no difference that ORDER BY is tried in the round that read WHERE.
  lemma OneClauseARound(toks: seq<CString>, tail: SelectTail)
    ensures ParseWhereSpec(toks).WhereFound? ==>
              var w := ParseWhereSpec(toks);
              ParseClausesSpec(toks, tail) == ParseClausesSpec(w.rest, tail.(filters := w.filters))
  {
    if ParseWhereSpec(toks).WhereFound? {
      var rest := ParseWhereSpec(toks).rest;
      if StartsWith(rest, "ORDER") {
        OrderIsNotWhere(rest[0]);
      }
    }
  }

  lemma OrderIsNotWhere(t: CString)
    requires SameIgnoringCase(t, "ORDER")
    ensures !SameIgnoringCase(t, "WHERE")
  {
    assert Lower(t[0]) == 'o';
  }

  lemma ClauseRead(toks: seq<CString>, clause: Clause, tail: SelectTail)
    requires var n := ClauseLength(clause); 0 < n <= |toks| && SpellsClause(toks[..n], clause)
    requires !StartsWithRelation(toks[ClauseLength(clause)..])
    ensures ParseClausesSpec(toks, tail) ==
            ParseClausesSpec(toks[ClauseLength(clause)..], Selected(tail, [clause]))
  {
    var n := ClauseLength(clause);
    match clause
    case WhereClause(chain) =>
      Slices(toks, 1, n);
      ParsesExactly(toks[1..], chain, toks[n..]);
      OneClauseARound(toks, tail);
    case OrderClause(column, direction) =>
      assert toks[..n][1..][0] == toks[1];
      OrderIsNotWhere(toks[0]);
      SortsExactly(toks[3], direction);
  }

  lemma SelectedFirst(tail: SelectTail, clauses: seq<Clause>)
    requires clauses != []
    ensures Selected(Selected(tail, [clauses[0]]), clauses[1..]) == Selected(tail, clauses)
  {
  }

  // The clauses at the front are read one by one, whatever stands behind them.
  lemma {:induction false} ClausesRead(toks: seq<CString>, n: nat, clauses: seq<Clause>, tail: SelectTail)
    requires n <= |toks| && SpellsClauses(toks[..n], clauses) && !StartsWithRelation(toks[n..])
    ensures ParseClausesSpec(toks, tail) == ParseClausesSpec(toks[n..], Selected(tail, clauses))
    decreases |clauses|
  {
    if clauses == [] {
      assert toks[n..] == toks;
    } else {
      var k, first := ClauseLength(clauses[0]), Selected(tail, [clauses[0]]);
      Slices(toks, k, n);
      assert SpellsClause(toks[..k], clauses[0]) == true;  // kept folded
      assert SpellsClauses(toks[k..][..n - k], clauses[1..]) == true;
      ClauseBehind(toks[k..], n - k, clauses[1..]);
      ClauseRead(toks, clauses[0], tail);
      ClausesRead(toks[k..], n - k, clauses[1..], first);
      SelectedFirst(tail, clauses);
    }
  }

  lemma ClauseBehind(toks: seq<CString>, n: nat, clauses: seq<Clause>)
    requires n <= |toks| && SpellsClauses(toks[..n], clauses) && !StartsWithRelation(toks[n..])
    ensures !StartsWithRelation(toks)
  {
  }

  // How the loop ends in front of the tokens that it reads no clause from.
  ghost predicate EndsAt(end: TailResult, rest: seq<CString>, tail: SelectTail) {
    var where, order := StartsWith(rest, "WHERE"), OrderByColumn(rest);
    && (end.TailDone? <==> rest == [])
    && (end.TailDone? ==> end.tail == tail)
    && (end.TailStuck? <==> rest != [] && !where && !order)
    && (end.TailFatal? <==> where && Malformed(rest[1..]))
    && (end.TailCrash? <==> where && EndsBehindColumn(rest[1..]))
    && (end.TailError? <==> order && SortDirectionFromStr(rest[3]) == SortInvalid)
  }

  // ORDER BY, a column, and one token more.
  predicate OrderByColumn(toks: seq<CString>) {
    |toks| >= 4 && StartsWith(toks, "ORDER") && StartsWith(toks[1..], "BY")
  }

  lemma NoClauseRead(toks: seq<CString>, tail: SelectTail)
    requires !FindsClause(toks)
    ensures EndsAt(ParseClausesSpec(toks, tail), toks, tail)
  {
    if StartsWith(toks, "ORDER") {
      OrderIsNotWhere(toks[0]);
    }
    if StartsWith(toks, "WHERE") {
      CrashesExactly(toks[1..]);
      RejectsExactly(toks[1..]);
    }
  }

  // The loop crashes on WHERE and a column ...
  lemma WhereColumnCrashes(where: CString, column: CString, tail: SelectTail)
    requires SameIgnoringCase(where, "WHERE")
    ensures ParseClausesSpec([where, column], tail) == TailCrash
  {
    assert [where, column][1..] == [column];
    CrashesExactly([column]);
    assert RelatedFilters([column], 0);
  }

  // ... and never ends on ORDER BY and a column without a direction.
  lemma OrderWithoutDirectionSticks(order: CString, second: CString, column: CString, tail: SelectTail)
    requires SameIgnoringCase(order, "ORDER")
    ensures ParseClausesSpec([order, second, column], tail) == TailStuck
  {
    OrderIsNotWhere(order);
  }

  lemma OneMoreClause(toks: seq<CString>, clause: Clause, n: nat, clauses: seq<Clause>, tail: SelectTail)
    requires var k := ClauseLength(clause);
             0 < k && k + n <= |toks| && SpellsClause(toks[..k], clause) && SpellsClauses(toks[k..][..n], clauses)
    ensures var k := ClauseLength(clause);
            SpellsClauses(toks[..k + n], [clause] + clauses) && toks[k..][n..] == toks[k + n..]
    ensures Selected(tail, [clause] + clauses) == Selected(Selected(tail, [clause]), clauses)
  {
    var k := ClauseLength(clause);
    Slices(toks, k, k + n);
    assert ([clause] + clauses)[1..] == clauses;
  }

  predicate FindsClause(toks: seq<CString>) {
    var w, o := ParseWhereSpec(toks), ParseOrderSpec(toks);
    w.WhereFound? || (o.OrderFound? && o.direction != SortInvalid)
  }

  lemma WhereClauseFound(toks: seq<CString>, tail: SelectTail)
    requires ParseWhereSpec(toks).WhereFound?
    ensures var clause := WhereClause(ParseWhereSpec(toks).filters);
            var k := ClauseLength(clause);
            && 0 < k <= |toks| && SpellsClause(toks[..k], clause)
            && ParseClausesSpec(toks, tail) == ParseClausesSpec(toks[k..], Selected(tail, [clause]))
  {
    var w := ParseWhereSpec(toks);
    var k := 4 * |w.filters|;
    OneClauseARound(toks, tail);
    ParsesExactly(toks[1..], w.filters, w.rest);
    Slices(toks, 1, k);
  }

  lemma ClauseFound(toks: seq<CString>, tail: SelectTail) returns (clause: Clause)
    requires FindsClause(toks)
    ensures var k := ClauseLength(clause);
            && 0 < k <= |toks| && SpellsClause(toks[..k], clause)
            && ParseClausesSpec(toks, tail) == ParseClausesSpec(toks[k..], Selected(tail, [clause]))
  {
    var w, o := ParseWhereSpec(toks), ParseOrderSpec(toks);
    if w.WhereFound? {
      clause := WhereClause(w.filters);
      WhereClauseFound(toks, tail);
    } else {
      clause := OrderClause(o.column, o.direction);
      OrderIsNotWhere(toks[0]);
      SortsExactly(toks[3], o.direction);
      assert toks[..4][1..][0] == toks[1];
    }
  }

  // Every run of the loop reads clauses and then ends: it is done when no token is
  // left, and otherwise it has come to a token that no clause begins with, or to a
  // clause that is not well-formed.
  lemma {:induction false} ClausesBefore(toks: seq<CString>, tail: SelectTail) returns (clauses: seq<Clause>, n: nat)
    ensures n <= |toks| && SpellsClauses(toks[..n], clauses)
    ensures EndsAt(ParseClausesSpec(toks, tail), toks[n..], Selected(tail, clauses))
    decreases |toks|
  {
    if FindsClause(toks) {
      var clause := ClauseFound(toks, tail);
      var k := ClauseLength(clause);
      clauses, n := ClausesBefore(toks[k..], Selected(tail, [clause]));
      OneMoreClause(toks, clause, n, clauses, tail);
      clauses, n := [clause] + clauses, k + n;
    } else {
      NoClauseRead(toks, tail);
      clauses, n := [], 0;
      assert toks[0..] == toks && toks[..0] == [];
    }
    assert SpellsClauses(toks[..n], clauses) == true;  // kept folded
  }

  // ---------------------------------------------------------------------
  // The methods, which walk over the list of tokens
  // ---------------------------------------------------------------------

  datatype Outcome = Accepted | Rejected | Fatal | Crashed | Stuck

  // What a parser that starts at the k-th token still sees.
  ghost function TokensFrom(list: StrList, k: nat): seq<CString>
    reads list
  {
    if k <= |list.items| then list.items[k..] else []
  }

  // The parser has come to a token with this rest of the tokens behind it.
  ghost predicate Stands(list: StrList, tok: StrList?, k: nat, rest: seq<CString>)
    reads list, list.Repr
  {
    AtToken(list, tok, k) && TokensFrom(list, k) == rest
  }

  function FiltersOutcome(r: FilterParse): Outcome {
    match r
    case Parsed(_, _) => Accepted
    case ParseError => Rejected
    case ParseCrash => Crashed
  }

  function WhereOutcome(r: WhereParse): Outcome {
    match r
    case NoWhere => Accepted
    case WhereFound(_, _) => Accepted
    case WhereFatal => Fatal
    case WhereCrash => Crashed
  }

  // The chain so far, in front of what the rest of the tokens gives.
  function Before(filters: seq<Filter>, r: FilterParse): FilterParse {
    match r
    case Parsed(more, rest) => Parsed(filters + more, rest)
    case failure => failure
  }

  // What a complete filter f at the front means for the whole of the tokens.
  lemma FilterStep(done: seq<Filter>, toks: seq<CString>, f: Filter)
    requires |toks| > 2 && f == Filter(toks[0], FilterOpFromStr(toks[1]), toks[2], RelNone) && f.op != FInvalid
    ensures var r := Before(done, ParseFiltersSpec(toks));
            if |toks| == 3 || FilterRelFromStr(toks[3]) == RelInvalid then r == Parsed(done + [f], toks[3..])
            else if |toks| == 4 then r == ParseError
            else r == Before(done + [f.(nextRelation := FilterRelFromStr(toks[3]))], ParseFiltersSpec(toks[4..]))
  {
    if |toks| > 4 && FilterRelFromStr(toks[3]) != RelInvalid {
      var more := ParseFiltersSpec(toks[4..]);
      if more.Parsed? {
        AppendAssoc(done, [f.(nextRelation := FilterRelFromStr(toks[3]))], more.filters);
      }
    }
  }

  // One filter: column, operator and value.
  method ParseFilter(list: StrList, start: StrList, ghost k: nat)
    returns (outcome: Outcome, filter: Filter, rest: StrList?)
    requires AtToken(list, start, k)
    ensures var toks := TokensFrom(list, k);
            && (outcome == Crashed <==> |toks| == 1)
            && (outcome == Rejected <==> |toks| > 1 && (FilterOpFromStr(toks[1]) == FInvalid || |toks| == 2))
            && (outcome == Accepted <==> |toks| > 2 && FilterOpFromStr(toks[1]) != FInvalid)
            && (outcome == Accepted ==>
                  filter == Filter(toks[0], FilterOpFromStr(toks[1]), toks[2], RelNone) && AtToken(list, rest, k + 3))
  {
    TokenNext(list, start, k);
    filter, rest := Filter(start.str.value, FNone, [], RelNone), start.next;
    if rest == null {
      // the operator is read without a check
      return Crashed, filter, null;
    }
    TokenNext(list, rest, k + 1);
    filter, rest := filter.(op := FilterOpFromStr(rest.str.value)), rest.next;
    if filter.op == FInvalid || rest == null {
      return Rejected, filter, null;
    }
    TokenNext(list, rest, k + 2);
    return Accepted, filter.(value := rest.str.value), rest.next;
  }

  // One round of the loop over the chain; more is set when a relation follows.
  method ParseNextFilter(list: StrList, start: StrList, before: seq<Filter>, ghost k: nat)
    returns (more: bool, outcome: Outcome, filters: seq<Filter>, tok: StrList?, ghost j: nat)
    requires AtToken(list, start, k)
    ensures var r := Before(before, ParseFiltersSpec(TokensFrom(list, k)));
            if more then
              && k < j && AtToken(list, tok, j) && tok != null
              && r == Before(filters, ParseFiltersSpec(TokensFrom(list, j)))
            else
              outcome == FiltersOutcome(r) && (r.Parsed? ==> filters == r.filters && Stands(list, tok, j, r.rest))
  {
    more, filters, j := false, before, k + 3;
    var filter;
    TokenNext(list, start, k);
    outcome, filter, tok := ParseFilter(list, start, k);
    if outcome != Accepted {
      return;
    }
    FilterStep(before, TokensFrom(list, k), filter);
    assert TokensFrom(list, k)[3..] == TokensFrom(list, j);
    if tok == null {
      filters := before + [filter];
      return;
    }
    TokenNext(list, tok, j);
    var rel := FilterRelFromStr(tok.str.value);
    if rel == RelInvalid {
      // a WHERE can be followed by something else
      filters := before + [filter];
      return;
    }
    filters := before + [filter.(nextRelation := rel)];
    tok, j := tok.next, j + 1;
    assert TokensFrom(list, k)[4..] == TokensFrom(list, j);
    more := tok != null;
    if !more {
      outcome := Rejected;
    }
  }

  method ParseFilters(list: StrList, start: StrList?, ghost k: nat)
    returns (outcome: Outcome, filters: seq<Filter>, tok: StrList?, ghost j: nat)
    requires AtToken(list, start, k)
    ensures outcome == FiltersOutcome(ParseFiltersSpec(TokensFrom(list, k)))
    ensures var r := ParseFiltersSpec(TokensFrom(list, k)); r.Parsed? ==> filters == r.filters
    ensures var r := ParseFiltersSpec(TokensFrom(list, k)); r.Parsed? ==> Stands(list, tok, j, r.rest)
  {
    outcome, filters, tok, j := Rejected, [], start, k;
    if tok == null {
      return;
    }
    ghost var r := ParseFiltersSpec(TokensFrom(list, k));
    var more := true;
    while more
      invariant more ==> tok != null && (AtToken(list, tok, j) == true)  // kept folded
      invariant more ==> r == Before(filters, ParseFiltersSpec(TokensFrom(list, j)))
      invariant !more ==> outcome == FiltersOutcome(r)
      invariant !more && r.Parsed? ==> filters == r.filters && (Stands(list, tok, j, r.rest) == true)
      decreases more, |list.items| - j
    {
      more, outcome, filters, tok, j := ParseNextFilter(list, tok, filters, j);
    }
  }

  // There is a token, and it is this word.
  method TokenIs(list: StrList, tok: StrList?, word: CString, ghost k: nat) returns (b: bool)
    requires AtToken(list, tok, k)
    ensures b == StartsWith(TokensFrom(list, k), word)
    ensures b ==> tok != null && AtToken(list, tok.next, k + 1) && TokensFrom(list, k)[1..] == TokensFrom(list, k + 1)
  {
    if tok == null {
      return false;
    }
    TokenNext(list, tok, k);
    b := StrIEq(tok.str.value, word);
  }

  // NULL when there is no WHERE, else the chain; a WHERE that cannot be parsed ends
  // the program.
  method TryParseWhere(list: StrList, split: StrList?, ghost k: nat)
    returns (outcome: Outcome, filters: seq<Filter>, rest: StrList?, ghost j: nat)
    requires AtToken(list, split, k)
    ensures outcome == WhereOutcome(ParseWhereSpec(TokensFrom(list, k)))
    ensures var w := ParseWhereSpec(TokensFrom(list, k));
            (w.NoWhere? ==> filters == [] && rest == split) && (w.WhereFound? ==> filters == w.filters)
    ensures var w := ParseWhereSpec(TokensFrom(list, k));
            (w.NoWhere? ==> j == k) && (w.WhereFound? ==> Stands(list, rest, j, w.rest))
  {
    outcome, filters, rest, j := Accepted, [], split, k;
    var isWhere := TokenIs(list, split, "WHERE", k);
    if !isWhere {
      return;
    }
    ghost var toks := TokensFrom(list, k);
    ghost var r, w := ParseFiltersSpec(toks[1..]), ParseWhereSpec(toks);
    assert w == if r.Parsed? then WhereFound(r.filters, r.rest) else if r == ParseError then WhereFatal else WhereCrash;
    outcome, filters, rest, j := ParseFilters(list, split.next, k + 1);
    if outcome == Rejected {
      outcome := Fatal;
    }
  }

  // The column and the direction of an ORDER BY.
  method OrderTerms(list: StrList, start: StrList?, ghost k: nat)
    returns (found: bool, column: CString, direction: SortDirection, rest: StrList?)
    requires AtToken(list, start, k)
    ensures found == (|TokensFrom(list, k)| >= 2)
    ensures var toks := TokensFrom(list, k);
            found ==>
              column == toks[0] && direction == SortDirectionFromStr(toks[1]) && Stands(list, rest, k + 2, toks[2..])
  {
    found, column, direction, rest := false, [], SortInvalid, null;
    if start == null {
      return;
    }
    TokenNext(list, start, k);
    column := start.str.value;
    var tok := start.next;
    if tok == null {
      return;
    }
    TokenNext(list, tok, k + 1);
    return true, column, SortDirectionFromStr(tok.str.value), tok.next;
  }

  method TryParseOrder(list: StrList, split: StrList?, ghost k: nat)
    returns (found: bool, column: CString, direction: SortDirection, rest: StrList?, ghost j: nat)
    requires AtToken(list, split, k)
    ensures found == ParseOrderSpec(TokensFrom(list, k)).OrderFound?
    ensures var o := ParseOrderSpec(TokensFrom(list, k));
            if found then column == o.column && direction == o.direction else rest == split
    ensures var o := ParseOrderSpec(TokensFrom(list, k)); if found then Stands(list, rest, j, o.rest) else j == k
  {
    found, column, direction, rest, j := false, [], SortInvalid, split, k;
    var isOrder := TokenIs(list, split, "ORDER", k);
    if !isOrder {
      return;
    }
    var tok := split.next;
    var isBy := TokenIs(list, tok, "BY", k + 1);
    if !isBy {
      return;
    }
    found, column, direction, tok := OrderTerms(list, tok.next, k + 2);
    if found {
      rest, j := tok, k + 4;
    }
  }

  function TailOutcome(outcome: Outcome, tail: SelectTail): TailResult {
    match outcome
    case Accepted => TailDone(tail)
    case Rejected => TailError
    case Fatal => TailFatal
    case Crashed => TailCrash
    case Stuck => TailStuck
  }

  // One round of the clause loop; no progress means that it goes round for ever.
  method ParseRound(list: StrList, start: StrList, before: SelectTail, ghost i: nat)
    returns (outcome: Outcome, tail: SelectTail, tok: StrList?, ghost j: nat)
    requires AtToken(list, start, i) && TokensFrom(list, i) != []
    ensures outcome == Accepted ==>
              && i < j && AtToken(list, tok, j)
              && ParseClausesSpec(TokensFrom(list, i), before) == ParseClausesSpec(TokensFrom(list, j), tail)
    ensures outcome != Accepted ==> ParseClausesSpec(TokensFrom(list, i), before) == TailOutcome(outcome, tail)
  {
    var filters, column, direction, found;
    tail := before;
    outcome, filters, tok, j := TryParseWhere(list, start, i);
    if outcome != Accepted {
      return;
    }
    if filters != [] {
      tail := tail.(filters := filters);
    }
    found, column, direction, tok, j := TryParseOrder(list, tok, j);
    if found {
      if direction == SortInvalid {
        return Rejected, tail, tok, j;
      }
      tail := tail.(sort := Some((column, direction)));
    }
    if tok == start {
      return Stuck, tail, tok, j;
    }
  }

  // The clause loop of SELECT.
  method ParseClauses(list: StrList, start: StrList?, ghost k: nat) returns (outcome: Outcome, tail: SelectTail)
    requires AtToken(list, start, k)
    ensures TailOutcome(outcome, tail) == ParseClausesSpec(TokensFrom(list, k), SelectTail([], None))
  {
    outcome, tail := Accepted, SelectTail([], None);
    var tok := start;
    ghost var i := k;
    while tok != null
      invariant outcome == Accepted && (AtToken(list, tok, i) == true)  // kept folded
      invariant ParseClausesSpec(TokensFrom(list, i), tail)
             == ParseClausesSpec(TokensFrom(list, k), SelectTail([], None))
      decreases |list.items| - i
    {
      TokenNext(list, tok, i);
      outcome, tail, tok, i := ParseRound(list, tok, tail, i);
      if outcome != Accepted {
        return;
      }
    }
  }
}
