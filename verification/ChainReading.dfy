// How a WHERE chain reads: AND before OR, as in SQL, or from left to right.
module ChainReading {
  import opened CText
  import opened Values
  import opened IntLists
  import opened Filters

  // The relations between the filters of a chain.
  function Joints(chain: seq<Filter>): (rels: seq<FilterRelation>)
    requires chain != []
    ensures |rels| == |chain| - 1
  {
    Relations(chain, RelNone)[1..]
  }

  // The usual reading of the chain on one row.
  predicate UsualTruth(cols: seq<ColumnMeta>, conv: IntConversion, chain: seq<Filter>, row: Row)
    requires RowTyped(cols, row) && chain != []
  {
    AndBeforeOr(Passes(cols, conv, chain[0], row), Joints(chain), Conditions(cols, conv, chain, row)[1..])
  }

  // The rows listed for the chain are those that the usual reading is true of.
  ghost predicate ReadsUsually(cols: seq<ColumnMeta>, conv: IntConversion, rows: seq<Row>, chain: seq<Filter>)
    requires WellTyped(cols, rows) && chain != []
  {
    var found := ChainRows(cols, conv, rows, chain, RelNone, []);
    found.Rows? ==>
      forall r :: 0 <= r < |rows| ==>
        RowTyped(cols, rows[r]) && (r in found.list <==> UsualTruth(cols, conv, chain, rows[r]))
  }

  ghost predicate JointsReadUsually(conv: IntConversion, rels: seq<FilterRelation>) {
    forall cols, rows, chain {:trigger ReadsUsually(cols, conv, rows, chain)} ::
      WellTyped(cols, rows) && chain != [] && Joints(chain) == rels ==> ReadsUsually(cols, conv, rows, chain)
  }

  // Without AND behind an OR the rows found are those of the usual reading.
  lemma NoAndAfterOrReadsUsually(cols: seq<ColumnMeta>, conv: IntConversion, rows: seq<Row>, chain: seq<Filter>)
    requires WellTyped(cols, rows) && chain != []
    requires AndOr(Joints(chain)) && NoAndAfterOr(Joints(chain))
    ensures ReadsUsually(cols, conv, rows, chain)
  {
    if ChainRows(cols, conv, rows, chain, RelNone, []).Rows? {
      ChainMeaning(cols, conv, rows, chain, RelNone, []);
      UsualReadingExactly(Joints(chain));
      forall r | 0 <= r < |rows|
        ensures RowTyped(cols, rows[r])
        ensures ChainTruth(cols, conv, chain, RelNone, false, rows[r]) == UsualTruth(cols, conv, chain, rows[r])
      {
        assert RowTyped(cols, rows[r]);
        var vals := Conditions(cols, conv, chain, rows[r]);
        ChainIsLeftToRight(cols, conv, chain, RelNone, false, rows[r]);
        assert LeftToRight(false, Relations(chain, RelNone), vals) == LeftToRight(vals[0], Joints(chain), vals[1..]);
        assert LeftToRight(vals[0], Joints(chain), vals[1..]) == AndBeforeOr(vals[0], Joints(chain), vals[1..]);
      }
    }
  }

  // ---------------------------------------------------------------------
  // A chain that is misread, for any other relations
  // ---------------------------------------------------------------------

  const ONE_COLUMN: seq<ColumnMeta> := [ColumnMeta(0, "a", String)]
  const ONE_ROW: seq<Row> := [[Text("t")]]

  // Filters on the one cell that come out as given.
  function Outcomes(vals: seq<bool>, rels: seq<FilterRelation>): (chain: seq<Filter>)
    requires |vals| == |rels| + 1
    ensures |chain| == |vals|
  {
    if rels == [] then [Outcome(vals[0], RelNone)] else [Outcome(vals[0], rels[0])] + Outcomes(vals[1..], rels[1..])
  }

  function Outcome(val: bool, rel: FilterRelation): Filter {
    Filter("a", Equal, if val then "t" else "f", rel)
  }

  lemma OutcomeWorks(conv: IntConversion, val: bool, rel: FilterRelation)
    ensures RowTyped(ONE_COLUMN, ONE_ROW[0])
    ensures Passes(ONE_COLUMN, conv, Outcome(val, rel), ONE_ROW[0]) == val
    ensures Usable(ONE_COLUMN, conv, ONE_ROW, Outcome(val, rel))
  {
    var text: CString := if val then "t" else "f";
    assert FindColumn(ONE_COLUMN, "a") == 0;
    assert Resolve(ONE_COLUMN, conv, Outcome(val, rel)) == Column(0, Text(text));
    StrCmpOrders("t", text);
  }

  lemma {:induction false} OutcomesWork(conv: IntConversion, vals: seq<bool>, rels: seq<FilterRelation>,
                                        rel: FilterRelation)
    requires |vals| == |rels| + 1
    ensures Relations(Outcomes(vals, rels), rel) == [rel] + rels
    ensures RowTyped(ONE_COLUMN, ONE_ROW[0]) && Conditions(ONE_COLUMN, conv, Outcomes(vals, rels), ONE_ROW[0]) == vals
    ensures forall f :: f in Outcomes(vals, rels) ==> Usable(ONE_COLUMN, conv, ONE_ROW, f)
    decreases |rels|
  {
    var chain := Outcomes(vals, rels);
    OutcomeWorks(conv, vals[0], chain[0].nextRelation);
    assert chain[0] == Outcome(vals[0], chain[0].nextRelation);
    if rels != [] {
      OutcomesWork(conv, vals[1..], rels[1..], rels[0]);
      assert chain[1..] == Outcomes(vals[1..], rels[1..]);
    }
  }

  lemma NothingListed(conv: IntConversion, chain: seq<Filter>)
    requires WellTyped(ONE_COLUMN, ONE_ROW) && RelInvalid !in Relations(chain, RelNone)
    requires forall f :: f in chain ==> Usable(ONE_COLUMN, conv, ONE_ROW, f)
    requires !ChainTruth(ONE_COLUMN, conv, chain, RelNone, false, ONE_ROW[0])
    ensures ChainRows(ONE_COLUMN, conv, ONE_ROW, chain, RelNone, []) == Rows([])
  {
    EvaluatesExactly(ONE_COLUMN, conv, ONE_ROW, chain, RelNone, []);
    ChainMeaning(ONE_COLUMN, conv, ONE_ROW, chain, RelNone, []);
    var list := ChainRows(ONE_COLUMN, conv, ONE_ROW, chain, RelNone, []).list;
    if list != [] {
      var r := SomeElement(list);
      assert false;
    }
  }

  // True in the usual reading, but not found.
  lemma Misread(conv: IntConversion, rels: seq<FilterRelation>)
    requires AndOr(rels) && !NoAndAfterOr(rels)
    ensures var chain := Outcomes([true] + Separating(rels), rels);
            && Joints(chain) == rels && WellTyped(ONE_COLUMN, ONE_ROW)
            && ChainRows(ONE_COLUMN, conv, ONE_ROW, chain, RelNone, []) == Rows([])
            && UsualTruth(ONE_COLUMN, conv, chain, ONE_ROW[0])
  {
    var vals := [true] + Separating(rels);
    var chain := Outcomes(vals, rels);
    OutcomesWork(conv, vals, rels, RelNone);
    SeparatingWorks(rels);
    assert ([RelNone] + rels)[1..] == rels && vals[1..] == Separating(rels);
    ChainIsLeftToRight(ONE_COLUMN, conv, chain, RelNone, false, ONE_ROW[0]);
    NothingListed(conv, chain);
  }

  // Chains read as usual, on every table, exactly when no AND stands behind an OR.
  lemma ChainReadingExactly(conv: IntConversion, rels: seq<FilterRelation>)
    requires AndOr(rels)
    ensures JointsReadUsually(conv, rels) <==> NoAndAfterOr(rels)
  {
    if NoAndAfterOr(rels) {
      forall cols, rows, chain | WellTyped(cols, rows) && chain != [] && Joints(chain) == rels
        ensures ReadsUsually(cols, conv, rows, chain)
      {
        NoAndAfterOrReadsUsually(cols, conv, rows, chain);
      }
    } else {
      Misread(conv, rels);
      assert !ReadsUsually(ONE_COLUMN, conv, ONE_ROW, Outcomes([true] + Separating(rels), rels));
    }
  }
}
