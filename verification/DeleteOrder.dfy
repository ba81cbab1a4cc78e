// When DELETE ... WHERE removes exactly the rows its chain is true of: when the
// list of matches ascends, and when that is.
module DeleteOrder {
  import opened Integers
  import opened Values
  import opened RowLists
  import opened IntLists
  import opened Filters

  // ---------------------------------------------------------------------
  // DELETE moves rows about without looking at them
  // ---------------------------------------------------------------------

  // The rows with these numbers.
  function Pick<T>(rows: seq<T>, ids: seq<int>): (picked: seq<T>)
    requires Below(ids, |rows|)
    ensures |picked| == |ids| && forall i :: 0 <= i < |ids| ==> picked[i] == rows[ids[i]]
  {
    seq(|ids|, i requires 0 <= i < |ids| => rows[ids[i]])
  }

  lemma {:induction false} DeletePicks<T>(rows: seq<T>, ids: seq<int>, list: seq<int>, done: nat)
    requires Below(ids, |rows|) && Ascending(ids)
    ensures var d := DeleteLoop(ids, list, done);
            && Below(d.rows, |rows|) && Ascending(d.rows) && |d.rows| <= |ids|
            && (d.ok ==> |d.rows| == |ids| - |list|)
            && DeleteLoop(Pick(rows, ids), list, done) == DeleteResult(d.ok, Pick(rows, d.rows))
    decreases |list|
  {
    if list != [] {
      var i := WrapSub(list[0], done);
      if i < |ids| {
        var left := RemoveAt(ids, i);
        assert Pick(rows, left) == RemoveAt(Pick(rows, ids), i);
        DeletePicks(rows, left, list[1..], done + 1);
      }
    }
  }

  // Row numbers below n that are ascending, unlisted and as many as there are
  // unlisted ones are all of them.
  lemma {:induction false} AllUnlisted(ids: seq<int>, s: set<int>, first: int, n: nat)
    requires Ascending(ids) && |ids| == |Kept(s, first, n)|
    requires forall i :: 0 <= i < |ids| ==> first <= ids[i] < first + n && ids[i] !in s
    ensures ids == Kept(s, first, n)
    decreases n
  {
    if n > 0 {
      var later := Kept(s, first + 1, n - 1);
      if ids != [] && ids[0] == first {
        AllUnlisted(ids[1..], s, first + 1, n - 1);
      } else if first in s {
        AllUnlisted(ids, s, first + 1, n - 1);
      } else {
        AtMostUnlisted(ids, s, first + 1, n - 1);
        assert false;
      }
    }
  }

  lemma {:induction false} AtMostUnlisted(ids: seq<int>, s: set<int>, first: int, n: nat)
    requires Ascending(ids)
    requires forall i :: 0 <= i < |ids| ==> first <= ids[i] < first + n && ids[i] !in s
    ensures |ids| <= |Kept(s, first, n)|
    decreases n
  {
    if n > 0 {
      AtMostUnlisted(if ids != [] && ids[0] == first then ids[1..] else ids, s, first + 1, n - 1);
    }
  }

  lemma {:induction false} UnmatchedAreFalse(cols: seq<ColumnMeta>, conv: IntConversion, chain: seq<Filter>,
                                             rows: seq<Row>)
    requires WellTyped(cols, rows)
    ensures forall row :: row in Unmatched(cols, conv, chain, rows) ==>
              RowTyped(cols, row) && !ChainTruth(cols, conv, chain, RelNone, false, row)
  {
    if rows != [] {
      assert RowTyped(cols, rows[0]);
      UnmatchedAreFalse(cols, conv, chain, rows[1..]);
    }
  }

  // For the chain and the table at hand: DELETE leaves the rows the chain is false
  // of, in order, if and only if the list of matches ascends.
  lemma DeleteExactly(cols: seq<ColumnMeta>, conv: IntConversion, chain: seq<Filter>, rows: seq<Row>)
    requires WellTyped(cols, rows) && |rows| < TWO64
    requires ChainRows(cols, conv, rows, chain, RelNone, []).Rows?
    ensures var list := ChainRows(cols, conv, rows, chain, RelNone, []).list;
            DeleteLoop(rows, list, 0) == DeleteResult(true, Unmatched(cols, conv, chain, rows)) <==> Ascending(list)
  {
    var list := ChainRows(cols, conv, rows, chain, RelNone, []).list;
    if Ascending(list) {
      DeleteLeavesUnmatched(cols, conv, chain, rows);
    }
    if DeleteLoop(rows, list, 0) == DeleteResult(true, Unmatched(cols, conv, chain, rows)) {
      ExactIsAscending(cols, conv, chain, rows, list);
    }
  }

  lemma ExactIsAscending(cols: seq<ColumnMeta>, conv: IntConversion, chain: seq<Filter>, rows: seq<Row>, list: seq<int>)
    requires WellTyped(cols, rows) && |rows| < TWO64
    requires ChainRows(cols, conv, rows, chain, RelNone, []) == Rows(list)
    requires DeleteLoop(rows, list, 0) == DeleteResult(true, Unmatched(cols, conv, chain, rows))
    ensures Ascending(list)
  {
    var n := |rows|;
    var ids := Kept({}, 0, n);
    NumbersFrom(0, n);
    assert Pick(rows, ids) == rows;
    DeletePicks(rows, ids, list, 0);
    var left := DeleteLoop(ids, list, 0).rows;
    ChainMeaning(cols, conv, rows, chain, RelNone, []);
    UnmatchedAreFalse(cols, conv, chain, rows);
    forall i | 0 <= i < |left|
      ensures left[i] !in Elements(list)
    {
      assert Pick(rows, left)[i] in Unmatched(cols, conv, chain, rows);
    }
    KeptCount(list, n);
    AllUnlisted(left, Elements(list), 0, n);
    SurvivingNumbers(Elements(list), 0, n);
    ExactOnNumbersIsAscending(list, n);
  }

  lemma KeptCount(list: seq<int>, n: nat)
    requires Distinct(list) && Below(list, n)
    ensures |Kept(Elements(list), 0, n)| == n - |list|
  {
    var s := Elements(list);
    KeptAndListed(s, 0, n);
    assert Between(s, 0, n) == s;
    DistinctElements(list);
    NumbersFrom(0, n);
    assert |multiset(Kept(s, 0, n)) + multiset(s)| == |Kept(s, 0, n)| + |multiset(list)|;
  }

  // The first row that is listed at a place beyond its number: the corrected number
  // wraps around there.
  predicate WrapsAt(list: seq<int>, done: nat, i: nat) {
    i < |list| && list[i] < done + i && forall j :: 0 <= j < i ==> done + j <= list[j]
  }

  lemma WrapsBehind(list: seq<int>, done: nat)
    requires list != []
    ensures WrapsAt(list, done, 0) <==> list[0] < done
    ensures forall i: nat :: i > 0 ==>
              (WrapsAt(list, done, i) <==> done <= list[0] && WrapsAt(list[1..], done + 1, i - 1))
  {
    forall i: nat | i > 0
      ensures WrapsAt(list, done, i) <==> done <= list[0] && WrapsAt(list[1..], done + 1, i - 1)
    {
      assert i < |list| ==> list[i] == list[1..][i - 1];
      if i < |list| && done <= list[0] && WrapsAt(list[1..], done + 1, i - 1) {
        assert forall j :: 0 < j < i ==> list[j] == list[1..][j - 1];
      }
    }
  }

  // The loop deletes one row for each that is listed, unless it stops half-way with an
  // index out of bounds: it does so exactly when some row is listed at a place beyond
  // its number, and has deleted as many rows then as stand in front of the first such.
  lemma {:induction false} SucceedsExactly<T>(rows: seq<T>, list: seq<int>, done: nat, n: nat)
    requires |rows| + done == n < TWO64 && Below(list, n)
    ensures var d := DeleteLoop(rows, list, done);
            && (d.ok <==> forall i :: 0 <= i < |list| ==> done + i <= list[i])
            && (d.ok ==> |d.rows| == |rows| - |list|)
            && forall i: nat :: WrapsAt(list, done, i) ==> |d.rows| == |rows| - i
    decreases |list|
  {
    if list != [] {
      WrapsBehind(list, done);
      if done <= list[0] {
        assert WrapSub(list[0], done) == list[0] - done;
        SucceedsExactly(RemoveAt(rows, list[0] - done), list[1..], done + 1, n);
        assert forall i :: 0 < i < |list| ==> list[i] == list[1..][i - 1];
      } else {
        assert WrapSub(list[0], done) == list[0] - done + TWO64;
      }
    }
  }

  // ---------------------------------------------------------------------
  // When the list of matches ascends
  // ---------------------------------------------------------------------

  // The filter, by its number, that has put the row on the list for good.
  function Since(cols: seq<ColumnMeta>, conv: IntConversion, chain: seq<Filter>, rel: FilterRelation,
                 row: Row, since: Option<nat>, i: nat): (r: Option<nat>)
    requires RowTyped(cols, row)
    decreases |chain|
  {
    if chain == [] then since
    else
      Since(cols, conv, chain[1..], chain[0].nextRelation, row,
            NextSince(Passes(cols, conv, chain[0], row), rel, since, i), i + 1)
  }

  // AND can only take the row away, OR can only add it; a first filter starts anew.
  function NextSince(passes: bool, rel: FilterRelation, since: Option<nat>, i: nat): Option<nat> {
    match rel
    case And => if passes then since else None
    case Or => if since.Some? then since else if passes then Some(i) else None
    case _ => if passes then Some(i) else None
  }

  lemma {:induction false} SinceIsTruth(cols: seq<ColumnMeta>, conv: IntConversion, chain: seq<Filter>,
                                        rel: FilterRelation, row: Row, since: Option<nat>, i: nat)
    requires RowTyped(cols, row)
    ensures Since(cols, conv, chain, rel, row, since, i).Some? == ChainTruth(cols, conv, chain, rel, since.Some?, row)
    decreases |chain|
  {
    if chain != [] {
      SinceIsTruth(cols, conv, chain[1..], chain[0].nextRelation, row,
                   NextSince(Passes(cols, conv, chain[0], row), rel, since, i), i + 1);
    }
  }

  // Row x comes before row y: it was added earlier, or at once and is smaller.
  predicate Before(ages: seq<Option<nat>>, x: int, y: int) {
    && 0 <= x < |ages| && 0 <= y < |ages| && ages[x].Some? && ages[y].Some?
    && (ages[x].value < ages[y].value || (ages[x].value == ages[y].value && x < y))
  }

  predicate SortedBy(ages: seq<Option<nat>>, list: seq<int>) {
    forall a, b :: 0 <= a < b < |list| ==> Before(ages, list[a], list[b])
  }

  // The list holds the rows that have an age, by age.
  predicate Aged(ages: seq<Option<nat>>, list: seq<int>) {
    && Below(list, |ages|) && Distinct(list) && SortedBy(ages, list)
    && forall r :: 0 <= r < |ages| ==> (r in list <==> ages[r].Some?)
  }

  lemma {:induction false} AddAllSorted(acc: seq<int>, s: seq<int>, ages: seq<Option<nat>>)
    requires SortedBy(ages, acc)
    requires forall x, y :: x in acc && y in s && y !in acc ==> Before(ages, x, y)
    requires forall a, b :: 0 <= a < b < |s| && s[a] !in acc && s[b] !in acc ==> Before(ages, s[a], s[b])
    requires Distinct(s)
    ensures SortedBy(ages, AddAll(acc, s))
    decreases |s|
  {
    if s != [] {
      var acc' := if s[0] in acc then acc else acc + [s[0]];
      assert forall x :: x in acc' ==> x in acc || x == s[0];
      assert forall b :: 0 <= b < |s[1..]| ==> s[1..][b] == s[b + 1];
      AddAllSorted(acc', s[1..], ages);
    }
  }

  lemma {:induction false} AddCommonSorted(acc: seq<int>, s: seq<int>, right: seq<int>, ages: seq<Option<nat>>)
    requires SortedBy(ages, acc)
    requires forall x, y :: x in acc && y in s && y in right && y !in acc ==> Before(ages, x, y)
    requires forall a, b :: 0 <= a < b < |s| && s[a] in right && s[b] in right ==> Before(ages, s[a], s[b])
    ensures SortedBy(ages, AddCommon(acc, s, right))
    decreases |s|
  {
    if s != [] {
      var acc' := if s[0] in right && s[0] !in acc then acc + [s[0]] else acc;
      assert forall x :: x in acc' ==> x in acc || (x == s[0] && x in right);
      assert forall b :: 0 <= b < |s[1..]| ==> s[1..][b] == s[b + 1];
      AddCommonSorted(acc', s[1..], right, ages);
    }
  }

  lemma UnionSorted(acc: seq<int>, found: seq<int>, ages: seq<Option<nat>>)
    requires SortedBy(ages, acc) && Distinct(acc) && Ascending(found)
    requires forall x, y :: x in acc && y in found && y !in acc ==> Before(ages, x, y)
    requires forall x, y :: x in found && y in found && x !in acc && y !in acc && x < y ==> Before(ages, x, y)
    ensures SortedBy(ages, UnionSeq(acc, found))
  {
    assert [] + acc == acc;
    AddAllSelf([], acc);
    AddAllSorted(acc, found, ages);
  }

  lemma IntersectSorted(acc: seq<int>, found: seq<int>, ages: seq<Option<nat>>)
    requires forall a, b :: 0 <= a < b < |acc| && acc[a] in found && acc[b] in found ==> Before(ages, acc[a], acc[b])
    ensures SortedBy(ages, IntersectSeq(acc, found))
  {
    AddCommonSorted([], acc, found, ages);
  }

  // One filter makes the next ages of the rows the order of the next list.
  lemma CombineAged(rel: FilterRelation, acc: seq<int>, found: seq<int>, ages: seq<Option<nat>>,
                    next: seq<Option<nat>>, i: nat)
    requires Aged(ages, acc) && Ascending(found) && Below(found, |ages|) && rel != RelInvalid
    requires forall r :: 0 <= r < |ages| && ages[r].Some? ==> ages[r].value < i
    requires |next| == |ages| && forall r :: 0 <= r < |ages| ==> next[r] == NextSince(r in found, rel, ages[r], i)
    ensures Aged(next, Combine(rel, acc, found).value)
    ensures forall r :: 0 <= r < |next| && next[r].Some? ==> next[r].value < i + 1
  {
    CombineMeaning(rel, acc, found, |ages|);
    match rel
    case And => IntersectSorted(acc, found, next);
    case Or =>
      assert SortedBy(next, acc);
      UnionSorted(acc, found, next);
    case _ =>
  }

  function Ages(cols: seq<ColumnMeta>, conv: IntConversion, rows: seq<Row>, chain: seq<Filter>,
                rel: FilterRelation, ages: seq<Option<nat>>, i: nat): (r: seq<Option<nat>>)
    requires WellTyped(cols, rows) && |ages| == |rows|
    ensures |r| == |rows|
  {
    seq(|rows|, r requires 0 <= r < |rows| && RowTyped(cols, rows[r]) =>
      Since(cols, conv, chain, rel, rows[r], ages[r], i))
  }

  lemma AgesNext(cols: seq<ColumnMeta>, conv: IntConversion, rows: seq<Row>, chain: seq<Filter>,
                 rel: FilterRelation, ages: seq<Option<nat>>, next: seq<Option<nat>>, i: nat)
    requires WellTyped(cols, rows) && |ages| == |next| == |rows| && chain != []
    requires forall r :: 0 <= r < |rows| ==>
               RowTyped(cols, rows[r]) && next[r] == NextSince(Passes(cols, conv, chain[0], rows[r]), rel, ages[r], i)
    ensures Ages(cols, conv, rows, chain, rel, ages, i)
         == Ages(cols, conv, rows, chain[1..], chain[0].nextRelation, next, i + 1)
  {
  }

  // Whatever the chain, its list is ordered by the filters that added the rows, and
  // by number among the rows one filter added.
  lemma {:induction false} ListedByAge(cols: seq<ColumnMeta>, conv: IntConversion, rows: seq<Row>,
                                       chain: seq<Filter>, rel: FilterRelation, acc: seq<int>,
                                       ages: seq<Option<nat>>, i: nat)
    requires WellTyped(cols, rows) && |ages| == |rows| && Aged(ages, acc)
    requires forall r :: 0 <= r < |ages| && ages[r].Some? ==> ages[r].value < i
    requires ChainRows(cols, conv, rows, chain, rel, acc).Rows?
    ensures Aged(Ages(cols, conv, rows, chain, rel, ages, i), ChainRows(cols, conv, rows, chain, rel, acc).list)
    decreases |chain|
  {
    if chain == [] {
      assert Ages(cols, conv, rows, chain, rel, ages, i) == ages;
    } else {
      var f := chain[0];
      var at := Resolve(cols, conv, f);
      var found := FindSeq(cols, rows, at.c, f.op, at.right, |rows|);
      FindSeqMeaning(cols, rows, at.c, f.op, at.right, |rows|);
      var next := seq(|rows|, r requires 0 <= r < |rows| => NextSince(r in found, rel, ages[r], i));
      CombineAged(rel, acc, found, ages, next, i);
      ListedByAge(cols, conv, rows, chain[1..], f.nextRelation, Combine(rel, acc, found).value, next, i + 1);
      assert forall r :: 0 <= r < |rows| ==> RowTyped(cols, rows[r]);
      AgesNext(cols, conv, rows, chain, rel, ages, next, i);
    }
  }

  // The number of the filter that added this row of the table.
  function AddedBy(cols: seq<ColumnMeta>, conv: IntConversion, chain: seq<Filter>, row: Row): Option<nat>
    requires RowTyped(cols, row)
  {
    Since(cols, conv, chain, RelNone, row, None, 0)
  }

  // No row was added by a later filter than a row below it.
  predicate AddedInOrder(cols: seq<ColumnMeta>, conv: IntConversion, chain: seq<Filter>, rows: seq<Row>)
    requires WellTyped(cols, rows)
  {
    forall r, q :: 0 <= r < q < |rows| ==>
      && RowTyped(cols, rows[r]) && RowTyped(cols, rows[q])
      && var early, late := AddedBy(cols, conv, chain, rows[r]), AddedBy(cols, conv, chain, rows[q]);
         early.Some? && late.Some? ==> early.value <= late.value
  }

  lemma AgedAscends(ages: seq<Option<nat>>, list: seq<int>)
    requires Aged(ages, list)
    ensures Ascending(list) <==>
            forall r, q :: 0 <= r < q < |ages| && ages[r].Some? && ages[q].Some? ==> ages[r].value <= ages[q].value
  {
    if Ascending(list) {
      forall r, q | 0 <= r < q < |ages| && ages[r].Some? && ages[q].Some?
        ensures ages[r].value <= ages[q].value
      {
        var a :| 0 <= a < |list| && list[a] == r;
        var b :| 0 <= b < |list| && list[b] == q;
        assert a < b;
        assert Before(ages, list[a], list[b]);
      }
    } else {
      var a, b :| 0 <= a < b < |list| && list[a] >= list[b];
      assert list[a] != list[b] && Before(ages, list[a], list[b]);
    }
  }

  // The list of a chain ascends exactly when its rows were added in order.
  lemma AscendingExactly(cols: seq<ColumnMeta>, conv: IntConversion, chain: seq<Filter>, rows: seq<Row>)
    requires WellTyped(cols, rows) && ChainRows(cols, conv, rows, chain, RelNone, []).Rows?
    ensures Ascending(ChainRows(cols, conv, rows, chain, RelNone, []).list) <==> AddedInOrder(cols, conv, chain, rows)
  {
    var none: seq<Option<nat>> := seq(|rows|, _ => None);
    ListedByAge(cols, conv, rows, chain, RelNone, [], none, 0);
    var ages := Ages(cols, conv, rows, chain, RelNone, none, 0);
    forall r | 0 <= r < |rows|
      ensures RowTyped(cols, rows[r]) && ages[r] == AddedBy(cols, conv, chain, rows[r])
    {
      assert RowTyped(cols, rows[r]);
    }
    AgedAscends(ages, ChainRows(cols, conv, rows, chain, RelNone, []).list);
  }

  // So this is when DELETE is exact, row by row.
  lemma DeleteExactlyInOrder(cols: seq<ColumnMeta>, conv: IntConversion, chain: seq<Filter>, rows: seq<Row>)
    requires WellTyped(cols, rows) && |rows| < TWO64
    requires ChainRows(cols, conv, rows, chain, RelNone, []).Rows?
    ensures var list := ChainRows(cols, conv, rows, chain, RelNone, []).list;
            DeleteLoop(rows, list, 0) == DeleteResult(true, Unmatched(cols, conv, chain, rows))
            <==> AddedInOrder(cols, conv, chain, rows)
  {
    DeleteExactly(cols, conv, chain, rows);
    AscendingExactly(cols, conv, chain, rows);
  }
}
