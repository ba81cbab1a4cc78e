// Deleting a list of row numbers one by one while correcting the later ones,
// seen on a plain sequence of rows.
module RowLists {

  import opened Integers

  function RemoveAt<T>(rows: seq<T>, i: nat): (r: seq<T>)
    requires i < |rows|
    ensures |r| == |rows| - 1
  {
    rows[..i] + rows[i + 1..]
  }

  datatype DeleteResult<T> = DeleteResult(ok: bool, rows: seq<T>)

  // The loop of the filtered DELETE with `done` rows deleted so far; it stops at
  // the first row number out of bounds.
  function DeleteLoop<T>(rows: seq<T>, list: seq<int>, done: nat): DeleteResult<T> {
    if list == [] then DeleteResult(true, rows)
    else
      var i := WrapSub(list[0], done);
      if i >= |rows| then DeleteResult(false, rows)
      else DeleteLoop(RemoveAt(rows, i), list[1..], done + 1)
  }

  // The rows, numbered from `first` on, whose number is not in s.
  function Survivors<T>(rows: seq<T>, s: set<int>, first: int): seq<T> {
    if rows == [] then []
    else (if first in s then [] else [rows[0]]) + Survivors(rows[1..], s, first + 1)
  }

  predicate Ascending(list: seq<int>) {
    forall i, j :: 0 <= i < j < |list| ==> list[i] < list[j]
  }

  predicate Distinct(list: seq<int>) {
    forall i, j :: 0 <= i < j < |list| ==> list[i] != list[j]
  }

  predicate Below(list: seq<int>, n: nat) {
    forall i :: 0 <= i < |list| ==> 0 <= list[i] < n
  }

  function Elements(list: seq<int>): set<int> {
    set x | x in list
  }

  // ---------------------------------------------------------------------
  // Ascending lists are deleted exactly
  // ---------------------------------------------------------------------

  // No listed number among the next n rows: they all stay.
  lemma {:induction false} SkipUnlisted<T>(rows: seq<T>, s: set<int>, first: int, n: nat)
    requires n <= |rows|
    requires forall x :: first <= x < first + n ==> x !in s
    ensures Survivors(rows, s, first) == rows[..n] + Survivors(rows[n..], s, first + n)
  {
    if n == 0 {
      assert rows[0..] == rows;
    } else {
      SkipUnlisted(rows[1..], s, first + 1, n - 1);
      assert rows[1..][n - 1..] == rows[n..];
      assert [rows[0]] + rows[1..][..n - 1] == rows[..n];
    }
  }

  lemma {:induction false} SurvivorsAgree<T>(rows: seq<T>, s: set<int>, t: set<int>, first: int)
    requires forall x :: first <= x < first + |rows| ==> (x in s <==> x in t)
    ensures Survivors(rows, s, first) == Survivors(rows, t, first)
  {
    if rows != [] {
      SurvivorsAgree(rows[1..], s, t, first + 1);
    }
  }

  lemma SurvivorsOfFirst<T>(rest: seq<T>, list: seq<int>, first: nat)
    requires list != [] && Ascending(list) && first <= list[0] < first + |rest|
    ensures var n := list[0] - first;
            Survivors(rest, Elements(list), first)
            == rest[..n] + Survivors(rest[n + 1..], Elements(list[1..]), list[0] + 1)
  {
    var n := list[0] - first;
    SkipUnlisted(rest, Elements(list), first, n);
    assert rest[n..][1..] == rest[n + 1..];
    assert list == [list[0]] + list[1..];
    SurvivorsAgree(rest[n + 1..], Elements(list), Elements(list[1..]), list[0] + 1);
  }

  lemma DeleteFirst<T>(kept: seq<T>, rest: seq<T>, list: seq<int>, done: nat, n: nat)
    requires list != [] && list[0] == |kept| + done + n && n < |rest| && |kept| + n < TWO64
    ensures DeleteLoop(kept + rest, list, done) == DeleteLoop((kept + rest[..n]) + rest[n + 1..], list[1..], done + 1)
  {
    assert WrapSub(list[0], done) == |kept| + n;
    assert RemoveAt(kept + rest, |kept| + n) == (kept + rest[..n]) + rest[n + 1..];
  }

  // kept are the survivors so far, rest the untouched rows from number `first` on.
  lemma {:induction false} DeleteAscendingFrom<T>(kept: seq<T>, rest: seq<T>, list: seq<int>, done: nat, first: nat)
    requires |kept| + done == first
    requires Ascending(list) && first + |rest| <= TWO64
    requires forall i :: 0 <= i < |list| ==> first <= list[i] < first + |rest|
    ensures DeleteLoop(kept + rest, list, done) == DeleteResult(true, kept + Survivors(rest, Elements(list), first))
    decreases |list|
  {
    var left := Survivors(rest, Elements(list), first);
    if list == [] {
      SkipUnlisted(rest, Elements(list), first, |rest|);
      assert left == rest;
    } else {
      var n := list[0] - first;
      var kept', rest' := kept + rest[..n], rest[n + 1..];
      var left' := Survivors(rest', Elements(list[1..]), list[0] + 1);
      DeleteFirst(kept, rest, list, done, n);
      DeleteAscendingFrom(kept', rest', list[1..], done + 1, list[0] + 1);
      assert left == rest[..n] + left' by {
        SurvivorsOfFirst(rest, list, first);
      }
      assert kept' + left' == kept + left;
    }
  }

  lemma DeleteAscending<T>(rows: seq<T>, list: seq<int>)
    requires Ascending(list) && Below(list, |rows|) && |rows| <= TWO64
    ensures DeleteLoop(rows, list, 0) == DeleteResult(true, Survivors(rows, Elements(list), 0))
  {
    DeleteAscendingFrom([], rows, list, 0, 0);
    assert [] + rows == rows;
    assert [] + Survivors(rows, Elements(list), 0) == Survivors(rows, Elements(list), 0);
  }

  // ---------------------------------------------------------------------
  // ... and no other list is
  // ---------------------------------------------------------------------

  function Sum(s: seq<int>): int {
    if s == [] then 0 else s[0] + Sum(s[1..])
  }

  lemma {:induction false} SumAppend(a: seq<int>, b: seq<int>)
    ensures Sum(a + b) == Sum(a) + Sum(b)
  {
    if a == [] {
      assert a + b == b;
    } else {
      assert (a + b)[1..] == a[1..] + b;
      SumAppend(a[1..], b);
    }
  }

  lemma SumRemoveAt(s: seq<int>, i: nat)
    requires i < |s|
    ensures Sum(RemoveAt(s, i)) == Sum(s) - s[i]
  {
    SumAppend(s[..i], s[i..]);
    assert s[..i] + s[i..] == s && s[i..][1..] == s[i + 1..];
    SumAppend(s[..i], s[i + 1..]);
  }

  lemma MultisetRemoveAt(s: seq<int>, i: nat)
    requires i < |s|
    ensures multiset(RemoveAt(s, i)) == multiset(s) - multiset{s[i]}
  {
    assert s == s[..i] + [s[i]] + s[i + 1..];
  }

  lemma {:induction false} SumPermutation(a: seq<int>, b: seq<int>)
    requires multiset(a) == multiset(b)
    ensures Sum(a) == Sum(b)
    decreases |a|
  {
    if a == [] {
      assert |multiset(b)| == 0;
    } else {
      assert a[0] in multiset(b);
      var i :| 0 <= i < |b| && b[i] == a[0];
      MultisetRemoveAt(a, 0);
      MultisetRemoveAt(b, i);
      SumPermutation(RemoveAt(a, 0), RemoveAt(b, i));
      SumRemoveAt(a, 0);
      SumRemoveAt(b, i);
    }
  }

  // A strictly ascending sequence with at most `gaps` numbers missing below each entry.
  predicate Gappy(s: seq<int>, gaps: nat) {
    Ascending(s) && forall i :: 0 <= i < |s| ==> i <= s[i] <= i + gaps
  }

  lemma GappyRemoveAt(s: seq<int>, gaps: nat, i: nat)
    requires Gappy(s, gaps) && i < |s|
    ensures Gappy(RemoveAt(s, i), gaps + 1)
  {
  }

  // Row numbers as rows: every deletion takes away a number at most as large as
  // the one listed, and if none is smaller the list was ascending.
  lemma {:induction false} RemovedAtMostListed(s: seq<int>, list: seq<int>, done: nat)
    requires Gappy(s, done) && |s| + done < TWO64 && Distinct(list) && Below(list, |s| + done)
    requires DeleteLoop(s, list, done).ok
    ensures Sum(DeleteLoop(s, list, done).rows) >= Sum(s) - Sum(list)
    ensures Sum(DeleteLoop(s, list, done).rows) == Sum(s) - Sum(list)
            ==> Ascending(list) && (list != [] ==> done <= list[0] && s[list[0] - done] == list[0])
    decreases |list|
  {
    if list != [] {
      var i, rest := WrapSub(list[0], done), list[1..];
      assert i == list[0] - done;
      var t := RemoveAt(s, i);
      var left := DeleteLoop(t, rest, done + 1).rows;
      assert DeleteLoop(s, list, done).rows == left && Sum(list) == list[0] + Sum(rest);
      GappyRemoveAt(s, done, i);
      assert Distinct(rest) && Below(rest, |t| + done + 1);
      RemovedAtMostListed(t, rest, done + 1);
      SumRemoveAt(s, i);
      assert s[i] <= list[0];
      if Sum(left) == Sum(s) - Sum(list) && rest != [] {
        AscendingCons(s, list, done);
      }
    }
  }

  lemma AscendingCons(s: seq<int>, list: seq<int>, done: nat)
    requires Gappy(s, done) && |list| > 1 && list[0] != list[1] && Ascending(list[1..])
    requires 0 <= list[0] - done < |s| && s[list[0] - done] == list[0]
    requires done + 1 <= list[1] && list[1] - done - 1 < |s| - 1
    requires RemoveAt(s, list[0] - done)[list[1] - done - 1] == list[1]
    ensures Ascending(list)
  {
  }

  // ---------------------------------------------------------------------
  // What survives, row by row
  // ---------------------------------------------------------------------

  // The numbers of the surviving rows.
  function Kept(s: set<int>, first: int, n: nat): seq<int>
    decreases n
  {
    if n == 0 then [] else (if first in s then [] else [first]) + Kept(s, first + 1, n - 1)
  }

  lemma {:induction false} KeptNumbers(s: set<int>, first: int, n: nat)
    ensures var kept := Kept(s, first, n);
            && Ascending(kept)
            && (forall i :: 0 <= i < |kept| ==> first <= kept[i] < first + n)
            && (forall x :: x in kept <==> first <= x < first + n && x !in s)
    decreases n
  {
    if n > 0 {
      KeptNumbers(s, first + 1, n - 1);
    }
  }

  // Survivors is the order-preserving selection: its i-th row is the row with
  // the i-th number that is not in s.
  lemma {:induction false} SurvivorsSelect<T>(rows: seq<T>, s: set<int>, first: int)
    ensures var kept := Kept(s, first, |rows|);
            && |Survivors(rows, s, first)| == |kept|
            && (forall i :: 0 <= i < |kept| ==>
                  first <= kept[i] < first + |rows| && Survivors(rows, s, first)[i] == rows[kept[i] - first])
    decreases |rows|
  {
    if rows != [] {
      var tail := rows[1..];
      SurvivorsSelect(tail, s, first + 1);
      KeptNumbers(s, first + 1, |tail|);
      ShiftedSelection(rows, Kept(s, first + 1, |tail|), Survivors(tail, s, first + 1), first);
    }
  }

  lemma ShiftedSelection<T>(rows: seq<T>, later: seq<int>, rest: seq<T>, first: int)
    requires rows != [] && |rest| == |later|
    requires forall i :: 0 <= i < |later| ==> first < later[i] < first + |rows|
    requires forall i :: 0 <= i < |later| ==> rest[i] == rows[1..][later[i] - (first + 1)]
    ensures forall i :: 0 <= i < |later| ==> rest[i] == rows[later[i] - first]
    ensures forall i :: 0 <= i < 1 + |later| ==> ([rows[0]] + rest)[i] == rows[([first] + later)[i] - first]
  {
  }

  lemma {:induction false} NumbersFrom(first: int, n: nat)
    ensures |Kept({}, first, n)| == n
    ensures forall i :: 0 <= i < n ==> Kept({}, first, n)[i] == first + i
    decreases n
  {
    if n > 0 {
      NumbersFrom(first + 1, n - 1);
    }
  }

  function Between(s: set<int>, first: int, n: nat): set<int> {
    set x | x in s && first <= x < first + n
  }

  lemma {:induction false} SurvivingNumbers(s: set<int>, first: int, n: nat)
    ensures Survivors(Kept({}, first, n), s, first) == Kept(s, first, n)
    decreases n
  {
    if n > 0 {
      SurvivingNumbers(s, first + 1, n - 1);
      var ids := Kept({}, first, n);
      assert ids[1..] == Kept({}, first + 1, n - 1) && ids[0] == first;
    }
  }

  lemma {:induction false} KeptAndListed(s: set<int>, first: int, n: nat)
    ensures multiset(Kept(s, first, n)) + multiset(Between(s, first, n)) == multiset(Kept({}, first, n))
    decreases n
  {
    if n > 0 {
      KeptAndListed(s, first + 1, n - 1);
      BetweenStep(s, first, n);
    } else {
      assert Between(s, first, 0) == {};
    }
  }

  lemma BetweenStep(s: set<int>, first: int, n: nat)
    requires n > 0
    ensures var later := Between(s, first + 1, n - 1);
            multiset(Between(s, first, n)) == multiset(later) + (if first in s then multiset{first} else multiset{})
  {
  }

  lemma {:induction false} DistinctElements(list: seq<int>)
    requires Distinct(list)
    ensures multiset(list) == multiset(Elements(list))
  {
    if list != [] {
      DistinctElements(list[1..]);
      assert list == [list[0]] + list[1..];
      assert Elements(list) == {list[0]} + Elements(list[1..]);
      assert list[0] !in Elements(list[1..]);
    } else {
      assert Elements(list) == {};
    }
  }

  ghost predicate DeletesExactly(list: seq<int>, n: nat) {
    forall rows: seq<int> :: |rows| == n ==>
      DeleteLoop(rows, list, 0) == DeleteResult(true, Survivors(rows, Elements(list), 0))
  }

  // For a duplicate-free list of valid row numbers, which is what the filters
  // deliver, DELETE removes the listed rows and no others, whatever the rows
  // hold, exactly when the list is strictly ascending.
  lemma DeletesExactlyAscending(list: seq<int>, n: nat)
    requires Distinct(list) && Below(list, n) && n < TWO64
    ensures DeletesExactly(list, n) <==> Ascending(list)
  {
    if Ascending(list) {
      forall rows: seq<int> | |rows| == n
        ensures DeleteLoop(rows, list, 0) == DeleteResult(true, Survivors(rows, Elements(list), 0))
      {
        DeleteAscending(rows, list);
      }
    }
    if DeletesExactly(list, n) {
      NumbersFrom(0, n);
      ExactOnNumbersIsAscending(list, n);
    }
  }

  lemma ExactOnNumbersIsAscending(list: seq<int>, n: nat)
    requires Distinct(list) && Below(list, n) && n < TWO64
    requires var ids := Kept({}, 0, n);
             DeleteLoop(ids, list, 0) == DeleteResult(true, Survivors(ids, Elements(list), 0))
    ensures Ascending(list)
  {
    var ids, left := Kept({}, 0, n), Kept(Elements(list), 0, n);
    NumbersFrom(0, n);
    KeptNumbers(Elements(list), 0, n);
    assert Survivors(ids, Elements(list), 0) == left by {
      SurvivingNumbers(Elements(list), 0, n);
    }
    assert multiset(left + list) == multiset(ids) by {
      KeptAndListed(Elements(list), 0, n);
      assert Between(Elements(list), 0, n) == Elements(list);
      DistinctElements(list);
    }
    SumPermutation(left + list, ids);
    SumAppend(left, list);
    RemovedAtMostListed(ids, list, 0);
  }

  // The smallest failure: the matches 2, 1 of three rows.
  lemma DescendingPairDeletesWrongRow()
    ensures DeleteLoop([10, 11, 12], [2, 1], 0) == DeleteResult(true, [11])
    ensures Survivors([10, 11, 12], {2, 1}, 0) == [10]
  {
    assert WrapSub(2, 0) == 2 && WrapSub(1, 1) == 0;
    assert RemoveAt([10, 11, 12], 2) == [10, 11];
    assert RemoveAt([10, 11], 0) == [11];
    assert DeleteLoop([10, 11], [1], 1) == DeleteLoop([11], [], 2);
  }
}
