// Linked lists of row numbers with the -1 sentinel for the empty list, and the
// set operations the filters perform on them.
module IntLists {
  import opened RowLists

  const INTLIST_NULL: int := -1

  // ---------------------------------------------------------------------
  // Specification on sequences
  // ---------------------------------------------------------------------

  // acc followed by the elements of s that are not there yet.
  function AddAll(acc: seq<int>, s: seq<int>): seq<int>
    decreases |s|
  {
    if s == [] then acc
    else AddAll(if s[0] in acc then acc else acc + [s[0]], s[1..])
  }

  function UnionSeq(left: seq<int>, right: seq<int>): seq<int> {
    AddAll(AddAll([], left), right)
  }

  function AddCommon(acc: seq<int>, s: seq<int>, right: seq<int>): seq<int>
    decreases |s|
  {
    if s == [] then acc
    else AddCommon(if s[0] in right && s[0] !in acc then acc + [s[0]] else acc, s[1..], right)
  }

  function IntersectSeq(left: seq<int>, right: seq<int>): seq<int> {
    AddCommon([], left, right)
  }

  lemma {:induction false} AddAllElements(acc: seq<int>, s: seq<int>)
    requires Distinct(acc)
    ensures Distinct(AddAll(acc, s))
    ensures forall x :: x in AddAll(acc, s) <==> x in acc || x in s
    decreases |s|
  {
    if s != [] {
      AddAllElements(if s[0] in acc then acc else acc + [s[0]], s[1..]);
    }
  }

  lemma UnionMeaning(left: seq<int>, right: seq<int>)
    ensures Distinct(UnionSeq(left, right))
    ensures forall x :: x in UnionSeq(left, right) <==> x in left || x in right
  {
    AddAllElements([], left);
    AddAllElements(AddAll([], left), right);
  }

  lemma {:induction false} AddCommonElements(acc: seq<int>, s: seq<int>, right: seq<int>)
    requires Distinct(acc)
    ensures Distinct(AddCommon(acc, s, right))
    ensures forall x :: x in AddCommon(acc, s, right) <==> x in acc || (x in s && x in right)
    ensures Ascending(acc + s) ==> Ascending(AddCommon(acc, s, right))
    decreases |s|
  {
    if s != [] {
      var acc' := if s[0] in right && s[0] !in acc then acc + [s[0]] else acc;
      AddCommonElements(acc', s[1..], right);
      if Ascending(acc + s) {
        assert forall i :: 0 <= i < |acc' + s[1..]| ==>
            (acc' + s[1..])[i] == (acc + s)[if i < |acc| then i else i + 1 + |acc| - |acc'|];
      }
    } else {
      assert acc + s == acc;
    }
  }

  lemma IntersectMeaning(left: seq<int>, right: seq<int>)
    ensures Distinct(IntersectSeq(left, right))
    ensures forall x :: x in IntersectSeq(left, right) <==> x in left && x in right
    ensures Ascending(left) ==> Ascending(IntersectSeq(left, right))
  {
    AddCommonElements([], left, right);
    assert [] + left == left;
  }

  lemma AscendingPrefix(acc: seq<int>, longer: seq<int>)
    requires acc <= longer && Ascending(longer)
    ensures Ascending(acc)
    ensures forall i, j :: 0 <= i < |acc| <= j < |longer| ==> acc[i] < longer[j]
  {
  }

  // Every new element of s is larger than all of acc.
  predicate AllBehind(acc: seq<int>, s: seq<int>) {
    forall x, y :: x in acc && y in s && y !in acc ==> x < y
  }

  lemma AscendingAppend(acc: seq<int>, v: int)
    ensures Ascending(acc + [v]) <==> Ascending(acc) && forall x :: x in acc ==> x < v
  {
    var longer := acc + [v];
    if Ascending(longer) {
      AscendingPrefix(acc, longer);
      assert longer[|acc|] == v;
      assert forall x :: x in acc ==> x < v;
    } else if Ascending(acc) {
      var i :| 0 <= i < |acc| && acc[i] >= v;
      assert acc[i] in acc;
    }
  }

  lemma {:induction false} AddAllAscending(acc: seq<int>, s: seq<int>)
    requires Ascending(s)
    ensures Ascending(AddAll(acc, s)) <==> Ascending(acc) && AllBehind(acc, s)
    decreases |s|
  {
    if s != [] {
      var acc' := if s[0] in acc then acc else acc + [s[0]];
      AddAllAscending(acc', s[1..]);
      AscendingAppend(acc, s[0]);
      assert forall y :: y in s <==> y == s[0] || y in s[1..];
      assert forall y :: y in s[1..] ==> s[0] < y;
      if s[0] !in acc {
        assert forall x :: x in acc' <==> x in acc || x == s[0];
        if Ascending(acc') {
          assert AllBehind(acc', s[1..]) <==> AllBehind(acc, s);
        }
      }
    }
  }

  // OR keeps the ascending order exactly when every row it adds lies behind
  // all the rows already listed.
  lemma UnionAscendingExactly(left: seq<int>, right: seq<int>)
    requires Ascending(left) && Ascending(right)
    ensures Ascending(UnionSeq(left, right)) <==>
            AllBehind(left, right)
  {
    AddAllSelf([], left);
    assert [] + left == left;
    AddAllAscending(left, right);
  }

  lemma {:induction false} AddAllSelf(acc: seq<int>, s: seq<int>)
    requires Distinct(acc + s)
    ensures AddAll(acc, s) == acc + s
    decreases |s|
  {
    if s == [] {
      assert acc + s == acc;
    } else {
      assert (acc + s)[|acc|] == s[0] && forall i :: 0 <= i < |acc| ==> (acc + s)[i] == acc[i];
      assert s[0] !in acc;
      assert acc + [s[0]] + s[1..] == acc + s;
      AddAllSelf(acc + [s[0]], s[1..]);
    }
  }

  lemma SomeElement(s: seq<int>) returns (x: int)
    requires s != []
    ensures x in s
  {
    x := s[0];
  }

  // Two ascending lists with the same elements are the same list.
  lemma {:induction false} AscendingUnique(a: seq<int>, b: seq<int>)
    requires Ascending(a) && Ascending(b)
    requires forall x :: x in a <==> x in b
    ensures a == b
  {
    if a == [] {
      if b != [] {
        var x := SomeElement(b);
        assert false;
      }
    } else {
      assert a[0] in a && a[0] in b;
      assert b[0] in b && b[0] in a;
      assert a[0] == b[0];
      forall x
        ensures x in a[1..] <==> x in b[1..]
      {
        assert x in a[1..] <==> x in a && x != a[0];
        assert x in b[1..] <==> x in b && x != b[0];
      }
      AscendingUnique(a[1..], b[1..]);
    }
  }

  // ---------------------------------------------------------------------
  // The linked list
  // ---------------------------------------------------------------------

  class IntList {
    var value: int
    var next: IntList?
    // The list that starts here; kept up to date for the head of a list only.
    ghost var nodes: seq<IntList>
    ghost var items: seq<int>
    ghost var place: nat  // the position of this node in its list
    ghost var Repr: set<IntList>

    ghost predicate Valid()
      reads this, Repr
    {
      && this in Repr
      && nodes != [] && nodes[0] == this
      && (forall i :: 0 <= i < |nodes| ==> nodes[i] in Repr && nodes[i].place == i)
      && (forall i {:trigger nodes[i].next} :: 0 <= i < |nodes| ==> nodes[i].next == NodeAt(nodes, i + 1))
      && if value == INTLIST_NULL then |nodes| == 1 && items == []
         else
           && |items| == |nodes|
           && forall i :: 0 <= i < |nodes| ==> nodes[i].value == items[i] && items[i] != INTLIST_NULL
    }

    // intlist_empty, and intlist_new with the value put in at once.
    constructor (value: int)
      ensures Valid() && fresh(Repr)
      ensures items == if value == INTLIST_NULL then [] else [value]
      ensures this.value == value && next == null
    {
      this.value := value;
      next := null;
      nodes, place := [this], 0;
      Repr := {this};
      items := if value == INTLIST_NULL then [] else [value];
    }

    method Push(v: int)
      requires Valid() && v != INTLIST_NULL
      modifies Repr
      ensures Valid() && fresh(Repr - old(Repr))
      ensures items == old(items) + [v]
    {
      if value == INTLIST_NULL {
        value := v;
        items := [v];
        return;
      }
      var list := Last();
      var last := new IntList(v);
      list.next, last.place := last, |nodes|;
      nodes := nodes + [last];
      items := items + [v];
      Repr := Repr + {last};
    }

    method Last() returns (list: IntList)
      requires Valid()
      ensures list == nodes[|nodes| - 1]
    {
      list := this;
      ghost var i := 0;
      while list.next != null
        invariant 0 <= i < |nodes| && list == nodes[i]
        decreases |nodes| - i
      {
        list := list.next;
        i := i + 1;
      }
    }

    // Push unless it is there already.
    method PushOnce(v: int)
      requires Valid() && v != INTLIST_NULL
      modifies Repr
      ensures Valid() && fresh(Repr - old(Repr))
      ensures items == if v in old(items) then old(items) else old(items) + [v]
    {
      var seen := Contains(v);
      if !seen {
        Push(v);
      }
    }

    method Contains(v: int) returns (b: bool)
      requires Valid()
      ensures b == (v in items)
    {
      var list: IntList? := this;
      ghost var i := 0;
      while list != null && list.value != INTLIST_NULL
        invariant 0 <= i <= |nodes| && list == NodeAt(nodes, i)
        invariant value == INTLIST_NULL ==> i == 0
        invariant value != INTLIST_NULL ==> v !in items[..i]
        decreases |nodes| - i
      {
        if list.value == v {
          return true;
        }
        list := list.next;
        i := i + 1;
      }
      return false;
    }
  }

  ghost function NodeAt(nodes: seq<IntList>, i: nat): IntList? {
    if i < |nodes| then nodes[i] else null
  }

  // The elements from the i-th node on, as the loops over a list see them.
  ghost function From(list: IntList, i: nat): seq<int>
    reads list
  {
    if i <= |list.items| then list.items[i..] else []
  }

  // A loop over the list has come to its i-th node.
  ghost predicate AtNode(list: IntList, row: IntList?, i: nat)
    reads list, list.Repr
  {
    && list.Valid() && i <= |list.nodes| && row == NodeAt(list.nodes, i)
    && (list.value == INTLIST_NULL ==> i == 0)
  }

  lemma AtNodeNext(list: IntList, row: IntList, i: nat)
    requires AtNode(list, row, i) && row.value != INTLIST_NULL
    ensures From(list, i) != [] && From(list, i)[0] == row.value && From(list, i)[1..] == From(list, i + 1)
    ensures AtNode(list, row.next, i + 1) && i < |list.nodes|
  {
  }

  lemma AtNodeEnd(list: IntList, row: IntList?, i: nat)
    requires AtNode(list, row, i) && (row == null || row.value == INTLIST_NULL)
    ensures From(list, i) == []
  {
  }

  method Union(left: IntList, right: IntList) returns (r: IntList?)
    requires left.Valid() && right.Valid()
    ensures r == null <==> left == right
    ensures r != null ==> r.Valid() && fresh(r.Repr) && r.items == UnionSeq(left.items, right.items)
  {
    if left == right {
      return null;
    }
    var list := new IntList(INTLIST_NULL);
    PushNew(list, left);
    PushNew(list, right);
    r := list;
  }

  // One of the two loops of the union: push what is not there yet.
  method PushNew(list: IntList, from: IntList)
    requires list.Valid() && from.Valid() && list.Repr !! from.Repr
    modifies list.Repr
    ensures list.Valid() && fresh(list.Repr - old(list.Repr))
    ensures list.items == AddAll(old(list.items), from.items)
  {
    var cur: IntList? := from;
    ghost var i := 0;
    while cur != null && cur.value != INTLIST_NULL
      invariant AtNode(from, cur, i) == true  // kept folded
      invariant (list.Valid() == true) && fresh(list.Repr - old(list.Repr))
      invariant AddAll(list.items, From(from, i)) == AddAll(old(list.items), from.items)
      decreases |from.nodes| - i
    {
      AtNodeNext(from, cur, i);
      list.PushOnce(cur.value);
      cur := cur.next;
      i := i + 1;
    }
    AtNodeEnd(from, cur, i);
  }

  method Intersection(left: IntList, right: IntList) returns (r: IntList?)
    requires left.Valid() && right.Valid()
    ensures r == null <==> left == right
    ensures r != null ==> r.Valid() && fresh(r.Repr) && r.items == IntersectSeq(left.items, right.items)
  {
    if left == right {
      return null;
    }
    var list := new IntList(INTLIST_NULL);
    PushCommon(list, left, right);
    r := list;
  }

  method PushCommon(list: IntList, left: IntList, right: IntList)
    requires list.Valid() && left.Valid() && right.Valid()
    requires list.Repr !! left.Repr && list.Repr !! right.Repr
    modifies list.Repr
    ensures list.Valid() && fresh(list.Repr - old(list.Repr))
    ensures list.items == AddCommon(old(list.items), left.items, right.items)
  {
    var cur: IntList? := left;
    ghost var i := 0;
    while cur != null && cur.value != INTLIST_NULL
      invariant AtNode(left, cur, i) == true
      invariant (right.Valid() == true) && (list.Valid() == true) && fresh(list.Repr - old(list.Repr))
      invariant AddCommon(list.items, From(left, i), right.items) == AddCommon(old(list.items), left.items, right.items)
      decreases |left.nodes| - i
    {
      AtNodeNext(left, cur, i);
      var common := right.Contains(cur.value);
      if common {
        list.PushOnce(cur.value);
      }
      cur := cur.next;
      i := i + 1;
    }
    AtNodeEnd(left, cur, i);
  }
}
