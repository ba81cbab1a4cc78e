// Linked lists of strings, and the two splitters that produce them.
module StrLists {
  import opened CText
  import opened Values
  import opened Tokens

  class StrList {
    var str: Option<CString>  // NULL in the head of an empty list
    var strlen: nat
    var next: StrList?
    // The list that starts here; kept up to date for the head of a list only.
    ghost var nodes: seq<StrList>
    ghost var items: seq<CString>
    ghost var place: nat  // the position of this node in its list
    ghost var Repr: set<StrList>

    // Once tokens of a query have been cut in place, only the tokens behind them, the
    // ones from position `from` on, are still as the list says.
    ghost predicate ValidFrom(from: nat)
      reads this, Repr
    {
      && this in Repr
      && nodes != [] && nodes[0] == this
      && (forall i :: 0 <= i < |nodes| ==> nodes[i] in Repr)
      && Chain(nodes, 0, null)
      && if str == None then |nodes| == 1 && items == [] else Held(nodes, items, from)
    }

    ghost predicate Valid()
      reads this, Repr
    {
      ValidFrom(0)
    }

    // strlist_empty
    constructor Empty()
      ensures Valid() && fresh(Repr) && Repr == {this}
      ensures items == [] && nodes == [this]
    {
      str, strlen, next := None, 0, null;
      nodes, place := [this], 0;
      Repr := {this};
      items := [];
    }

    // strlist_new
    constructor (value: CString)
      ensures Valid() && fresh(Repr)
      ensures items == [value] && next == null && Repr == {this}
      ensures str == Some(value) && strlen == |value|
    {
      str, strlen, next := Some(value), |value|, null;
      nodes, place := [this], 0;
      Repr := {this};
      items := [value];
    }

    method Push(value: CString)
      requires Valid()
      modifies Repr
      ensures Valid() && fresh(Repr - old(Repr))
      ensures items == old(items) + [value]
    {
      // an empty list has a head already, which takes the string
      if str == None {
        str, strlen := Some(value), |value|;
        items := [value];
        return;
      }
      var list := Last();
      var last := new StrList(value);
      Link(list, last);
    }

    // list->next = more, for the last node of this list: the two lists are one.
    method Link(list: StrList, more: StrList)
      requires Valid() && more.Valid() && Repr !! more.Repr
      requires items != [] && more.items != [] && list == nodes[|nodes| - 1]
      modifies Repr + more.Repr
      ensures Valid() && Repr == old(Repr + more.Repr)
      ensures items == old(items + more.items) && nodes == old(nodes + more.nodes)
    {
      Join(list, nodes, more.nodes, more);
      HeldAppend(nodes, items, more.nodes, more.items);
      nodes, items, Repr := nodes + more.nodes, items + more.items, Repr + more.Repr;
    }

    method Last() returns (list: StrList)
      requires Valid()
      ensures list == nodes[|nodes| - 1]
    {
      list := this;
      ghost var i := 0;
      while list.next != null
        invariant 0 <= i < |nodes| && list == nodes[i]
        decreases |nodes| - i
      {
        list := list.next;
        i := i + 1;
      }
    }
  }

  // The nodes follow each other, at the places from offset on.
  ghost predicate Chain(nodes: seq<StrList>, offset: nat, end: StrList?)
    reads nodes`place, nodes`next
  {
    && (forall i :: 0 <= i < |nodes| ==> nodes[i].place == offset + i)
    && (forall i {:trigger nodes[i].next} :: 0 <= i < |nodes| ==>
          nodes[i].next == if i + 1 < |nodes| then nodes[i + 1] else end)
  }

  ghost predicate Held(nodes: seq<StrList>, items: seq<CString>, from: nat)
    reads nodes`str, nodes`strlen
  {
    && |items| == |nodes|
    && forall i :: from <= i < |nodes| ==> nodes[i].str == Some(items[i]) && nodes[i].strlen == |items[i]|
  }

  // Let the last node of one chain point to the first one of another.
  method Join(last: StrList, ghost mine: seq<StrList>, ghost theirs: seq<StrList>, more: StrList)
    requires Chain(mine, 0, null) && Chain(theirs, 0, null) && mine != [] && theirs != []
    requires last == mine[|mine| - 1] && more == theirs[0]
    requires forall i :: 0 <= i < |mine| ==> mine[i] !in theirs
    modifies last`next, theirs`place
    ensures Chain(mine + theirs, 0, null)
  {
    assert last !in theirs;
    last.next := more;
    forall i | 0 <= i < |theirs| {
      theirs[i].place := |mine| + i;
    }
    ChainAppend(mine, theirs);
  }

  lemma ChainAppend(a: seq<StrList>, b: seq<StrList>)
    requires b != [] && Chain(a, 0, b[0]) && Chain(b, |a|, null)
    ensures Chain(a + b, 0, null)
  {
  }

  lemma HeldAppend(a: seq<StrList>, xs: seq<CString>, b: seq<StrList>, ys: seq<CString>)
    requires Held(a, xs, 0) && Held(b, ys, 0)
    ensures Held(a + b, xs + ys, 0)
  {
  }

  ghost function NodeAt(nodes: seq<StrList>, i: nat): StrList? {
    if i < |nodes| then nodes[i] else null
  }

  // A parser has come to the k-th token of a list that is not empty; it may have cut
  // tokens before that one.
  ghost predicate AtToken(list: StrList, tok: StrList?, k: nat)
    reads list, list.Repr
  {
    list.ValidFrom(k) && list.items != [] && k <= |list.items| && tok == NodeAt(list.nodes, k)
  }

  lemma TokenNext(list: StrList, tok: StrList, k: nat)
    requires AtToken(list, tok, k)
    ensures k < |list.items| && tok.str == Some(list.items[k]) && tok.strlen == |list.items[k]|
    ensures AtToken(list, tok.next, k + 1)
    ensures list.items[k..] == [list.items[k]] + list.items[k + 1..]
  {
  }

  // The first list followed by the second, without copying a node: one of the
  // two heads goes when its list is empty, and no node is on the result twice.
  method Merge(l1: StrList, l2: StrList) returns (list: StrList)
    requires l1.Valid() && l2.Valid() && l1.Repr !! l2.Repr
    modifies l1.Repr + l2.Repr
    ensures list.Valid() && list.Repr <= old(l1.Repr + l2.Repr)
    ensures list.items == old(l1.items) + old(l2.items)
    ensures list.nodes == if old(l1.items) == [] then old(l2.nodes)
                          else if old(l2.items) == [] then old(l1.nodes)
                          else old(l1.nodes) + old(l2.nodes)
  {
    // merging an empty list with another one gives the other one
    if l1.str == None {
      return l2;
    } else if l2.str == None {
      return l1;
    }
    // its last node gets the second list as its successor
    var curr := l1.Last();
    l1.Link(curr, l2);
    return l1;
  }

  method StrContains(str: CString, c: char) returns (b: bool)
    ensures b == (c in str)
  {
    var i := 0;
    while i < |str|
      invariant 0 <= i <= |str| && c !in str[..i]
    {
      if str[i] == c {
        return true;
      }
      i := i + 1;
    }
    return false;
  }

  // ---------------------------------------------------------------------
  // The buffer the splitters cut up
  // ---------------------------------------------------------------------

  const NUL: char := 0 as char

  // The text lies in the buffer from position p up to a NUL.
  ghost predicate Holds(buf: array<char>, p: nat, text: CString)
    reads buf
  {
    && p + |text| < buf.Length && buf[p + |text|] == NUL
    && forall i :: 0 <= i < |text| ==> buf[p + i] == text[i]
  }

  method Clone(s: CString) returns (buf: array<char>)
    ensures fresh(buf) && buf.Length == |s| + 1 && Holds(buf, 0, s)
  {
    buf := new char[|s| + 1](i => if 0 <= i < |s| then s[i] else NUL);
  }

  // strdup, from a position inside the buffer
  method Strdup(buf: array<char>, p: nat, ghost text: CString) returns (t: CString)
    requires Holds(buf, p, text)
    ensures t == text
  {
    t := [];
    while buf[p + |t|] != NUL
      invariant |t| <= |text| && t == text[..|t|]
      invariant |t| < |text| ==> buf[p + |t|] == text[|t|]
      decreases |text| - |t|
    {
      t := t + [buf[p + |t|]];
    }
  }

  // From position start on, the buffer still holds what was cloned.
  ghost predicate Uncut(buf: array<char>, start: nat, s: CString)
    reads buf
  {
    && buf.Length == |s| + 1 && start <= |s| && buf[|s|] == NUL
    && forall i :: start <= i < |s| ==> buf[i] == s[i]
  }

  // The token [start, end), which a NUL ends, goes on the list unless it is empty;
  // one pair of quotes around it goes away.
  method PushToken(list: StrList, buf: array<char>, start: nat, end: nat, ghost tok: CString)
    requires list.Valid() && Holds(buf, start, tok) && end == start + |tok|
    modifies list.Repr, buf
    ensures list.Valid() && fresh(list.Repr - old(list.Repr))
    ensures list.items == old(list.items) + Emit(tok)
    ensures forall i :: end <= i < buf.Length ==> buf[i] == old(buf[i])
  {
    if start == end {
      return;
    }
    var first := start;
    if buf[start] == '"' && buf[end - 1] == '"' {
      first := start + 1;
      buf[end - 1] := NUL;
    }
    var token := Strdup(buf, first, Unquote(tok));
    list.Push(token);
  }

  // From end to the next quote or the end of the text.
  method SeekQuote(buf: array<char>, end: nat, ghost s: CString) returns (e: nat)
    requires Uncut(buf, end, s)
    ensures e == end + FirstIndex(s[end..], '"')
  {
    e := end;
    while buf[e] != NUL && buf[e] != '"'
      invariant end <= e <= |s|
      invariant e + FirstIndex(s[e..], '"') == end + FirstIndex(s[end..], '"')
      decreases |s| - e
    {
      assert s[e..][1..] == s[e + 1..];
      e := e + 1;
    }
  }

  // From end to the next character that is no delimiter.
  method SkipDelims(buf: array<char>, end: nat, delim: CString, ghost s: CString) returns (e: nat)
    requires Uncut(buf, end, s)
    ensures end <= e <= |s| && s[e..] == DropDelims(s[end..], delim)
  {
    e := end;
    while buf[e] != NUL
      invariant end <= e <= |s|
      invariant DropDelims(s[e..], delim) == DropDelims(s[end..], delim)
      decreases |s| - e
    {
      var isDelim := StrContains(delim, buf[e]);
      if !isDelim {
        break;
      }
      assert s[e..][1..] == s[e + 1..];
      e := e + 1;
    }
  }

  // End the token at a delimiter, push it, and go on behind the delimiters.
  method CutToken(list: StrList, buf: array<char>, start: nat, end: nat, delim: CString, ghost s: CString)
    returns (next: nat)
    requires list.Valid() && Uncut(buf, start, s) && start <= end < |s|
    modifies list.Repr, buf
    ensures list.Valid() && fresh(list.Repr - old(list.Repr))
    ensures list.items == old(list.items) + Emit(s[start..end])
    ensures end < next <= |s| && Uncut(buf, next, s) && s[next..] == DropDelims(s[end + 1..], delim)
  {
    buf[end] := NUL;
    PushToken(list, buf, start, end, s[start..end]);
    next := SkipDelims(buf, end + 1, delim, s);
  }

  // The end of the next piece of the token: past quotes, if there are any.
  method SeekEnd(buf: array<char>, end: nat, ghost s: CString) returns (e: nat)
    requires Uncut(buf, end, s) && end < |s|
    ensures e == end + QuoteSkip(s[end..])
  {
    e := end;
    if buf[end] == '"' {
      e := SeekQuote(buf, end + 1, s);
      assert s[end..][1..] == s[end + 1..];
    }
  }

  method StrlistFromSplitQuoted(text: CString, delim: CString) returns (list: StrList)
    ensures list.Valid() && fresh(list.Repr)
    ensures list.items == SplitQuoted([], text, delim)
  {
    list := new StrList.Empty();
    var clone := Clone(text);
    assert text[0..0] == [] && text[0..] == text;
    var start, end := CutTokens(list, clone, delim, text);
    PushToken(list, clone, start, end, text[start..]);
  }

  // The loop that cuts the tokens; what is left of the text is the last one.
  method CutTokens(list: StrList, clone: array<char>, delim: CString, ghost text: CString)
    returns (start: nat, end: nat)
    requires list.Valid() && Uncut(clone, 0, text)
    modifies list.Repr, clone
    ensures list.Valid() && fresh(list.Repr - old(list.Repr))
    ensures start <= end == |text| && Uncut(clone, start, text)
    ensures list.items + Emit(text[start..]) == old(list.items) + SplitAt(text, 0, 0, delim)
  {
    start, end := 0, 0;
    while clone[end] != NUL
      invariant start <= end <= |text| && (Uncut(clone, start, text) == true)  // kept folded
      invariant (list.Valid() == true) && fresh(list.Repr - old(list.Repr))
      invariant list.items + SplitAt(text, start, end, delim) == old(list.items) + SplitAt(text, 0, 0, delim)
      decreases |text| - end
    {
      ghost var from := end;
      end := SeekEnd(clone, end, text);
      // the quote is never closed: the rest is the last token
      if clone[end] == NUL {
        SplitEnds(text, start, from, delim);
        break;
      }
      var isDelim := StrContains(delim, clone[end]);
      if isDelim {
        ghost var first, last, before := start, end, list.items;
        start := CutToken(list, clone, start, end, delim, text);
        end := start;
        SplitCuts(before, text, first, from, last, start, delim);
      } else {
        SplitGoesOn(text, start, from, end, delim);
        end := end + 1;
      }
    }
    SplitEnds(text, start, end, delim);
  }

  // From first to the next delimiter or the end of the text.
  method SeekDelim(buf: array<char>, first: nat, delim: CString, ghost s: CString) returns (e: nat)
    requires Uncut(buf, first, s)
    ensures e == first + RunLength(s[first..], delim)
  {
    e := first;
    while buf[e] != NUL
      invariant first <= e <= |s|
      invariant e + RunLength(s[e..], delim) == first + RunLength(s[first..], delim)
      decreases |s| - e
    {
      var isDelim := StrContains(delim, buf[e]);
      if isDelim {
        break;
      }
      assert s[e..][1..] == s[e + 1..];
      e := e + 1;
    }
  }

  // The token just found, if there is one, and the ones behind it.
  ghost function Coming(found: bool, tok: CString, next: nat, d: CString, s: CString): seq<CString>
    requires next <= |s|
  {
    if found then [tok] + Runs(s[next..], d) else []
  }

  // End the run that begins at first.
  method EndRun(buf: array<char>, first: nat, delim: CString, ghost p: nat, ghost s: CString)
    returns (next: nat, ghost tok: CString)
    requires Uncut(buf, first, s) && first < |s|
    requires p <= first && s[first..] == DropDelims(s[p..], delim)
    modifies buf
    ensures first < next <= |s| && Uncut(buf, next, s) && Holds(buf, first, tok)
    ensures Runs(s[p..], delim) == [tok] + Runs(s[next..], delim)
  {
    var end := SeekDelim(buf, first, delim, s);
    next := CutRun(buf, first, end, s);
    tok := s[first..end];
    assert s[first..][0] == s[first];
    RunsCut(s, p, first, end, next, delim);
  }

  // A NUL where the run ends, unless there is one already.
  method CutRun(buf: array<char>, first: nat, end: nat, ghost s: CString) returns (next: nat)
    requires Uncut(buf, first, s) && first <= end <= |s|
    modifies buf
    ensures next == (if end < |s| then end + 1 else end)
    ensures Uncut(buf, next, s) && Holds(buf, first, s[first..end])
  {
    next := end;
    if buf[end] != NUL {
      buf[end] := NUL;
      next := end + 1;
    }
  }

  // strtok (section 7.24.5.8 of ISO C11), the saved position p made explicit: the
  // next run begins at first, and the search goes on at next.
  method Strtok(buf: array<char>, p: nat, delim: CString, ghost s: CString)
    returns (found: bool, first: nat, next: nat, ghost tok: CString)
    requires Uncut(buf, p, s)
    modifies buf
    ensures next <= |s| && Runs(s[p..], delim) == Coming(found, tok, next, delim, s)
    ensures p <= next && (found ==> Holds(buf, first, tok) && p < next && Uncut(buf, next, s))
  {
    first := SkipDelims(buf, p, delim, s);
    next, tok := first, [];
    found := buf[first] != NUL;
    if found {
      next, tok := EndRun(buf, first, delim, p, s);
    }
  }

  method StrlistFromSplit(text: CString, delim: CString) returns (list: StrList)
    ensures list.Valid() && fresh(list.Repr)
    ensures list.items == Runs(text, delim)
  {
    list := new StrList.Empty();
    var clone := Clone(text);
    assert text[0..] == text;
    var found, first, next, tok := Strtok(clone, 0, delim, text);
    while found
      invariant (list.Valid() == true) && fresh(list.Repr)  // kept folded
      invariant found ==> (Holds(clone, first, tok) == true) && (Uncut(clone, next, text) == true)
      invariant next <= |text| && list.items + Coming(found, tok, next, delim, text) == Runs(text, delim)
      decreases |text| - next, found
    {
      ghost var before, run := list.items, [tok];
      // the push duplicates the token, so the buffer can be cut further
      var token := Strdup(clone, first, tok);
      list.Push(token);
      found, first, next, tok := Strtok(clone, next, delim, text);
      AppendAssoc(before, run, Coming(found, tok, next, delim, text));
    }
  }
}
