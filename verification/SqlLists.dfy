// Lists inside a query, "(a, b, c)" or "a, b, c", put together from the tokens
// that splitting the query at white space has left of them.
module SqlLists {
  import opened CText
  import opened Values
  import opened Tokens
  import opened StrLists

  const COMMA: CString := [',']
  const OPEN: CString := ['(']
  const CLOSE: CString := [')']
  const WHITE: CString := [' ', '\t', '\n']
  const SEPARATORS: CString := WHITE + COMMA

  // Crash: the tokens have run out inside of the list.
  datatype ListResult = Listed(list: seq<CString>, rest: seq<CString>) | NotAList | Crash

  predicate EndsIn(t: CString, c: CChar) {
    t != [] && t[|t| - 1] == c
  }

  predicate StartsIn(t: CString, c: CChar) {
    t != [] && t[0] == c
  }

  // The token without a bracket that closes it.
  function Opened(t: CString): CString {
    if EndsIn(t, ')') then t[..|t| - 1] else t
  }

  predicate IsLast(t: CString, brackets: bool) {
    if brackets then EndsIn(t, ')') else !EndsIn(t, ',')
  }

  // The loop over the tokens: acc is what has been listed so far.
  function ListTokens(acc: seq<CString>, toks: seq<CString>, brackets: bool): ListResult
    decreases |toks|
  {
    if toks == [] then Crash
    else
      var more := acc + Runs(if brackets then Opened(toks[0]) else toks[0], COMMA);
      if IsLast(toks[0], brackets) then Listed(more, toks[1..])
      else ListTokens(more, toks[1..], brackets)
  }

  function ExtractSqlListSpec(toks: seq<CString>, brackets: bool): ListResult {
    if toks == [] then Crash
    else if !brackets then ListTokens([], toks, brackets)
    else if !StartsIn(toks[0], '(') then NotAList
    else
      var first := Runs(Opened(toks[0])[1..], COMMA);
      if EndsIn(toks[0], ')') then Listed(first, toks[1..]) else ListTokens(first, toks[1..], brackets)
  }

  // ---------------------------------------------------------------------
  // Splitting twice
  // ---------------------------------------------------------------------

  // The runs of each token in turn.
  function RunsOfAll(toks: seq<CString>, d: CString): seq<CString> {
    if toks == [] then [] else Runs(toks[0], d) + RunsOfAll(toks[1..], d)
  }

  // What lies between white space has no white space left to be split at.
  lemma RunsInside(w: CString)
    requires DelimFree(w, WHITE)
    ensures Runs(w, COMMA) == Runs(w, SEPARATORS)
  {
    RunsAgree(w, COMMA, SEPARATORS);
  }

  // Splitting at white space and then at commas is splitting at both.
  lemma {:induction false} SplitTwice(x: CString)
    ensures RunsOfAll(Runs(x, WHITE), COMMA) == Runs(x, SEPARATORS)
    decreases |x|
  {
    if x == [] {
    } else {
      RunsStep(x, WHITE);
      var n := Step(x, WHITE);
      var y := x[n..];
      SplitTwice(y);
      if x[0] in WHITE {
        assert x == [x[0]] + y;
        RunsSkip([x[0]], y, SEPARATORS);
      } else {
        var w := x[..n];
        assert x == w + y;
        RunsInside(w);
        RunsAppend(w, y, SEPARATORS);
        assert Runs(x, WHITE) == [w] + Runs(y, WHITE);
      }
    }
  }

  // ---------------------------------------------------------------------
  // Lists in brackets
  // ---------------------------------------------------------------------

  lemma RunAlone(w: CString, rest: seq<CString>)
    requires w != [] && DelimFree(w, WHITE)
    ensures Runs(w, WHITE) + rest == [w] + rest
  {
    assert w == w + [];
    RunsFirst(w, [], WHITE);
  }

  lemma RunBefore(w: CString, y: CString, rest: seq<CString>)
    requires w != [] && DelimFree(w, WHITE) && y != [] && y[0] in WHITE
    ensures Runs(w + y, WHITE) + rest == [w] + (Runs(y, WHITE) + rest)
  {
    RunsFirst(w, y, WHITE);
    AppendAssoc([w], Runs(y, WHITE), rest);
  }

  function Bracketed(x: CString): CString {
    OPEN + x + CLOSE
  }

  // Up to the closing bracket, behind what has been listed already.
  lemma {:induction false} ToTheBracket(acc: seq<CString>, x: CString, rest: seq<CString>)
    requires ')' !in x
    ensures ListTokens(acc, Runs(x + CLOSE, WHITE) + rest, true) == Listed(acc + Runs(x, SEPARATORS), rest)
    decreases |x|
  {
    var text := x + CLOSE;
    var n := RunLength(x, WHITE);
    var w, y := x[..n], x[n..];
    assert x == w + y;
    if y == [] {
      RunAlone(text, rest);
      assert Opened(text) == x;
      RunsInside(x);
    } else if w == [] {
      assert text[1..] == x[1..] + CLOSE;
      RunsStep(text, WHITE);
      ToTheBracket(acc, x[1..], rest);
      assert x == [x[0]] + x[1..];
      RunsSkip([x[0]], x[1..], SEPARATORS);
    } else {
      assert text == w + (y + CLOSE);
      RunBefore(w, y + CLOSE, rest);
      assert !EndsIn(w, ')') && Opened(w) == w;
      RunsInside(w);
      RunsAppend(w, y, SEPARATORS);
      ToTheBracket(acc + Runs(w, COMMA), y, rest);
      AppendAssoc(acc, Runs(w, COMMA), Runs(y, SEPARATORS));
    }
  }

  lemma OnlyToken(w: CString, rest: seq<CString>)
    ensures ExtractSqlListSpec([Bracketed(w)] + rest, true) == Listed(Runs(w, COMMA), rest)
  {
  }

  lemma FirstToken(w: CString, more: seq<CString>)
    requires ')' !in w
    ensures ExtractSqlListSpec([OPEN + w] + more, true) == ListTokens(Runs(w, COMMA), more, true)
  {
  }

  lemma OneTokenList(x: CString, rest: seq<CString>)
    requires ')' !in x && DelimFree(x, WHITE)
    ensures ExtractSqlListSpec(Runs(Bracketed(x), WHITE) + rest, true) == Listed(Runs(x, SEPARATORS), rest)
  {
    RunAlone(Bracketed(x), rest);
    OnlyToken(x, rest);
    RunsInside(x);
  }

  lemma ManyTokenList(w: CString, y: CString, rest: seq<CString>)
    requires ')' !in w && ')' !in y && DelimFree(w, WHITE) && y != [] && y[0] in WHITE
    ensures ExtractSqlListSpec(Runs(Bracketed(w + y), WHITE) + rest, true) == Listed(Runs(w + y, SEPARATORS), rest)
  {
    var first, close := OPEN + w, y + CLOSE;
    assert Bracketed(w + y) == first + close;
    RunBefore(first, close, rest);
    FirstToken(w, Runs(close, WHITE) + rest);
    ToTheBracket(Runs(w, COMMA), y, rest);
    RunsAppend(w, y, SEPARATORS);
    RunsInside(w);
  }

  // The token that opens the list, and everything up to the closing bracket.
  lemma FromTheBracket(x: CString, rest: seq<CString>)
    requires ')' !in x
    ensures ExtractSqlListSpec(Runs(Bracketed(x), WHITE) + rest, true) == Listed(Runs(x, SEPARATORS), rest)
  {
    var n := RunLength(x, WHITE);
    var w, y := x[..n], x[n..];
    assert w + y == x && ')' !in w && ')' !in y;
    if y == [] {
      assert w == x;
      OneTokenList(x, rest);
    } else {
      ManyTokenList(w, y, rest);
    }
  }

  // Whatever white space and commas stand in the brackets: the list holds what is
  // between them, and the tokens behind the bracket are untouched.
  lemma BracketedList(x: CString, tail: CString)
    requires ')' !in x && '"' !in x && (tail == [] || tail[0] in WHITE)
    ensures ExtractSqlListSpec(SplitQuoted([], Bracketed(x) + tail, WHITE), true)
         == Listed(Runs(x, SEPARATORS), SplitQuoted([], tail, WHITE))
  {
    var text := Bracketed(x);
    QuoteFreePart([], text, tail, WHITE);
    assert [] + text == text;
    FromTheBracket(x, SplitQuoted([], tail, WHITE));
  }

  // Values that can stand in a list without quotes.
  predicate ListValue(item: Item) {
    !item.quoted && Writable(item, SEPARATORS) && '(' !in item.text && ')' !in item.text
  }

  lemma GapPlain(gap: CString)
    requires Delims(gap, SEPARATORS)
    ensures ')' !in gap && '"' !in gap
  {
  }

  lemma {:induction false} LayoutPlain(items: seq<Item>, gaps: seq<CString>)
    requires Gaps(gaps, |items|, SEPARATORS) && forall i :: 0 <= i < |items| ==> ListValue(items[i])
    ensures var x := Layout(items, gaps); ')' !in x && '"' !in x
  {
    GapPlain(gaps[0]);
    if items != [] {
      LayoutPlain(items[1..], gaps[1..]);
      assert Layout(items, gaps) == gaps[0] + items[0].text + Layout(items[1..], gaps[1..]);
    }
  }

  lemma ListValuesSplit(items: seq<Item>, gaps: seq<CString>)
    requires Gaps(gaps, |items|, SEPARATORS) && forall i :: 0 <= i < |items| ==> ListValue(items[i])
    ensures Runs(Layout(items, gaps), SEPARATORS) == Texts(items)
  {
    LayoutPlain(items, gaps);
    SplittersAgree(Layout(items, gaps), SEPARATORS);
    assert AllWritable(items, SEPARATORS);
    QuotedRoundTrip(items, gaps, SEPARATORS);
  }

  // Every layout of ( v1 , ... , vn ) is read back as [v1, ..., vn].
  lemma BracketedRoundTrip(items: seq<Item>, gaps: seq<CString>, tail: CString)
    requires Gaps(gaps, |items|, SEPARATORS) && (forall i :: 0 <= i < |items| ==> ListValue(items[i]))
    requires tail == [] || tail[0] in WHITE
    ensures ExtractSqlListSpec(SplitQuoted([], Bracketed(Layout(items, gaps)) + tail, WHITE), true)
         == Listed(Texts(items), SplitQuoted([], tail, WHITE))
  {
    LayoutPlain(items, gaps);
    BracketedList(Layout(items, gaps), tail);
    ListValuesSplit(items, gaps);
  }

  // ---------------------------------------------------------------------
  // What is no list
  // ---------------------------------------------------------------------

  // No token ends the list: none closes the bracket, or all have a comma behind them.
  predicate NeverEnds(toks: seq<CString>, brackets: bool) {
    forall t :: t in toks ==> if brackets then !EndsIn(t, ')') else EndsIn(t, ',')
  }

  lemma {:induction false} TokensRunOut(acc: seq<CString>, toks: seq<CString>, brackets: bool)
    ensures ListTokens(acc, toks, brackets) != NotAList
    ensures ListTokens(acc, toks, brackets) == Crash <==> NeverEnds(toks, brackets)
    decreases |toks|
  {
    if toks != [] {
      assert toks == [toks[0]] + toks[1..];
      if !IsLast(toks[0], brackets) {
        TokensRunOut(acc + Runs(if brackets then Opened(toks[0]) else toks[0], COMMA), toks[1..], brackets);
      }
    }
  }

  // A list is refused exactly when it should be in brackets and its first token does
  // not begin with one; and the tokens are read past their end exactly when a list
  // that is not refused never ends.
  lemma RefusedExactly(toks: seq<CString>, brackets: bool)
    ensures var refused := brackets && toks != [] && !StartsIn(toks[0], '(');
            && (ExtractSqlListSpec(toks, brackets) == NotAList <==> refused)
            && (ExtractSqlListSpec(toks, brackets) == Crash <==> !refused && NeverEnds(toks, brackets))
  {
    if toks != [] {
      assert toks == [toks[0]] + toks[1..];
      TokensRunOut([], toks, false);
      TokensRunOut(Runs(Opened(toks[0])[if StartsIn(toks[0], '(') && Opened(toks[0]) != [] then 1 else 0..], COMMA),
                   toks[1..], true);
    }
  }

  // ---------------------------------------------------------------------
  // Lists without brackets
  // ---------------------------------------------------------------------

  // Every token but the last ends in a comma, and the last does not.
  predicate CommasBetween(toks: seq<CString>) {
    && toks != [] && !EndsIn(toks[|toks| - 1], ',')
    && forall i :: 0 <= i < |toks| - 1 ==> EndsIn(toks[i], ',')
  }

  lemma {:induction false} ListEnds(acc: seq<CString>, toks: seq<CString>)
    ensures var r := ListTokens(acc, toks, false); r.Listed? ==> |r.rest| < |toks|
    decreases |toks|
  {
    if toks != [] && EndsIn(toks[0], ',') {
      ListEnds(acc + Runs(toks[0], COMMA), toks[1..]);
    }
  }

  // A list without brackets takes exactly the tokens up to the first one without
  // a comma behind it, so it takes toks only if they have commas between them.
  lemma {:induction false} CommaListExactly(acc: seq<CString>, toks: seq<CString>, rest: seq<CString>)
    requires toks != []
    ensures ListTokens(acc, toks + rest, false) == Listed(acc + RunsOfAll(toks, COMMA), rest) <==> CommasBetween(toks)
    decreases |toks|
  {
    var more := acc + Runs(toks[0], COMMA);
    assert (toks + rest)[0] == toks[0] && (toks + rest)[1..] == toks[1..] + rest;
    if |toks| == 1 {
      ListEnds(more, rest);
      assert toks[1..] + rest == rest;
    } else if EndsIn(toks[0], ',') {
      CommaListExactly(more, toks[1..], rest);
      AppendAssoc(acc, Runs(toks[0], COMMA), RunsOfAll(toks[1..], COMMA));
      assert CommasBetween(toks) <==> CommasBetween(toks[1..]);
    }
  }

  // Columns separated by commas, in any white space that follows a comma.
  lemma CommaList(x: CString, tail: CString)
    requires '"' !in x && CommasBetween(Runs(x, WHITE)) && (tail == [] || tail[0] in WHITE)
    ensures ExtractSqlListSpec(SplitQuoted([], x + tail, WHITE), false)
         == Listed(Runs(x, SEPARATORS), SplitQuoted([], tail, WHITE))
  {
    var rest := SplitQuoted([], tail, WHITE);
    QuoteFreePart([], x, tail, WHITE);
    assert [] + x == x;
    CommaListExactly([], Runs(x, WHITE), rest);
    SplitTwice(x);
    assert [] + Runs(x, SEPARATORS) == Runs(x, SEPARATORS);
  }

  // ---------------------------------------------------------------------
  // The method, which cuts the closing bracket off in place
  // ---------------------------------------------------------------------

  datatype ListOutcome = ListOk | ListError | ListCrash

  // Cut a closing bracket off the token, if it ends in one.
  method CutBracket(list: StrList, tok: StrList, ghost k: nat) returns (closed: bool)
    requires AtToken(list, tok, k)
    modifies tok`str
    ensures closed == EndsIn(list.items[k], ')') && tok.str == Some(Opened(list.items[k]))
    ensures AtToken(list, tok.next, k + 1)
  {
    TokenNext(list, tok, k);
    closed := tok.strlen > 0 && tok.str.value[tok.strlen - 1] == ')';
    if closed {
      tok.str := Some(tok.str.value[..tok.strlen - 1]);
    }
  }

  method MergeSplit(final: StrList, text: CString) returns (merged: StrList)
    requires final.Valid()
    modifies final.Repr
    ensures merged.Valid() && fresh(merged.Repr - old(final.Repr))
    ensures merged.items == old(final.items) + Runs(text, COMMA)
  {
    var split := StrlistFromSplit(text, COMMA);
    merged := Merge(final, split);
  }

  // The result of the extraction, against the specification on the tokens.
  ghost predicate Extracted(spec: ListResult, outcome: ListOutcome, final: StrList?, list: StrList, last: StrList?,
                            j: nat)
    reads list, list.Repr, final, if final == null then {} else final.Repr
  {
    match spec
    case Listed(items, rest) =>
      && outcome == ListOk && final != null && final.Valid() && final.items == items
      && AtToken(list, last, j) && list.items[j..] == rest
    case NotAList => outcome == ListError
    case Crash => outcome == ListCrash
  }

  method ExtractSqlList(list: StrList, start: StrList?, brackets: bool, ghost k: nat)
    returns (outcome: ListOutcome, final: StrList?, last: StrList?, ghost j: nat)
    requires AtToken(list, start, k)
    modifies list.Repr
    ensures list.items == old(list.items) && list.nodes == old(list.nodes) && list.Repr == old(list.Repr)
    ensures Extracted(ExtractSqlListSpec(old(list.items[k..]), brackets), outcome, final, list, last, j)
    ensures outcome == ListOk ==> k < j && fresh(final.Repr)
  {
    final, last, j := null, null, k;
    if start == null {
      return ListCrash, null, null, k;
    }
    TokenNext(list, start, k);
    if !brackets {
      final := new StrList.Empty();
      outcome, final, last, j := ExtractFrom(list, start, brackets, final, k);
      return;
    }
    var closed;
    final, closed := OpenList(list, start, k);
    if final == null {
      return ListError, null, null, k;
    } else if closed {
      return ListOk, final, start.next, k + 1;
    }
    outcome, final, last, j := ExtractFrom(list, start.next, brackets, final, k + 1);
  }

  // The token with the opening bracket; no list if there is no bracket.
  method OpenList(list: StrList, start: StrList, ghost k: nat) returns (first: StrList?, closed: bool)
    requires AtToken(list, start, k)
    modifies start`str
    ensures AtToken(list, start.next, k + 1)
    ensures first == null <==> !StartsIn(list.items[k], '(')
    ensures first != null ==>
              && first.Valid() && fresh(first.Repr) && first.items == Runs(Opened(list.items[k])[1..], COMMA)
              && closed == EndsIn(list.items[k], ')')
  {
    TokenNext(list, start, k);
    if start.strlen == 0 || start.str.value[0] != '(' {
      return null, false;
    }
    closed := CutBracket(list, start, k);
    // step over the opening bracket
    first := StrlistFromSplit(start.str.value[1..], COMMA);
  }

  // One token of the list: its pieces go behind what is listed already.
  method ListToken(list: StrList, cur: StrList, brackets: bool, listed: StrList, ghost i: nat)
    returns (last: bool, final: StrList)
    requires AtToken(list, cur, i) && listed.Valid() && listed.Repr !! list.Repr
    modifies list.Repr, listed.Repr
    ensures list.items == old(list.items) && list.nodes == old(list.nodes) && list.Repr == old(list.Repr)
    ensures final.Valid() && fresh(final.Repr - old(listed.Repr))
    ensures AtToken(list, cur.next, i + 1)
    ensures ListTokens(old(listed.items), list.items[i..], brackets) ==
            if last then Listed(final.items, list.items[i + 1..])
            else ListTokens(final.items, list.items[i + 1..], brackets)
  {
    TokenNext(list, cur, i);
    if brackets {
      last := CutBracket(list, cur, i);
    } else {
      last := !(cur.strlen > 0 && cur.str.value[cur.strlen - 1] == ',');
    }
    final := MergeSplit(listed, cur.str.value);
    assert AtToken(list, cur.next, i + 1) == true;  // kept folded
  }

  // The loop over the tokens.
  method ExtractFrom(list: StrList, from: StrList?, brackets: bool, listed: StrList, ghost k: nat)
    returns (outcome: ListOutcome, final: StrList?, cur: StrList?, ghost i: nat)
    requires AtToken(list, from, k) && listed.Valid() && listed.Repr !! list.Repr
    modifies list.Repr, listed.Repr
    ensures list.items == old(list.items) && list.nodes == old(list.nodes) && list.Repr == old(list.Repr)
    ensures Extracted(ListTokens(old(listed.items), old(list.items[k..]), brackets), outcome, final, list, cur, i)
    ensures outcome == ListOk ==> k < i && fresh(final.Repr - old(listed.Repr))
  {
    final, cur, i := listed, from, k;
    var last := false;
    while !last
      invariant list.items == old(list.items) && list.nodes == old(list.nodes) && list.Repr == old(list.Repr)
      invariant k <= i && (AtToken(list, cur, i) == true)  // kept folded
      invariant final != null && (final.Valid() == true) && final.Repr !! list.Repr
      invariant fresh(final.Repr - old(listed.Repr))
      invariant ListTokens(old(listed.items), old(list.items[k..]), brackets) ==
                if last then Listed(final.items, list.items[i..])
                else ListTokens(final.items, list.items[i..], brackets)
      invariant last ==> k < i
      decreases |list.items| - i, !last
    {
      if cur == null {
        return ListCrash, null, null, i;
      }
      last, final := ListToken(list, cur, brackets, final, i);
      cur, i := cur.next, i + 1;
    }
    outcome := ListOk;
  }
}
