// Splitting a text into tokens: what the two splitters compute, and that what
// is written can be read back.
module Tokens {
  import opened CText

  predicate Delims(s: CString, d: CString) {
    forall i :: 0 <= i < |s| ==> s[i] in d
  }

  predicate DelimFree(s: CString, d: CString) {
    forall i :: 0 <= i < |s| ==> s[i] !in d
  }

  function DropDelims(s: CString, d: CString): (r: CString)
    ensures |r| <= |s|
    ensures r != [] ==> r[0] !in d
  {
    if s != [] && s[0] in d then DropDelims(s[1..], d) else s
  }

  // The length of the delimiter-free prefix.
  function RunLength(s: CString, d: CString): (n: nat)
    ensures n <= |s| && DelimFree(s[..n], d)
    ensures n < |s| ==> s[n] in d
  {
    if s == [] || s[0] in d then 0 else 1 + RunLength(s[1..], d)
  }

  // The maximal runs of non-delimiters, in order: what strtok delivers
  // (section 7.24.5.8 of ISO C11).
  function Runs(s: CString, d: CString): seq<CString>
    decreases |s|
  {
    var t := DropDelims(s, d);
    if t == [] then []
    else
      var n := RunLength(t, d);
      [t[..n]] + Runs(t[n..], d)
  }

  // Quotes count only as the first and the last character of a token.
  function Unquote(t: CString): CString {
    if t != [] && t[0] == '"' && t[|t| - 1] == '"' then
      if |t| == 1 then [] else t[1..|t| - 1]
    else t
  }

  function Emit(cur: CString): seq<CString> {
    if cur == [] then [] else [Unquote(cur)]
  }

  // The way to the closing quote, or to the end if there is none.
  function QuoteSkip(rest: CString): (n: nat)
    requires rest != []
    ensures n <= |rest|
  {
    if rest[0] == '"' then 1 + FirstIndex(rest[1..], '"') else 0
  }

  // The quote-aware splitter, with the token so far and the text left.
  function SplitQuoted(cur: CString, rest: CString, d: CString): seq<CString>
    decreases |rest|
  {
    if rest == [] then Emit(cur)
    else
      var skip := QuoteSkip(rest);
      if skip == |rest| then Emit(cur + rest)
      else if rest[skip] in d then Emit(cur + rest[..skip]) + SplitQuoted([], DropDelims(rest[skip + 1..], d), d)
      else SplitQuoted(cur + rest[..skip + 1], rest[skip + 1..], d)
  }

  // What is still to come when s[start..end] is the token so far.
  function SplitAt(s: CString, start: nat, end: nat, d: CString): seq<CString>
    requires start <= end <= |s|
  {
    SplitQuoted(s[start..end], s[end..], d)
  }

  // The steps of the splitter inside a text; e is where the next character lies
  // that is not skipped as quoted.
  lemma SplitEnds(s: CString, start: nat, end: nat, d: CString)
    requires start <= end <= |s| && (end < |s| ==> end + QuoteSkip(s[end..]) == |s|)
    ensures SplitAt(s, start, end, d) == Emit(s[start..])
  {
    assert s[start..end] + s[end..] == s[start..];
    assert end == |s| ==> s[start..end] == s[start..];
  }

  lemma SplitGoesOn(s: CString, start: nat, end: nat, e: nat, d: CString)
    requires start <= end < |s| && e == end + QuoteSkip(s[end..]) && e < |s| && s[e] !in d
    ensures SplitAt(s, start, end, d) == SplitAt(s, start, e + 1, d)
  {
    var cur, rest, skip := s[start..end], s[end..], e - end;
    assert rest[skip] == s[e] && rest[skip + 1..] == s[e + 1..];
    assert cur + rest[..skip + 1] == s[start..e + 1];
  }

  lemma SplitCuts(before: seq<CString>, s: CString, start: nat, end: nat, e: nat, next: nat, d: CString)
    requires start <= end < |s| && e == end + QuoteSkip(s[end..]) && e < |s| && s[e] in d
    requires next <= |s| && s[next..] == DropDelims(s[e + 1..], d)
    ensures before + SplitAt(s, start, end, d) == before + Emit(s[start..e]) + SplitAt(s, next, next, d)
  {
    var cur, rest, skip := s[start..end], s[end..], e - end;
    assert rest[skip] == s[e] && rest[skip + 1..] == s[e + 1..];
    assert cur + rest[..skip] == s[start..e];
    assert s[next..next] == [];
    AppendAssoc(before, Emit(s[start..e]), SplitAt(s, next, next, d));
  }

  // ---------------------------------------------------------------------
  // Properties of runs
  // ---------------------------------------------------------------------

  lemma {:induction false} DropDelimsPrefix(g: CString, s: CString, d: CString)
    requires Delims(g, d)
    ensures DropDelims(g + s, d) == DropDelims(s, d)
  {
    if g == [] {
      assert g + s == s;
    } else {
      assert (g + s)[1..] == g[1..] + s;
      DropDelimsPrefix(g[1..], s, d);
    }
  }

  lemma {:induction false} RunLengthPrefix(w: CString, s: CString, d: CString)
    requires DelimFree(w, d) && (s == [] || s[0] in d)
    ensures RunLength(w + s, d) == |w|
  {
    if w == [] {
      assert w + s == s;
    } else {
      assert (w + s)[1..] == w[1..] + s;
      RunLengthPrefix(w[1..], s, d);
    }
  }

  lemma RunsFirst(w: CString, s: CString, d: CString)
    requires w != [] && DelimFree(w, d) && (s == [] || s[0] in d)
    ensures Runs(w + s, d) == [w] + Runs(s, d)
  {
    RunLengthPrefix(w, s, d);
    assert DropDelims(w + s, d) == w + s;
    assert (w + s)[..|w|] == w && (w + s)[|w|..] == s;
  }

  lemma {:induction false} RunsSkip(g: CString, s: CString, d: CString)
    requires Delims(g, d)
    ensures Runs(g + s, d) == Runs(s, d)
    ensures Runs(DropDelims(s, d), d) == Runs(s, d)
  {
    DropDelimsPrefix(g, s, d);
    assert DropDelims(DropDelims(s, d), d) == DropDelims(s, d);
  }

  lemma RunsBehind(s: CString, e: nat, next: nat, d: CString)
    requires e <= |s| && (e < |s| ==> s[e] in d) && next == (if e < |s| then e + 1 else e)
    ensures Runs(s[e..], d) == Runs(s[next..], d)
  {
    if e < |s| {
      assert s[e..] == [s[e]] + s[e + 1..];
      RunsSkip([s[e]], s[e + 1..], d);
    }
  }

  // A text after a run that ends at position e, and that begins at position first
  // behind the delimiters from p on.
  lemma RunsCut(s: CString, p: nat, first: nat, e: nat, next: nat, d: CString)
    requires p <= first < e <= |s| && s[first..] == DropDelims(s[p..], d)
    requires e == first + RunLength(s[first..], d) && next == (if e < |s| then e + 1 else e)
    ensures Runs(s[p..], d) == [s[first..e]] + Runs(s[next..], d)
  {
    var run := s[first..];
    assert run[..e - first] == s[first..e] && run[e - first..] == s[e..];
    assert e < |s| ==> run[e - first] == s[e];
    RunsBehind(s, e, next, d);
  }

  // One step through a text: past a delimiter, or past a run.
  function Step(s: CString, d: CString): (n: nat)
    requires s != []
    ensures 0 < n <= |s|
  {
    if s[0] in d then 1 else RunLength(s, d)
  }

  function StepRuns(s: CString, d: CString): seq<CString>
    requires s != []
  {
    if s[0] in d then [] else [s[..RunLength(s, d)]]
  }

  lemma RunsStep(s: CString, d: CString)
    requires s != []
    ensures Runs(s, d) == StepRuns(s, d) + Runs(s[Step(s, d)..], d)
  {
  }

  lemma {:induction false} RunLengthAppend(a: CString, b: CString, d: CString)
    requires b == [] || b[0] in d
    ensures RunLength(a + b, d) == RunLength(a, d)
  {
    if a == [] {
      assert a + b == b;
    } else if a[0] !in d {
      assert (a + b)[1..] == a[1..] + b;
      RunLengthAppend(a[1..], b, d);
    }
  }

  lemma StepAppend(a: CString, b: CString, d: CString)
    requires a != [] && (b == [] || b[0] in d)
    ensures Step(a + b, d) == Step(a, d) && StepRuns(a + b, d) == StepRuns(a, d)
    ensures (a + b)[Step(a, d)..] == a[Step(a, d)..] + b
  {
    RunLengthAppend(a, b, d);
    assert (a + b)[..Step(a, d)] == a[..Step(a, d)];
  }

  // Runs can be taken piece by piece, as long as the cut is at a delimiter.
  lemma {:induction false} RunsAppend(a: CString, b: CString, d: CString)
    requires b == [] || b[0] in d
    ensures Runs(a + b, d) == Runs(a, d) + Runs(b, d)
    decreases |a|
  {
    if a == [] {
      assert a + b == b;
    } else {
      var rest := a[Step(a, d)..];
      StepAppend(a, b, d);
      RunsStep(a + b, d);
      RunsStep(a, d);
      RunsAppend(rest, b, d);
      AppendAssoc(StepRuns(a, d), Runs(rest, d), Runs(b, d));
    }
  }

  lemma AppendAssoc<T>(a: seq<T>, b: seq<T>, c: seq<T>)
    ensures a + (b + c) == a + b + c
  {
  }

  // Delimiters that do not occur make no difference.
  lemma {:induction false} RunsAgree(s: CString, d: CString, e: CString)
    requires forall i :: 0 <= i < |s| ==> (s[i] in d <==> s[i] in e)
    ensures Runs(s, d) == Runs(s, e)
    decreases |s|
  {
    if s == [] {
    } else if s[0] in d {
      assert s == [s[0]] + s[1..];
      RunsSkip([s[0]], s[1..], d);
      RunsSkip([s[0]], s[1..], e);
      RunsAgree(s[1..], d, e);
    } else {
      var n := RunLength(s, d);
      assert s == s[..n] + s[n..];
      RunsFirst(s[..n], s[n..], d);
      RunsFirst(s[..n], s[n..], e);
      RunsAgree(s[n..], d, e);
    }
  }

  // ---------------------------------------------------------------------
  // The two splitters agree where there are no quotes
  // ---------------------------------------------------------------------

  // ... and even when quotes follow behind a delimiter.
  lemma {:induction false} QuoteFreePart(cur: CString, x: CString, rest: CString, d: CString)
    requires '"' !in cur && '"' !in x && DelimFree(cur, d) && (rest == [] || rest[0] in d) && '"' !in d
    ensures SplitQuoted(cur, x + rest, d) == Runs(cur + x, d) + SplitQuoted([], rest, d)
    decreases |x|, 0
  {
    if x == [] {
      assert x + rest == rest && cur + x == cur;
      EndOfToken(cur, rest, d);
      EmitIsRuns(cur, d);
    } else {
      var c, y := x[0], x[1..];
      assert x == [c] + y;
      if c in d {
        QuoteFreeDelim(cur, c, y, rest, d);
      } else {
        assert x + rest == [c] + (y + rest);
        ScanChar(cur, c, y + rest, d);
        QuoteFreePart(cur + [c], y, rest, d);
        assert cur + x == cur + [c] + y;
      }
    }
  }

  // An ordinary character belongs to the token.
  lemma ScanChar(cur: CString, c: CChar, rest: CString, d: CString)
    requires c != '"' && c !in d
    ensures SplitQuoted(cur, [c] + rest, d) == SplitQuoted(cur + [c], rest, d)
  {
  }

  lemma {:induction false} QuoteFreeDelim(cur: CString, c: CChar, y: CString, rest: CString, d: CString)
    requires '"' !in cur && '"' !in y && DelimFree(cur, d) && (rest == [] || rest[0] in d) && '"' !in d && c in d
    ensures SplitQuoted(cur, [c] + y + rest, d) == Runs(cur + ([c] + y), d) + SplitQuoted([], rest, d)
    decreases |y|, 1
  {
    var text := [c] + y + rest;
    assert text == [c] + (y + rest);
    assert SplitQuoted(cur, text, d) == Emit(cur) + SplitQuoted([], y + rest, d) by {
      EndOfToken(cur, text, d);
      SplitSkip([c], y + rest, d);
    }
    assert Runs(cur + ([c] + y), d) == Emit(cur) + Runs(y, d) by {
      RunsAppend(cur, [c] + y, d);
      RunsSkip([c], y, d);
      EmitIsRuns(cur, d);
    }
    assert SplitQuoted([], y + rest, d) == Runs(y, d) + SplitQuoted([], rest, d) by {
      QuoteFreePart([], y, rest, d);
      assert [] + y == y;
    }
    AppendAssoc(Emit(cur), Runs(y, d), SplitQuoted([], rest, d));
  }

  lemma EmitIsRuns(cur: CString, d: CString)
    requires '"' !in cur && DelimFree(cur, d)
    ensures Emit(cur) == Runs(cur, d)
  {
    if cur != [] {
      RunsFirst(cur, [], d);
      assert cur + [] == cur;
    }
  }

  // Leading delimiters are skipped.
  lemma SplitFromDelims(s: CString, d: CString)
    requires '"' !in d
    ensures SplitQuoted([], DropDelims(s, d), d) == SplitQuoted([], s, d)
  {
  }

  lemma SplitSkip(g: CString, s: CString, d: CString)
    requires '"' !in d && Delims(g, d)
    ensures SplitQuoted([], g + s, d) == SplitQuoted([], s, d)
  {
    DropDelimsPrefix(g, s, d);
    SplitFromDelims(g + s, d);
    SplitFromDelims(s, d);
  }

  lemma SplittersAgree(s: CString, d: CString)
    requires '"' !in s && '"' !in d
    ensures SplitQuoted([], s, d) == Runs(s, d)
  {
    QuoteFreePart([], s, [], d);
    assert s + [] == s && [] + s == s;
  }

  // ---------------------------------------------------------------------
  // Reading back what was written
  // ---------------------------------------------------------------------

  datatype Item = Item(text: CString, quoted: bool)

  // Quoted texts may be empty or hold delimiters, bare ones may not.
  predicate Writable(item: Item, d: CString) {
    '"' !in item.text && (item.quoted || (item.text != [] && DelimFree(item.text, d)))
  }

  predicate AllWritable(items: seq<Item>, d: CString) {
    forall i :: 0 <= i < |items| ==> Writable(items[i], d)
  }

  function Write(item: Item): CString {
    if item.quoted then ['"'] + item.text + ['"'] else item.text
  }

  // Gaps of delimiters around and between the items; those between are not empty.
  predicate Gaps(gaps: seq<CString>, n: nat, d: CString) {
    && |gaps| == n + 1
    && (forall i :: 0 <= i <= n ==> Delims(gaps[i], d))
    && (forall i :: 0 < i < n ==> gaps[i] != [])
  }

  function Layout(items: seq<Item>, gaps: seq<CString>): CString
    requires |gaps| == |items| + 1
  {
    if items == [] then gaps[0] else gaps[0] + Write(items[0]) + Layout(items[1..], gaps[1..])
  }

  function Texts(items: seq<Item>): seq<CString> {
    seq(|items|, i requires 0 <= i < |items| => items[i].text)
  }

  lemma {:induction false} ScanBare(cur: CString, w: CString, rest: CString, d: CString)
    requires '"' !in w && DelimFree(w, d)
    ensures SplitQuoted(cur, w + rest, d) == SplitQuoted(cur + w, rest, d)
    decreases |w|
  {
    if w == [] {
      assert w + rest == rest && cur + w == cur;
    } else {
      assert w + rest == [w[0]] + (w[1..] + rest);
      ScanChar(cur, w[0], w[1..] + rest, d);
      ScanBare(cur + [w[0]], w[1..], rest, d);
      assert cur + [w[0]] + w[1..] == cur + w;
    }
  }

  lemma {:induction false} ClosingQuote(t: CString, rest: CString)
    requires '"' !in t
    ensures FirstIndex(t + ['"'] + rest, '"') == |t|
  {
    var s := t + ['"'] + rest;
    if t != [] {
      assert s[1..] == t[1..] + ['"'] + rest;
      ClosingQuote(t[1..], rest);
    }
  }

  // A quoted part belongs to the token, delimiters and all.
  lemma ScanQuoted(cur: CString, t: CString, rest: CString, d: CString)
    requires '"' !in t && '"' !in d
    ensures SplitQuoted(cur, ['"'] + t + ['"'] + rest, d) == SplitQuoted(cur + (['"'] + t + ['"']), rest, d)
  {
    var quoted := ['"'] + t + ['"'];
    var s, start, end := cur + quoted + rest, |cur|, |cur| + |quoted|;
    assert s[start..] == quoted + rest;
    assert s[start..][1..] == t + ['"'] + rest;
    ClosingQuote(t, rest);
    SplitGoesOn(s, 0, start, end - 1, d);
    assert s[0..start] == cur && s[0..end] == cur + quoted && s[end..] == rest;
  }

  lemma ScanItem(item: Item, rest: CString, d: CString)
    requires Writable(item, d) && '"' !in d
    ensures SplitQuoted([], Write(item) + rest, d) == SplitQuoted(Write(item), rest, d)
    ensures Write(item) != [] && Unquote(Write(item)) == item.text
  {
    var written := Write(item);
    assert [] + written == written;
    if item.quoted {
      ScanQuoted([], item.text, rest, d);
      assert written[1..|written| - 1] == item.text;
    } else {
      ScanBare([], item.text, rest, d);
    }
  }

  lemma ScanAcross(w: CString, t: CString, w': CString, rest: CString, d: CString)
    requires '"' !in w && '"' !in t && '"' !in w' && '"' !in d && DelimFree(w, d) && DelimFree(w', d)
    ensures var token := w + (['"'] + t + ['"']) + w'; SplitQuoted([], token + rest, d) == SplitQuoted(token, rest, d)
  {
    var quoted := ['"'] + t + ['"'];
    assert w + quoted + w' + rest == w + (quoted + (w' + rest)) && [] + w == w;
    ScanBare([], w, quoted + (w' + rest), d);
    ScanQuoted(w, t, w' + rest, d);
    ScanBare(w + quoted, w', rest, d);
  }

  // A token keeps its quotes unless they are its first and its last character.
  lemma QuotesInsideStay(w: CString, t: CString, w': CString, rest: CString, d: CString)
    requires '"' !in w && '"' !in t && '"' !in w' && '"' !in d
    requires DelimFree(w, d) && DelimFree(w', d) && (w != [] || w' != [])
    requires rest == [] || rest[0] in d
    ensures var token := w + (['"'] + t + ['"']) + w';
            SplitQuoted([], token + rest, d) == [token] + SplitQuoted([], rest, d)
  {
    var token := w + (['"'] + t + ['"']) + w';
    ScanAcross(w, t, w', rest, d);
    EndOfToken(token, rest, d);
    assert Emit(token) == [token] by {
      assert w != [] ==> token[0] == w[0];
      assert w' != [] ==> token[|token| - 1] == w'[|w'| - 1];
    }
  }

  // A quote that is never closed takes in the rest of the text, and stays too, unless
  // it stands there alone: then it is its own partner.
  lemma OpenQuoteStays(w: CString, t: CString, d: CString)
    requires '"' !in w && '"' !in t && DelimFree(w, d)
    ensures SplitQuoted([], w + (['"'] + t), d) == [if w == [] && t == [] then [] else w + (['"'] + t)]
  {
    var token := w + (['"'] + t);
    ScanBare([], w, ['"'] + t, d);
    assert [] + w == w && (['"'] + t)[1..] == t;
    assert w != [] ==> token[0] == w[0];
    assert t != [] ==> token[|token| - 1] == t[|t| - 1];
  }

  // An item, with a gap in front of it.
  lemma ItemSplit(gap: CString, item: Item, rest: CString, d: CString)
    requires '"' !in d && Delims(gap, d) && Writable(item, d) && (rest == [] || rest[0] in d)
    ensures SplitQuoted([], gap + Write(item) + rest, d) == [item.text] + SplitQuoted([], rest, d)
  {
    assert gap + Write(item) + rest == gap + (Write(item) + rest);
    SplitSkip(gap, Write(item) + rest, d);
    ScanItem(item, rest, d);
    EndOfToken(Write(item), rest, d);
  }

  lemma ItemsBehind(items: seq<Item>, gaps: seq<CString>, d: CString)
    requires items != [] && Gaps(gaps, |items|, d) && AllWritable(items, d)
    ensures Gaps(gaps[1..], |items[1..]|, d) && AllWritable(items[1..], d)
    ensures var rest := Layout(items[1..], gaps[1..]); rest == [] || rest[0] in d
  {
  }

  lemma FirstSplit(items: seq<Item>, gaps: seq<CString>, d: CString)
    requires '"' !in d && items != [] && Gaps(gaps, |items|, d) && AllWritable(items, d)
    ensures SplitQuoted([], Layout(items, gaps), d)
         == [items[0].text] + SplitQuoted([], Layout(items[1..], gaps[1..]), d)
  {
    ItemsBehind(items, gaps, d);
    ItemSplit(gaps[0], items[0], Layout(items[1..], gaps[1..]), d);
  }

  // Any list of writable texts, laid out with any gaps, is read back as it was.
  lemma {:induction false} QuotedRoundTrip(items: seq<Item>, gaps: seq<CString>, d: CString)
    requires '"' !in d && Gaps(gaps, |items|, d) && AllWritable(items, d)
    ensures SplitQuoted([], Layout(items, gaps), d) == Texts(items)
    decreases |items|
  {
    if items == [] {
      assert gaps[0] + [] == gaps[0];
      SplitSkip(gaps[0], [], d);
    } else {
      ItemsBehind(items, gaps, d);
      FirstSplit(items, gaps, d);
      QuotedRoundTrip(items[1..], gaps[1..], d);
      assert Texts(items) == [items[0].text] + Texts(items[1..]);
    }
  }

  lemma EndOfToken(cur: CString, rest: CString, d: CString)
    requires '"' !in d && (rest == [] || rest[0] in d)
    ensures SplitQuoted(cur, rest, d) == Emit(cur) + SplitQuoted([], rest, d)
  {
    if rest != [] {
      var tail := SplitQuoted([], DropDelims(rest[1..], d), d);
      assert cur + rest[..0] == cur && [] + rest[..0] == [];
      assert SplitQuoted(cur, rest, d) == Emit(cur) + tail;
      assert SplitQuoted([], rest, d) == Emit([]) + tail == tail;
    }
  }
}
