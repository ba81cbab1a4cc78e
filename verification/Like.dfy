// The LIKE matcher of the interpreter and the patterns on which it can be trusted.
module Like {
  import opened CText

  // The SQL LIKE predicate (section 8.5 of ISO/IEC 9075-2): `%` stands for any
  // substring, `_` for any one character, everything else for itself.
  ghost predicate Likes(s: CString, p: CString)
    decreases |p|
  {
    if p == [] then s == []
    else if p[0] == '%' then exists k :: 0 <= k <= |s| && Likes(s[k..], p[1..])
    else s != [] && (p[0] == '_' || p[0] == s[0]) && Likes(s[1..], p[1..])
  }

  // The verdict once the string or the pattern has run out: reading the
  // terminating NUL gives 0, reading any other byte gives its signed value.
  predicate EndVerdict(s: CString, p: CString) {
    var str := if s == [] then 0 else Signed(s[0]);
    var pattern := if p == [] then 0 else Signed(p[0]);
    !(str + pattern > 0 && (p == [] || p[0] != '%'))
  }

  // What the matcher computes.
  predicate GreedyLike(s: CString, p: CString)
    decreases |p|
  {
    if s == [] || p == [] then EndVerdict(s, p)
    else if p[0] == '%' then
      if |p| == 1 then true
      else
        var k := FirstIndex(s, p[1]);
        k < |s| && GreedyLike(s[k + 1..], p[2..])
    else (p[0] == '_' || s[0] == p[0]) && GreedyLike(s[1..], p[1..])
  }

  // What the matcher still computes when its cursors stand at i and j.
  predicate GreedyAt(s: CString, i: nat, p: CString, j: nat)
    requires i <= |s| && j <= |p|
  {
    GreedyLike(s[i..], p[j..])
  }

  lemma GreedyPercent(s: CString, i: nat, p: CString, j: nat)
    requires i < |s| && j < |p| && p[j] == '%'
    ensures j + 1 == |p| ==> GreedyAt(s, i, p, j)
    ensures j + 1 < |p| ==>
              var k := i + FirstIndex(s[i..], p[j + 1]);
              GreedyAt(s, i, p, j) == (k < |s| && GreedyAt(s, k + 1, p, j + 2))
  {
  }

  lemma GreedyOther(s: CString, i: nat, p: CString, j: nat)
    requires i < |s| && j < |p| && p[j] != '%'
    ensures GreedyAt(s, i, p, j) == ((p[j] == '_' || s[i] == p[j]) && GreedyAt(s, i + 1, p, j + 1))
  {
  }

  // The string case of filter_func_like: two cursors, one pass, no backtracking.
  method FilterFuncLike(str: CString, pattern: CString) returns (r: bool)
    ensures r == GreedyLike(str, pattern)
  {
    var i, j := 0, 0;
    assert str[0..] == str && pattern[0..] == pattern;
    while i < |str| && j < |pattern|
      invariant 0 <= i <= |str| && 0 <= j <= |pattern|
      invariant GreedyLike(str, pattern) == GreedyAt(str, i, pattern, j)
    {
      if pattern[j] == '%' {
        GreedyPercent(str, i, pattern, j);
        j := j + 1;
        if j == |pattern| {
          return true;
        }
        ghost var k := i + FirstIndex(str[i..], pattern[j]);
        while i < |str| && str[i] != pattern[j]
          invariant i <= |str| && k == i + FirstIndex(str[i..], pattern[j])
        {
          assert str[i..][1..] == str[i + 1..];
          i := i + 1;
        }
        if i == |str| {
          return false;
        }
      } else {
        GreedyOther(str, i, pattern, j);
      }
      if pattern[j] == '_' {
        j := j + 1;
        i := i + 1;
        continue;
      }
      if str[i] != pattern[j] {
        return false;
      }
      i := i + 1;
      j := j + 1;
    }
    r := EndVerdict(str[i..], pattern[j..]);
  }

  // ---------------------------------------------------------------------
  // How far a true answer can be trusted
  // ---------------------------------------------------------------------

  // A true answer always means that the string matches the whole pattern, or
  // the pattern cut off in front of one of its `%`.
  lemma {:induction false} SoundUpToACut(s: CString, p: CString) returns (i: nat)
    requires Ascii(s) && Ascii(p)
    requires GreedyLike(s, p)
    ensures i <= |p| && (i == |p| || p[i] == '%')
    ensures Likes(s, p[..i])
    decreases |p|
  {
    if s == [] || p == [] {
      i := 0;
    } else if p[0] != '%' {
      i := SoundUpToACut(s[1..], p[1..]);
      assert p[1..][..i] == p[..i + 1][1..];
      i := i + 1;
    } else if |p| == 1 {
      i := 1;
      assert Likes(s[|s|..], p[..1][1..]);
    } else {
      var k := FirstIndex(s, p[1]);
      i := SoundUpToACut(s[k + 1..], p[2..]);
      assert p[..i + 2][2..] == p[2..][..i];
      FoundBehindPercent(s, p[..i + 2], k);
      i := i + 2;
    }
  }

  lemma FoundBehindPercent(s: CString, q: CString, k: nat)
    requires |q| > 1 && q[0] == '%' && k < |s| && s[k] == q[1] && Likes(s[k + 1..], q[2..])
    ensures Likes(s, q)
  {
    var t, r := s[k..], q[1..];
    assert t[1..] == s[k + 1..] && r[1..] == q[2..];
    assert Likes(t, r);
  }

  // From the first `%` on there is nothing but `%`.
  predicate PercentTail(p: CString) {
    forall i, j :: 0 <= i < j < |p| && p[i] == '%' ==> p[j] == '%'
  }

  lemma {:induction false} AllPercent(s: CString, p: CString)
    requires forall j :: 0 <= j < |p| ==> p[j] == '%'
    ensures p != [] || s == [] ==> Likes(s, p)
    decreases |p|
  {
    if p != [] {
      AllPercent([], p[1..]);
      assert s[|s|..] == [];
    }
  }

  lemma {:induction false} ExtendByPercent(s: CString, p: CString, i: nat)
    requires i <= |p| && Likes(s, p[..i])
    requires forall j :: i <= j < |p| ==> p[j] == '%'
    ensures Likes(s, p)
    decreases i
  {
    var q := p[..i];
    if i == 0 {
      AllPercent(s, p);
    } else if q[0] == '%' {
      var k :| 0 <= k <= |s| && Likes(s[k..], q[1..]);
      assert q[1..] == p[1..][..i - 1];
      ExtendByPercent(s[k..], p[1..], i - 1);
    } else {
      assert q[1..] == p[1..][..i - 1];
      ExtendByPercent(s[1..], p[1..], i - 1);
    }
  }

  // Some character that c stands for and that is neither `%` nor `_`.
  function Pick(c: CChar): CChar {
    if c == '_' || c == '%' then 'x' else c
  }

  // A string the matcher wrongly accepts: it ends where a `%` or a byte above 127 starts.
  function FalsePositive(p: CString): CString {
    if p == [] || p[0] == '%' || p[0] as int >= 128 then [] else [Pick(p[0])] + FalsePositive(p[1..])
  }

  lemma {:induction false} EmptyLikes(p: CString)
    ensures Likes([], p) <==> forall j :: 0 <= j < |p| ==> p[j] == '%'
  {
    if p != [] {
      EmptyLikes(p[1..]);
      var e: CString := [];
      assert p[0] == '%' && Likes(e, p[1..]) ==> Likes(e[0..], p[1..]);
      assert forall k :: 0 <= k <= |e| ==> e[k..] == e;
      assert forall j :: 0 < j < |p| ==> p[j] == p[1..][j - 1];
    }
  }

  lemma {:induction false} FalsePositiveWorks(p: CString)
    requires !(Ascii(p) && PercentTail(p))
    ensures var s := FalsePositive(p); Ascii(s) && GreedyLike(s, p) && !Likes(s, p)
  {
    if p[0] == '%' || p[0] as int >= 128 {
      EmptyLikes(p);
    } else {
      var q := p[1..];
      assert forall i :: 0 < i < |p| ==> p[i] == q[i - 1];
      FalsePositiveWorks(q);
      assert FalsePositive(p)[1..] == FalsePositive(q);
    }
  }

  ghost predicate NoFalsePositives(p: CString) {
    forall s: CString :: Ascii(s) && GreedyLike(s, p) ==> Likes(s, p)
  }

  // The patterns that never accept a wrong ASCII string, exactly.
  lemma NoFalsePositivesExactly(p: CString)
    ensures NoFalsePositives(p) <==> Ascii(p) && PercentTail(p)
  {
    if Ascii(p) && PercentTail(p) {
      forall s: CString | Ascii(s) && GreedyLike(s, p)
        ensures Likes(s, p)
      {
        var i := SoundUpToACut(s, p);
        ExtendByPercent(s, p, i);
      }
    } else {
      FalsePositiveWorks(p);
    }
  }

  // ---------------------------------------------------------------------
  // When taking the first occurrence never loses a match
  // ---------------------------------------------------------------------

  function LeadingUnderscores(p: CString): (n: nat)
    ensures n <= |p|
    ensures forall i :: 0 <= i < n ==> p[i] == '_'
    ensures n < |p| ==> p[n] != '_'
  {
    if p == [] || p[0] != '_' then 0 else 1 + LeadingUnderscores(p[1..])
  }

  predicate Ordinary(c: CChar) {
    c != '%' && c != '_'
  }

  // `%`, or `%c` with an ordinary c and any number of `_`, followed by the same again.
  predicate Segments(p: CString)
    requires p != [] && p[0] == '%'
  {
    |p| == 1 ||
    (Ordinary(p[1]) &&
     var q := p[2..][LeadingUnderscores(p[2..])..];
     q != [] && q[0] == '%' && Segments(q))
  }

  predicate GreedyShape(p: CString) {
    p == [] || if p[0] == '%' then Segments(p) else GreedyShape(p[1..])
  }

  lemma {:induction false} SkipUnderscores(s: CString, p: CString)
    ensures var n := LeadingUnderscores(p);
            && (Likes(s, p) <==> n <= |s| && Likes(s[n..], p[n..]))
            && (n <= |s| ==> GreedyLike(s, p) == GreedyLike(s[n..], p[n..]))
    decreases |p|
  {
    var n := LeadingUnderscores(p);
    if n == 0 {
      assert s[0..] == s && p[0..] == p;
    } else if s != [] {
      SkipUnderscores(s[1..], p[1..]);
      assert n <= |s| ==> s[1..][n - 1..] == s[n..];
      assert p[1..][n - 1..] == p[n..];
    }
  }

  // The exchange step: what matches after the k-th character still matches
  // after an earlier one when the pattern starts with `%`.
  lemma PercentAbsorbs(s: CString, p: CString, b: nat)
    requires b <= |s| && p != [] && p[0] == '%' && Likes(s[b..], p)
    ensures Likes(s, p)
  {
  }

  // c, then n underscores, then q: what is left to match after the c at k.
  lemma StepOver(s: CString, k: nat, p: CString, q: CString, n: nat)
    requires k <= |s| && p != [] && Ordinary(p[0]) && Likes(s[k..], p)
    requires n == LeadingUnderscores(p[1..]) && q == p[1..][n..]
    ensures k + 1 + n <= |s| && s[k] == p[0] && Likes(s[k + 1 + n..], q)
  {
    assert s[k..][1..] == s[k + 1..];
    SkipUnderscores(s[k + 1..], p[1..]);
    assert s[k + 1..][n..] == s[k + 1 + n..];
  }

  // A match of `%c_..._q` contains a match of q behind the first c already.
  lemma FirstOccurrenceSuffices(s: CString, k: nat, p: CString, q: CString, n: nat, rest: CString)
    requires k <= |s| && p != [] && Ordinary(p[0]) && Likes(s[k..], p)
    requires n == LeadingUnderscores(p[1..]) && q == p[1..][n..] && q != [] && q[0] == '%'
    requires rest == s[if FirstIndex(s, p[0]) < |s| then FirstIndex(s, p[0]) + 1 else |s|..]
    ensures n <= |rest| && FirstIndex(s, p[0]) < |s| && Likes(rest[n..], q)
  {
    StepOver(s, k, p, q, n);
    var shift := k - FirstIndex(s, p[0]);
    assert rest[n..][shift..] == s[k + 1 + n..];
    PercentAbsorbs(rest[n..], q, shift);
  }

  lemma {:induction false} SegmentsComplete(s: CString, p: CString)
    requires p != [] && p[0] == '%' && Segments(p) && Likes(s, p)
    ensures GreedyLike(s, p)
    decreases |p|
  {
    if s != [] && |p| > 1 {
      var n := LeadingUnderscores(p[2..]);
      var q := p[2..][n..];
      var k :| 0 <= k <= |s| && Likes(s[k..], p[1..]);
      assert p[1..][1..] == p[2..];
      var first := FirstIndex(s, p[1]);
      var rest := s[if first < |s| then first + 1 else |s|..];
      FirstOccurrenceSuffices(s, k, p[1..], q, n, rest);
      SegmentsComplete(rest[n..], q);
      assert GreedyLike(rest, p[2..]) by {
        SkipUnderscores(rest, p[2..]);
      }
    }
  }

  lemma {:induction false} GreedyShapeComplete(s: CString, p: CString)
    requires GreedyShape(p) && Likes(s, p)
    ensures GreedyLike(s, p)
    decreases |p|
  {
    if p != [] {
      if p[0] == '%' {
        SegmentsComplete(s, p);
      } else {
        GreedyShapeComplete(s[1..], p[1..]);
      }
    }
  }

  // A shortest string matching p, free of `%` and `_`.
  function Instance(p: CString): (s: CString)
    ensures '%' !in s && '_' !in s
  {
    if p == [] then []
    else if p[0] == '%' then Instance(p[1..])
    else [Pick(p[0])] + Instance(p[1..])
  }

  lemma {:induction false} InstanceLikes(p: CString)
    ensures Likes(Instance(p), p)
  {
    if p != [] {
      InstanceLikes(p[1..]);
      var s := Instance(p);
      if p[0] == '%' {
        assert s[0..] == s;
      } else {
        assert s[1..] == Instance(p[1..]);
      }
    }
  }

  function Fill(n: nat): (s: CString)
    ensures |s| == n
  {
    seq(n, _ => 'x')
  }

  // A string that matches p but that the matcher rejects: it holds a false
  // start, so that the first occurrence is the wrong one.
  function FalseNegative(p: CString): CString
    requires !GreedyShape(p)
    decreases |p|
  {
    if p[0] != '%' then [Pick(p[0])] + FalseNegative(p[1..])
    else if !Ordinary(p[1]) then ['x'] + Instance(p[1..])
    else
      var n := LeadingUnderscores(p[2..]);
      var q := p[2..][n..];
      if q != [] && q[0] == '%' then [p[1]] + Fill(n) + FalseNegative(q)
      else [p[1]] + Fill(n) + [if q != [] && q[0] == 'x' then 'y' else 'x'] + Instance(p[1..])
  }

  // A false start: c and n more characters, then one that does not fit q.
  lemma FalseStart(s: CString, p: CString, q: CString, n: nat)
    requires |p| > 1 && p[0] == '%' && Ordinary(p[1])
    requires n == LeadingUnderscores(p[2..]) && q == p[2..][n..]
    requires n < |s| - 1 && s[0] == p[1] && s[n + 1] as int < 128 && (q == [] || (q[0] != '%' && q[0] != s[n + 1]))
    ensures !GreedyLike(s, p)
  {
    assert FirstIndex(s, p[1]) == 0;
    SkipUnderscores(s[1..], p[2..]);
    assert s[1..][n..][0] == s[n + 1];
  }

  // No false start: the trouble lies behind the next `%`.
  lemma TroubleBehind(s: CString, p: CString, q: CString, n: nat)
    requires |p| > 1 && p[0] == '%' && Ordinary(p[1])
    requires n == LeadingUnderscores(p[2..]) && q == p[2..][n..]
    requires n < |s| && s[0] == p[1] && Likes(s[1 + n..], q) && !GreedyLike(s[1 + n..], q)
    ensures Likes(s, p) && !GreedyLike(s, p)
  {
    assert FirstIndex(s, p[1]) == 0;
    assert s[1..][n..] == s[1 + n..];
    SkipUnderscores(s[1..], p[2..]);
    assert p[1..][1..] == p[2..] && s[0..] == s;
    assert Likes(s[0..], p[1..]);
  }

  lemma {:induction false} FalseNegativeWorks(p: CString)
    requires !GreedyShape(p)
    ensures var s := FalseNegative(p); Likes(s, p) && !GreedyLike(s, p)
    decreases |p|
  {
    var s := FalseNegative(p);
    if p[0] != '%' {
      FalseNegativeWorks(p[1..]);
      assert s[1..] == FalseNegative(p[1..]);
    } else if !Ordinary(p[1]) {
      InstanceLikes(p[1..]);
      assert s[1..] == Instance(p[1..]);
      assert p[1] !in s;
    } else {
      var n := LeadingUnderscores(p[2..]);
      var q := p[2..][n..];
      if q != [] && q[0] == '%' {
        FalseNegativeWorks(q);
        assert s[1 + n..] == FalseNegative(q);
        TroubleBehind(s, p, q, n);
      } else {
        InstanceLikes(p[1..]);
        assert s[n + 2..] == Instance(p[1..]);
        assert Likes(s, p);
        FalseStart(s, p, q, n);
      }
    }
  }

  lemma {:induction false} FalseNegativeAscii(p: CString)
    requires !GreedyShape(p) && Ascii(p)
    ensures Ascii(FalseNegative(p))
    decreases |p|
  {
    if p[0] != '%' {
      FalseNegativeAscii(p[1..]);
    } else {
      InstanceAscii(p[1..]);
      if Ordinary(p[1]) {
        var n := LeadingUnderscores(p[2..]);
        var q := p[2..][n..];
        if q != [] && q[0] == '%' {
          FalseNegativeAscii(q);
        }
      }
    }
  }

  lemma {:induction false} InstanceAscii(p: CString)
    ensures Ascii(p) ==> Ascii(Instance(p))
  {
    if p != [] && Ascii(p) {
      assert forall i :: 0 <= i < |p[1..]| ==> p[1..][i] == p[i + 1];
      InstanceAscii(p[1..]);
    }
  }

  ghost predicate NoFalseNegatives(p: CString) {
    forall s: CString :: Likes(s, p) ==> GreedyLike(s, p)
  }

  // The patterns on which the matcher never misses a match, exactly.
  lemma NoFalseNegativesExactly(p: CString)
    ensures NoFalseNegatives(p) <==> GreedyShape(p)
  {
    if GreedyShape(p) {
      forall s: CString | Likes(s, p)
        ensures GreedyLike(s, p)
      {
        GreedyShapeComplete(s, p);
      }
    } else {
      FalseNegativeWorks(p);
    }
  }

  // ---------------------------------------------------------------------
  // Exactness
  // ---------------------------------------------------------------------

  ghost predicate ExactOnAscii(p: CString) {
    forall s: CString :: Ascii(s) ==> (GreedyLike(s, p) <==> Likes(s, p))
  }

  ghost predicate ExactOnBytes(p: CString) {
    forall s: CString :: GreedyLike(s, p) <==> Likes(s, p)
  }

  // The matcher agrees with LIKE on all ASCII strings exactly for the ASCII
  // patterns whose only `%`, if any, is the last character.
  lemma ExactOnAsciiExactly(p: CString)
    ensures ExactOnAscii(p) <==> Ascii(p) && (forall i :: 0 <= i < |p| - 1 ==> p[i] != '%')
  {
    var simple := forall i :: 0 <= i < |p| - 1 ==> p[i] != '%';
    NoFalsePositivesExactly(p);
    if Ascii(p) && PercentTail(p) {
      SimpleIsGreedyShape(p);
      if simple {
        NoFalseNegativesExactly(p);
      } else {
        FalseNegativeWorks(p);
        FalseNegativeAscii(p);
      }
    } else if ExactOnAscii(p) {
      assert NoFalsePositives(p);
    }
  }

  lemma {:induction false} SimpleIsGreedyShape(p: CString)
    requires PercentTail(p)
    ensures GreedyShape(p) <==> forall i :: 0 <= i < |p| - 1 ==> p[i] != '%'
  {
    if p != [] && p[0] != '%' {
      assert forall i :: 0 < i < |p| ==> p[i] == p[1..][i - 1];
      SimpleIsGreedyShape(p[1..]);
    }
  }

  // On strings with bytes above 127 even a pattern without `%` goes wrong: a
  // trailing negative byte is not noticed. Only `prefix%` is left.
  lemma ExactOnBytesExactly(p: CString)
    ensures ExactOnBytes(p) <==>
            Ascii(p) && p != [] && p[|p| - 1] == '%' && (forall i :: 0 <= i < |p| - 1 ==> p[i] != '%')
  {
    ExactOnAsciiExactly(p);
    if ExactOnBytes(p) {
      assert ExactOnAscii(p);
      if p == [] || p[|p| - 1] != '%' {
        UnnoticedTail(p);
      }
    } else if Ascii(p) && p != [] && p[|p| - 1] == '%' && (forall i :: 0 <= i < |p| - 1 ==> p[i] != '%') {
      forall s: CString
        ensures GreedyLike(s, p) <==> Likes(s, p)
      {
        PrefixExact(s, p);
      }
    }
  }

  lemma {:induction false} UnnoticedTail(p: CString)
    requires '%' !in p
    ensures var s := Instance(p) + ['\U{80}']; GreedyLike(s, p) && !Likes(s, p)
  {
    if p != [] {
      UnnoticedTail(p[1..]);
      var s := Instance(p) + ['\U{80}'];
      assert s[1..] == Instance(p[1..]) + ['\U{80}'];
    }
  }

  lemma {:induction false} PrefixExact(s: CString, p: CString)
    requires Ascii(p) && p != [] && p[|p| - 1] == '%' && forall i :: 0 <= i < |p| - 1 ==> p[i] != '%'
    ensures GreedyLike(s, p) <==> Likes(s, p)
    decreases |p|
  {
    if |p| == 1 {
      assert Likes(s[|s|..], p[1..]);
    } else if s != [] {
      assert forall i :: 0 <= i < |p[1..]| ==> p[1..][i] == p[i + 1];
      PrefixExact(s[1..], p[1..]);
    }
  }
}
