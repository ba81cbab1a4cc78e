// Cell values, their types, and the comparison functions of the filters.
module Values {
  import opened CText
  import opened Integers
  import opened Like

  datatype Option<+T> = None | Some(value: T)

  // The C library's conversion of a text to an integer: some function of the text.
  type IntConversion = CString -> Option<Word>

  datatype BaseType = Invalid | String | Int32 | Int64

  // A cell as a comparison sees it.
  datatype Value = Num(n: int) | Text(s: CString)

  // The integer a cell or a filter value of an integer type stands for: an INT32
  // is stored and compared through its low 32 bits.
  function NumberOf(ctype: BaseType, w: Word): int {
    if ctype == Int32 then Signed32(w % TWO32) else Signed64(w)
  }

  // The signed number that a word stands for in `range` bit patterns: the one number
  // of the signed range that is congruent to the word.
  predicate IsSigned(n: int, w: int, range: int)
    requires range > 0
  {
    -range <= 2 * n < range && (n - w) % range == 0
  }

  lemma NumberIsSigned(ctype: BaseType, w: Word, n: int)
    ensures ctype == Int32 ==> (n == NumberOf(ctype, w) <==> IsSigned(n, w, TWO32))
    ensures ctype == Int64 ==> (n == NumberOf(ctype, w) <==> IsSigned(n, w, TWO64))
  {
  }

  // INT32 columns are faithful to the literal exactly when it fits 32 signed bits.
  lemma Int32Exactly(w: Word)
    ensures NumberOf(Int32, w) == Signed64(w) <==> -TWO31 <= Signed64(w) < TWO31
  {
  }

  // strcmp: bytes are compared unsigned, the end of a string counts as 0.
  function StrCmp(a: CString, b: CString): int {
    if a == [] || b == [] then |a| - |b|
    else if a[0] != b[0] then a[0] as int - b[0] as int
    else StrCmp(a[1..], b[1..])
  }

  // Lexicographic order on bytes, a prefix being the smaller string.
  ghost predicate LexLess(a: CString, b: CString) {
    exists k: nat :: LessAt(a, b, k)
  }

  // One comparison at position k decides.
  ghost predicate LessAt(a: CString, b: CString, k: nat) {
    k <= |a| && k < |b| && a[..k] == b[..k] && (k < |a| ==> a[k] < b[k])
  }

  lemma {:induction false} StrCmpOrders(a: CString, b: CString)
    ensures StrCmp(a, b) == 0 <==> a == b
    ensures StrCmp(a, b) < 0 <==> LexLess(a, b)
    ensures StrCmp(a, b) > 0 <==> LexLess(b, a)
  {
    if a == [] || b == [] {
      assert LessAt(a, b, 0) <==> |a| < |b|;
      assert LessAt(b, a, 0) <==> |b| < |a|;
    } else if a[0] != b[0] {
      assert LessAt(a, b, 0) || LessAt(b, a, 0);
      assert forall k: nat :: 0 < k <= |a| && k <= |b| ==> a[..k][0] == a[0] && b[..k][0] == b[0];
    } else {
      StrCmpOrders(a[1..], b[1..]);
      LexStep(a, b);
      LexStep(b, a);
      assert a == [a[0]] + a[1..] && b == [b[0]] + b[1..];
    }
  }

  lemma LessAtStep(a: CString, b: CString, k: nat)
    requires a != [] && b != [] && a[0] == b[0]
    ensures LessAt(a, b, k + 1) <==> LessAt(a[1..], b[1..], k)
  {
    if k < |a| && k < |b| {
      assert a[..k + 1] == [a[0]] + a[1..][..k] && b[..k + 1] == [b[0]] + b[1..][..k];
    }
  }

  lemma LexStep(a: CString, b: CString)
    requires a != [] && b != [] && a[0] == b[0]
    ensures LexLess(a, b) <==> LexLess(a[1..], b[1..])
  {
    if LexLess(a, b) {
      var k: nat :| LessAt(a, b, k);
      assert k != 0;
      LessAtStep(a, b, k - 1);
    }
    if LexLess(a[1..], b[1..]) {
      var k: nat :| LessAt(a[1..], b[1..], k);
      LessAtStep(a, b, k);
    }
  }

  datatype FilterOp = FInvalid | FNone | Equal | NotEqual | Greater | GreaterEqual | Lesser | LesserEqual | FLike

  // Both sides are read according to the type of the column.
  predicate Typed(ctype: BaseType, v: Value) {
    match ctype
    case Invalid => true
    case String => v.Text?
    case _ => v.Num?
  }

  predicate FilterFuncEquals(ctype: BaseType, left: Value, right: Value)
    requires Typed(ctype, left) && Typed(ctype, right)
  {
    match ctype
    case Invalid => false
    case String => StrCmp(left.s, right.s) == 0
    case _ => left.n == right.n
  }

  predicate FilterFuncGreater(ctype: BaseType, left: Value, right: Value)
    requires Typed(ctype, left) && Typed(ctype, right)
  {
    match ctype
    case Invalid => false
    case String => StrCmp(left.s, right.s) > 0
    case _ => left.n > right.n
  }

  predicate FilterFuncGreaterEqual(ctype: BaseType, left: Value, right: Value)
    requires Typed(ctype, left) && Typed(ctype, right)
  {
    FilterFuncEquals(ctype, left, right) || FilterFuncGreater(ctype, left, right)
  }

  predicate FilterFuncLesser(ctype: BaseType, left: Value, right: Value)
    requires Typed(ctype, left) && Typed(ctype, right)
  {
    match ctype
    case Invalid => false
    case String => StrCmp(left.s, right.s) < 0
    case _ => left.n < right.n
  }

  predicate FilterFuncLesserEqual(ctype: BaseType, left: Value, right: Value)
    requires Typed(ctype, left) && Typed(ctype, right)
  {
    FilterFuncEquals(ctype, left, right) || FilterFuncLesser(ctype, left, right)
  }

  // The operators with an entry in the function table. `!=` parses but has none.
  predicate Supported(op: FilterOp) {
    op != FInvalid && op != FNone && op != NotEqual
  }

  predicate Holds(op: FilterOp, ctype: BaseType, left: Value, right: Value)
    requires Supported(op) && Typed(ctype, left) && Typed(ctype, right)
  {
    match op
    case Equal => FilterFuncEquals(ctype, left, right)
    case Greater => FilterFuncGreater(ctype, left, right)
    case GreaterEqual => FilterFuncGreaterEqual(ctype, left, right)
    case Lesser => FilterFuncLesser(ctype, left, right)
    case LesserEqual => FilterFuncLesserEqual(ctype, left, right)
    case FLike =>
      match ctype {
        case Invalid => false
        case String => GreedyLike(left.s, right.s)
        case _ => left.n == right.n
      }
  }

  method CallFilterFunc(op: FilterOp, ctype: BaseType, left: Value, right: Value) returns (b: bool)
    requires Supported(op) && Typed(ctype, left) && Typed(ctype, right)
    ensures b == Holds(op, ctype, left, right)
  {
    match op {
      case Equal => b := FilterFuncEquals(ctype, left, right);
      case Greater => b := FilterFuncGreater(ctype, left, right);
      case GreaterEqual => b := FilterFuncGreaterEqual(ctype, left, right);
      case Lesser => b := FilterFuncLesser(ctype, left, right);
      case LesserEqual => b := FilterFuncLesserEqual(ctype, left, right);
      case FLike =>
        match ctype {
          case Invalid => b := false;
          case String => b := FilterFuncLike(left.s, right.s);
          case _ => b := left.n == right.n;
        }
    }
  }

  // Of the operators that parse, only `!=` has no comparison function.
  lemma SupportedExactly(op: FilterOp)
    ensures Supported(op) <==> op in {Equal, Greater, GreaterEqual, Lesser, LesserEqual, FLike}
  {
  }

  // LIKE takes the cell for the text and the value for the pattern. On numbers it is
  // equality; on strings it is the LIKE predicate of SQL where the matcher is.
  lemma LikeReadsCellAgainstPattern(ctype: BaseType, cell: Value, pattern: Value)
    requires ctype != Invalid && Typed(ctype, cell) && Typed(ctype, pattern)
    ensures ctype != String ==> (Holds(FLike, ctype, cell, pattern) <==> cell == pattern)
    ensures ctype == String ==> LikeAnswers(cell.s, pattern.s, Holds(FLike, ctype, cell, pattern))
  {
    if ctype == String {
      var s, p := cell.s, pattern.s;
      ExactOnAsciiExactly(p);
      ExactOnBytesExactly(p);
      NoFalseNegativesExactly(p);
      if Ascii(s) && Ascii(p) && GreedyLike(s, p) {
        var i := SoundUpToACut(s, p);
        assert CutMatches(s, p, i);
      }
    }
  }

  // The string matches the pattern up to i, where the pattern or a part of it ends.
  ghost predicate CutMatches(s: CString, p: CString, i: nat) {
    i <= |p| && (i == |p| || p[i] == '%') && Likes(s, p[..i])
  }

  ghost predicate LikeAnswers(s: CString, p: CString, answer: bool) {
    && (Ascii(s) && Ascii(p) && (forall i :: 0 <= i < |p| - 1 ==> p[i] != '%') ==> (answer <==> Likes(s, p)))
    && (Ascii(p) && p != [] && p[|p| - 1] == '%' && (forall i :: 0 <= i < |p| - 1 ==> p[i] != '%') ==>
          (answer <==> Likes(s, p)))
    && (GreedyShape(p) && Likes(s, p) ==> answer)
    && (Ascii(s) && Ascii(p) && answer ==> exists i: nat :: CutMatches(s, p, i))
  }

  // The order that <, = and > follow: numbers by value, strings byte by byte.
  ghost predicate Precedes(a: Value, b: Value) {
    (a.Num? && b.Num? && a.n < b.n) || (a.Text? && b.Text? && LexLess(a.s, b.s))
  }

  lemma ComparisonsFollowOrder(ctype: BaseType, left: Value, right: Value)
    requires ctype != Invalid && Typed(ctype, left) && Typed(ctype, right)
    ensures Holds(Equal, ctype, left, right) <==> left == right
    ensures Holds(Lesser, ctype, left, right) <==> Precedes(left, right)
    ensures Holds(Greater, ctype, left, right) <==> Precedes(right, left)
    ensures Holds(LesserEqual, ctype, left, right) <==> !Precedes(right, left)
    ensures Holds(GreaterEqual, ctype, left, right) <==> !Precedes(left, right)
  {
    if ctype == String {
      StrCmpOrders(left.s, right.s);
    }
  }
}
