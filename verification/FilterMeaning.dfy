// What a single condition of a WHERE asks of a row, said without the functions that
// evaluate it.
module FilterMeaning {
  import opened CText
  import opened Integers
  import opened Values
  import opened Filters

  // The value that a text denotes in a column: an integer is read by the C library
  // and cut to the width of the column, a string is the text itself.
  predicate Denotes(conv: IntConversion, ctype: BaseType, text: CString, v: Value) {
    if ctype == Int32 || ctype == Int64 then
      conv(text).Some? && v.Num? && IsSigned(v.n, conv(text).value, if ctype == Int32 then TWO32 else TWO64)
    else v == Text(text)
  }

  predicate Convertible(conv: IntConversion, ctype: BaseType, text: CString) {
    ctype == Int32 || ctype == Int64 ==> conv(text).Some?
  }

  lemma LiteralDenotes(conv: IntConversion, ctype: BaseType, text: CString)
    ensures Literal(conv, ctype, text).Some? <==> Convertible(conv, ctype, text)
    ensures forall v :: Literal(conv, ctype, text) == Some(v) <==> Denotes(conv, ctype, text, v)
  {
    if conv(text).Some? {
      forall n: int
        ensures ctype == Int32 ==> (n == NumberOf(ctype, conv(text).value) <==> IsSigned(n, conv(text).value, TWO32))
        ensures ctype == Int64 ==> (n == NumberOf(ctype, conv(text).value) <==> IsSigned(n, conv(text).value, TWO64))
      {
        NumberIsSigned(ctype, conv(text).value, n);
      }
    }
  }

  // Column c is the one that the name finds.
  predicate Names(cols: seq<ColumnMeta>, name: CString, c: nat) {
    c < |cols| && cols[c].name == name && forall i :: 0 <= i < c ==> cols[i].name != name
  }

  // A condition is about the first column of its name, or fails to resolve.
  lemma ResolvesExactly(cols: seq<ColumnMeta>, conv: IntConversion, f: Filter)
    ensures (forall i :: 0 <= i < |cols| ==> cols[i].name != f.column) ==>
              Resolve(cols, conv, f) == Unresolved(ColumnNotFound)
    ensures forall c: nat :: Names(cols, f.column, c) ==>
              var at, ctype := Resolve(cols, conv, f), cols[c].ctype;
              if ctype == Invalid then at == Unresolved(ServerError)
              else if !Convertible(conv, ctype, f.value) then at == Unresolved(FilterValueType)
              else at.Column? && at.c == c && Denotes(conv, ctype, f.value, at.right)
  {
    forall c: nat | Names(cols, f.column, c)
      ensures FindColumn(cols, f.column) == c
    {
    }
    var c := FindColumn(cols, f.column);
    if c < |cols| {
      LiteralDenotes(conv, cols[c].ctype, f.value);
    }
  }

  // How the comparison of a cell with a value is meant.
  ghost predicate Compares(op: FilterOp, cell: Value, value: Value)
    requires op in {Equal, Greater, GreaterEqual, Lesser, LesserEqual}
  {
    match op
    case Equal => cell == value
    case Greater => Precedes(value, cell)
    case GreaterEqual => !Precedes(cell, value)
    case Lesser => Precedes(cell, value)
    case LesserEqual => !Precedes(value, cell)
  }

  // A row passes a comparison exactly when the cell of the named column compares so
  // with the value the text denotes there.
  lemma PassesComparison(cols: seq<ColumnMeta>, conv: IntConversion, f: Filter, row: Row, c: nat)
    requires RowTyped(cols, row) && Names(cols, f.column, c) && cols[c].ctype != Invalid
    requires f.op in {Equal, Greater, GreaterEqual, Lesser, LesserEqual}
    ensures Passes(cols, conv, f, row) <==>
            exists value :: Denotes(conv, cols[c].ctype, f.value, value) && Compares(f.op, row[c], value)
  {
    ResolvesExactly(cols, conv, f);
    LiteralDenotes(conv, cols[c].ctype, f.value);
    var at := Resolve(cols, conv, f);
    if at.Column? {
      ComparisonsFollowOrder(cols[c].ctype, row[c], at.right);
    }
  }

  // ... and LIKE when the cell is matched by the value as a pattern.
  lemma PassesLike(cols: seq<ColumnMeta>, conv: IntConversion, f: Filter, row: Row, c: nat)
    requires RowTyped(cols, row) && Names(cols, f.column, c) && cols[c].ctype != Invalid && f.op == FLike
    ensures cols[c].ctype == String ==> LikeAnswers(row[c].s, f.value, Passes(cols, conv, f, row))
    ensures cols[c].ctype != String ==>
              (Passes(cols, conv, f, row) <==> Denotes(conv, cols[c].ctype, f.value, row[c]))
  {
    ResolvesExactly(cols, conv, f);
    LiteralDenotes(conv, cols[c].ctype, f.value);
    var at := Resolve(cols, conv, f);
    if at.Column? {
      LikeReadsCellAgainstPattern(cols[c].ctype, row[c], at.right);
    }
  }

  // No row passes a condition on an unknown column, with a value that does not
  // convert, or with `!=`.
  lemma PassesNothing(cols: seq<ColumnMeta>, conv: IntConversion, f: Filter, row: Row)
    requires RowTyped(cols, row)
    requires || f.op == NotEqual
             || forall c: nat :: Names(cols, f.column, c) ==> !Convertible(conv, cols[c].ctype, f.value)
    ensures !Passes(cols, conv, f, row)
  {
    ResolvesExactly(cols, conv, f);
    var c := FindColumn(cols, f.column);
    assert c < |cols| ==> Names(cols, f.column, c);
  }
}
