// C strings: NUL-terminated byte arrays, seen as the sequence of the bytes before the NUL.
module CText {

  // A byte that can occur inside a C string: anything but NUL.
  type CChar = c: char | 0 < c as int < 256 witness 'a'

  type CString = seq<CChar>

  // The value of the byte as a plain (signed, 8-bit) C `char`.
  function Signed(c: CChar): int {
    if c as int < 128 then c as int else c as int - 256
  }

  predicate Ascii(s: CString) {
    forall i :: 0 <= i < |s| ==> s[i] as int < 128
  }

  // Index of the first c in s, or |s| when there is none.
  function FirstIndex(s: CString, c: CChar): (k: nat)
    ensures k <= |s|
    ensures forall i :: 0 <= i < k ==> s[i] != c
    ensures k < |s| ==> s[k] == c
  {
    if s == [] || s[0] == c then 0 else 1 + FirstIndex(s[1..], c)
  }

  // tolower in the C locale.
  function Lower(c: CChar): CChar {
    if 'A' <= c <= 'Z' then (c as int + 32) as char else c
  }

  // Two bytes are the same letter exactly when they are equal or a pair A-a, ..., Z-z.
  lemma SameLetter(c: CChar, e: CChar)
    ensures Lower(c) == Lower(e) <==>
            || c == e
            || ('A' <= c <= 'Z' && e as int - c as int == 'a' as int - 'A' as int)
            || ('A' <= e <= 'Z' && c as int - e as int == 'a' as int - 'A' as int)
  {
  }

  // Equal up to letter case.
  predicate SameIgnoringCase(s: CString, t: CString) {
    |s| == |t| && forall i :: 0 <= i < |s| ==> Lower(s[i]) == Lower(t[i])
  }

  method StrIEq(s1: CString, s2: CString) returns (r: bool)
    ensures r == SameIgnoringCase(s1, s2)
  {
    var i := 0;
    while i < |s1| && i < |s2|
      invariant 0 <= i <= |s1| && i <= |s2|
      invariant forall j :: 0 <= j < i ==> Lower(s1[j]) == Lower(s2[j])
    {
      if Lower(s1[i]) != Lower(s2[i]) {
        return false;
      }
      i := i + 1;
    }
    return i == |s1| && i == |s2|;
  }
}
