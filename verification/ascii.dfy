/**
  ASCII character classes and the case maps that JavaScript's
  `String.prototype.toLowerCase` / `toUpperCase` perform on ASCII text.
  Characters outside `A`-`Z` / `a`-`z` are left unchanged by both maps.
 */
module Ascii {

  predicate IsUpper(c: char) { 'A' <= c <= 'Z' }

  predicate IsLower(c: char) { 'a' <= c <= 'z' }

  predicate IsLetter(c: char) { IsUpper(c) || IsLower(c) }

  /** The characters ECMAScript calls LineTerminator: the regex `.` does not match them. */
  predicate IsLineTerminator(c: char) {
    c == '\n' || c == '\r' || c == '\U{2028}' || c == '\U{2029}'
  }

  /** Lower-case one character. */
  function Lower(c: char): (r: char)
    ensures !IsUpper(r)
    ensures IsUpper(c) <==> IsLower(r) && r != c
    ensures !IsUpper(c) ==> r == c
  {
    if IsUpper(c) then (c as int - 'A' as int + 'a' as int) as char else c
  }

  /** Upper-case one character. */
  function Upper(c: char): (r: char)
    ensures !IsLower(r)
    ensures IsLower(c) <==> IsUpper(r) && r != c
    ensures !IsLower(c) ==> r == c
  {
    if IsLower(c) then (c as int - 'a' as int + 'A' as int) as char else c
  }

  /** The two maps undo each other on the letters they change. */
  lemma CaseInverse(c: char)
    ensures IsUpper(c) ==> Upper(Lower(c)) == c
    ensures IsLower(c) ==> Lower(Upper(c)) == c
    ensures Lower(Upper(c)) == Lower(c)
    ensures Upper(Lower(c)) == Upper(c)
  {
  }

  predicate NoUpper(s: string) {
    forall i :: 0 <= i < |s| ==> !IsUpper(s[i])
  }

  predicate NoLower(s: string) {
    forall i :: 0 <= i < |s| ==> !IsLower(s[i])
  }

  /** Number of `A`-`Z` characters in `s`. */
  function CountUpper(s: string): (n: nat)
    ensures n <= |s|
    ensures n == 0 <==> NoUpper(s)
  {
    if |s| == 0 then 0
    else (if IsUpper(s[0]) then 1 else 0) + CountUpper(s[1..])
  }

  lemma CountUpperAppend(s: string, t: string)
    ensures CountUpper(s + t) == CountUpper(s) + CountUpper(t)
  {
    if |s| == 0 {
      assert s + t == t;
    } else {
      assert (s + t)[0] == s[0];
      assert (s + t)[1..] == s[1..] + t;
      CountUpperAppend(s[1..], t);
    }
  }

  /** `str.toLowerCase()` on ASCII text. */
  function LowerStr(s: string): (r: string)
    ensures |r| == |s|
    ensures forall i :: 0 <= i < |s| ==> r[i] == Lower(s[i])
    ensures NoUpper(r)
  {
    if |s| == 0 then [] else [Lower(s[0])] + LowerStr(s[1..])
  }

  /** `str.toUpperCase()` on ASCII text. */
  function UpperStr(s: string): (r: string)
    ensures |r| == |s|
    ensures forall i :: 0 <= i < |s| ==> r[i] == Upper(s[i])
    ensures NoLower(r)
  {
    if |s| == 0 then [] else [Upper(s[0])] + UpperStr(s[1..])
  }

  /** Lower-casing changes exactly the strings that hold an upper-case letter. */
  lemma LowerStrFixedPoint(s: string)
    ensures LowerStr(s) == s <==> NoUpper(s)
  {
    if !NoUpper(s) {
      var i :| 0 <= i < |s| && IsUpper(s[i]);
      assert LowerStr(s)[i] != s[i];
    }
  }

  lemma UpperStrFixedPoint(s: string)
    ensures UpperStr(s) == s <==> NoLower(s)
  {
    if !NoLower(s) {
      var i :| 0 <= i < |s| && IsLower(s[i]);
      assert UpperStr(s)[i] != s[i];
    }
  }

  /** Only the last case map applied matters. */
  lemma LastCaseMapWins(s: string)
    ensures LowerStr(UpperStr(s)) == LowerStr(s)
    ensures UpperStr(LowerStr(s)) == UpperStr(s)
  {
    forall i | 0 <= i < |s| {
      CaseInverse(s[i]);
    }
  }

  /** Both string case maps distribute over concatenation. */
  lemma CaseMapsAppend(s: string, t: string)
    ensures LowerStr(s + t) == LowerStr(s) + LowerStr(t)
    ensures UpperStr(s + t) == UpperStr(s) + UpperStr(t)
  {
  }
}
