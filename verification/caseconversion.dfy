/**
  The fourteen exported conversions of the case-conversion library, each
  composed exactly as the library composes them from the string built-ins
  and the substitution scans. Every one is total: no input is refused.
 */
module CaseConversion {
  import opened Ascii
  import opened JsString
  import opened Substitution

  /** camelCase to snake_case: `_` plus the lower-cased letter for each `A`-`Z`. */
  function CamelToSnake(s: string): (r: string)
    ensures |r| == |s| + CountUpper(s)
    ensures NoUpper(r)
    ensures Count('_', r) == Count('_', s) + CountUpper(s)
    ensures |s| > 0 && IsUpper(s[0]) ==> r[0] == '_'
    ensures forall k {:trigger Landing(s, k)} :: 0 <= k < |s| ==> Landing(s, k) < |r| && r[Landing(s, k)] == Lower(s[k])
    ensures forall k {:trigger Landing(s, k)} :: 0 <= k < |s| && IsUpper(s[k]) ==> Landing(s, k) - 1 < |r| && r[Landing(s, k) - 1] == '_'
  {
    InsertSepPlaces('_', s);
    InsertSep('_', s)
  }

  /** snake_case to camelCase: lower-case, then each `_` and the character after it become that character upper-cased. */
  function SnakeToCamel(s: string): (r: string)
    ensures |r| == |s| - Matches('_', LowerStr(s))
    ensures '_' !in s ==> r == LowerStr(s)
    // The same length, counted by the match starts the placement clause below uses.
    ensures |r| == |s| - MatchesBefore('_', s, |s|)
    ensures forall i {:trigger MatchesBefore('_', s, i)} :: 0 <= i < |s| && !MatchStart('_', s, i) ==>
              && i - MatchesBefore('_', s, i) < |r|
              && r[i - MatchesBefore('_', s, i)] == (if 0 < i && MatchStart('_', s, i - 1) then Upper(s[i]) else Lower(s[i]))
  {
    JoinSepNoSep('_', s);
    JoinSepPlaces('_', s);
    JoinSep('_', s)
  }

  /** camelCase to PascalCase: replace the first occurrence of the first character by its upper case. */
  function CamelToPascal(s: string): (r: string)
    ensures |r| == |s|
    ensures |s| > 0 ==> r[0] == Upper(s[0])
    ensures forall i :: 0 < i < |s| ==> r[i] == s[i]
  {
    var first := CharAt(s, 0);
    assert OccursAt(first, s, 0);
    ReplaceFirst(s, first, UpperStr(first))
  }

  /** PascalCase to camelCase: the first character lower-cased, then the rest. */
  function PascalToCamel(s: string): (r: string)
    ensures |r| == |s|
    ensures |s| > 0 ==> r[0] == Lower(s[0])
    ensures forall i :: 0 < i < |s| ==> r[i] == s[i]
  {
    LowerStr(CharAt(s, 0)) + Slice(s, 1)
  }

  /** camelCase to kebab-case: `-` plus the lower-cased letter for each `A`-`Z`. */
  function CamelToKebab(s: string): (r: string)
    ensures |r| == |s| + CountUpper(s)
    ensures NoUpper(r)
    ensures Count('-', r) == Count('-', s) + CountUpper(s)
    ensures |s| > 0 && IsUpper(s[0]) ==> r[0] == '-'
    ensures forall k {:trigger Landing(s, k)} :: 0 <= k < |s| ==> Landing(s, k) < |r| && r[Landing(s, k)] == Lower(s[k])
    ensures forall k {:trigger Landing(s, k)} :: 0 <= k < |s| && IsUpper(s[k]) ==> Landing(s, k) - 1 < |r| && r[Landing(s, k) - 1] == '-'
  {
    InsertSepPlaces('-', s);
    InsertSep('-', s)
  }

  /** kebab-case to camelCase: lower-case, then each `-` and the character after it become that character upper-cased. */
  function KebabToCamel(s: string): (r: string)
    ensures |r| == |s| - Matches('-', LowerStr(s))
    ensures '-' !in s ==> r == LowerStr(s)
    // The same length, counted by the match starts the placement clause below uses.
    ensures |r| == |s| - MatchesBefore('-', s, |s|)
    ensures forall i {:trigger MatchesBefore('-', s, i)} :: 0 <= i < |s| && !MatchStart('-', s, i) ==>
              && i - MatchesBefore('-', s, i) < |r|
              && r[i - MatchesBefore('-', s, i)] == (if 0 < i && MatchStart('-', s, i - 1) then Upper(s[i]) else Lower(s[i]))
  {
    JoinSepNoSep('-', s);
    JoinSepPlaces('-', s);
    JoinSep('-', s)
  }

  /** camelCase to UPPER_SNAKE_CASE: snake_case, then upper-case everything. */
  function CamelToUpperSnake(s: string): (r: string)
    ensures |r| == |s| + CountUpper(s)
    ensures NoLower(r)
    ensures |s| > 0 && IsUpper(s[0]) ==> r[0] == '_'
    ensures forall k {:trigger Landing(s, k)} :: 0 <= k < |s| ==> Landing(s, k) < |r| && r[Landing(s, k)] == Upper(s[k])
    ensures forall k {:trigger Landing(s, k)} :: 0 <= k < |s| && IsUpper(s[k]) ==> Landing(s, k) - 1 < |r| && r[Landing(s, k) - 1] == '_'
  {
    forall k | 0 <= k < |s|
      ensures Upper(Lower(s[k])) == Upper(s[k])
    {
      CaseInverse(s[k]);
    }
    UpperStr(CamelToSnake(s))
  }

  /** UPPER_SNAKE_CASE to camelCase: lower-case, then snake_case to camelCase. */
  function UpperSnakeToCamel(s: string): (r: string)
    ensures r == SnakeToCamel(s)
  {
    LowerStrFixedPoint(LowerStr(s));
    SnakeToCamel(LowerStr(s))
  }

  /** Every `A`-`Z` lower-cased, everything else unchanged. */
  function ToLowerCase(s: string): (r: string)
    ensures |r| == |s|
    ensures NoUpper(r)
    ensures forall i :: 0 <= i < |s| && !IsUpper(s[i]) ==> r[i] == s[i]
  {
    LowerStr(s)
  }

  /** Every `a`-`z` upper-cased, everything else unchanged. */
  function ToUpperCase(s: string): (r: string)
    ensures |r| == |s|
    ensures NoLower(r)
    ensures forall i :: 0 <= i < |s| && !IsLower(s[i]) ==> r[i] == s[i]
  {
    UpperStr(s)
  }

  /** camelCase to Title Case: a space before each `A`-`Z`, then the first character upper-cased. */
  function CamelToTitle(s: string): (r: string)
    ensures |r| == |s| + CountUpper(s)
    ensures forall i :: 0 < i < |r| && IsUpper(r[i]) ==> r[i - 1] == ' '
    ensures |s| > 0 && IsUpper(s[0]) ==> r[0] == ' '
    ensures |s| > 0 && !IsUpper(s[0]) ==> r[0] == Upper(s[0])
    ensures forall k {:trigger Landing(s, k)} :: 0 <= k < |s| ==> Landing(s, k) < |r| && r[Landing(s, k)] == (if k == 0 then Upper(s[0]) else s[k])
    ensures forall k {:trigger Landing(s, k)} :: 0 <= k < |s| && IsUpper(s[k]) ==> Landing(s, k) - 1 < |r| && r[Landing(s, k) - 1] == ' '
  {
    InsertBeforeMarksCapitals(' ', s);
    InsertBeforePlaces(' ', s);
    InsertBeforeMarksPlaces(' ', s);
    CapitalizeFirst(InsertBefore(' ', s))
  }

  /** Sentence case: the first character upper-cased, all the rest lower-cased. */
  function ToSentenceCase(s: string): (r: string)
    ensures |r| == |s|
    ensures |s| > 0 ==> r[0] == Upper(s[0])
    ensures forall i :: 0 < i < |r| ==> !IsUpper(r[i]) && r[i] == Lower(s[i])
  {
    UpperStr(CharAt(s, 0)) + LowerStr(Slice(s, 1))
  }

  /** camelCase to dot.notation: `.` plus the lower-cased letter for each `A`-`Z`. */
  function CamelToDotNotation(s: string): (r: string)
    ensures |r| == |s| + CountUpper(s)
    ensures NoUpper(r)
    ensures Count('.', r) == Count('.', s) + CountUpper(s)
    ensures |s| > 0 && IsUpper(s[0]) ==> r[0] == '.'
    ensures forall k {:trigger Landing(s, k)} :: 0 <= k < |s| ==> Landing(s, k) < |r| && r[Landing(s, k)] == Lower(s[k])
    ensures forall k {:trigger Landing(s, k)} :: 0 <= k < |s| && IsUpper(s[k]) ==> Landing(s, k) - 1 < |r| && r[Landing(s, k) - 1] == '.'
  {
    InsertSepPlaces('.', s);
    InsertSep('.', s)
  }

  /** dot.notation to camelCase: lower-case, then each `.` and the character after it become that character upper-cased. */
  function DotNotationToCamel(s: string): (r: string)
    ensures |r| == |s| - Matches('.', LowerStr(s))
    ensures '.' !in s ==> r == LowerStr(s)
    // The same length, counted by the match starts the placement clause below uses.
    ensures |r| == |s| - MatchesBefore('.', s, |s|)
    ensures forall i {:trigger MatchesBefore('.', s, i)} :: 0 <= i < |s| && !MatchStart('.', s, i) ==>
              && i - MatchesBefore('.', s, i) < |r|
              && r[i - MatchesBefore('.', s, i)] == (if 0 < i && MatchStart('.', s, i - 1) then Upper(s[i]) else Lower(s[i]))
  {
    JoinSepNoSep('.', s);
    JoinSepPlaces('.', s);
    JoinSep('.', s)
  }
}
