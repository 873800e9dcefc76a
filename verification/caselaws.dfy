/**
  Laws relating the conversions to each other: round trips between each
  "to" and "from" pair, idempotence of the whole-string case maps, and the
  behaviour on the empty string.
 */
module CaseLaws {
  import opened Ascii
  import opened JsString
  import opened Substitution
  import opened CaseConversion

  /** camelCase -> snake_case -> camelCase is the identity on text without `_`, even with a leading capital. */
  lemma SnakeRoundTrip(s: string)
    requires '_' !in s
    ensures SnakeToCamel(CamelToSnake(s)) == s
  {
    JoinSepInsertSep('_', s);
  }

  /** snake_case -> camelCase -> snake_case is the identity on canonical snake_case. */
  lemma SnakeInverseRoundTrip(t: string)
    requires Separated('_', t)
    ensures CamelToSnake(SnakeToCamel(t)) == t
  {
    InsertSepJoinSep('_', t);
  }

  lemma KebabRoundTrip(s: string)
    requires '-' !in s
    ensures KebabToCamel(CamelToKebab(s)) == s
  {
    JoinSepInsertSep('-', s);
  }

  lemma KebabInverseRoundTrip(t: string)
    requires Separated('-', t)
    ensures CamelToKebab(KebabToCamel(t)) == t
  {
    InsertSepJoinSep('-', t);
  }

  lemma DotNotationRoundTrip(s: string)
    requires '.' !in s
    ensures DotNotationToCamel(CamelToDotNotation(s)) == s
  {
    JoinSepInsertSep('.', s);
  }

  lemma DotNotationInverseRoundTrip(t: string)
    requires Separated('.', t)
    ensures CamelToDotNotation(DotNotationToCamel(t)) == t
  {
    InsertSepJoinSep('.', t);
  }

  /** camelCase -> UPPER_SNAKE_CASE -> camelCase is the identity on text without `_`. */
  lemma UpperSnakeRoundTrip(s: string)
    requires '_' !in s
    ensures UpperSnakeToCamel(CamelToUpperSnake(s)) == s
  {
    var snake := CamelToSnake(s);
    LastCaseMapWins(snake);
    LowerStrFixedPoint(snake);
    SnakeRoundTrip(s);
  }

  predicate EndsWith(s: string, c: char) {
    |s| > 0 && s[|s| - 1] == c
  }

  lemma JoinSepKeepsTrailingSep(sep: char, s: string)
    requires !IsLetter(sep) && EndsWith(s, sep)
    ensures EndsWith(JoinSep(sep, s), sep)
  {
    JoinKeepsTrailingSep(sep, LowerStr(s));
  }

  /** A separator at the end of the input has nothing to join with and is kept. */
  lemma TrailingSeparatorSurvives(s: string)
    ensures EndsWith(s, '_') ==> EndsWith(SnakeToCamel(s), '_')
    ensures EndsWith(s, '-') ==> EndsWith(KebabToCamel(s), '-')
    ensures EndsWith(s, '.') ==> EndsWith(DotNotationToCamel(s), '.')
  {
    if EndsWith(s, '_') {
      JoinSepKeepsTrailingSep('_', s);
    }
    if EndsWith(s, '-') {
      JoinSepKeepsTrailingSep('-', s);
    }
    if EndsWith(s, '.') {
      JoinSepKeepsTrailingSep('.', s);
    }
  }

  /** PascalCase and camelCase undo each other exactly when the first character does not already have the target case. */
  lemma PascalRoundTrip(s: string)
    ensures PascalToCamel(CamelToPascal(s)) == s <==> |s| == 0 || !IsUpper(s[0])
    ensures CamelToPascal(PascalToCamel(s)) == s <==> |s| == 0 || !IsLower(s[0])
  {
    if |s| > 0 {
      CaseInverse(s[0]);
      assert IsUpper(s[0]) ==> PascalToCamel(CamelToPascal(s))[0] != s[0];
      assert IsLower(s[0]) ==> CamelToPascal(PascalToCamel(s))[0] != s[0];
    }
  }

  /** The first-character maps are idempotent. */
  lemma PascalIdempotent(s: string)
    ensures CamelToPascal(CamelToPascal(s)) == CamelToPascal(s)
    ensures PascalToCamel(PascalToCamel(s)) == PascalToCamel(s)
  {
    if |s| > 0 {
      CaseInverse(s[0]);
    }
  }

  /** Whole-string case maps are idempotent and the last one applied decides the result. */
  lemma CaseMapsIdempotent(s: string)
    ensures ToLowerCase(ToLowerCase(s)) == ToLowerCase(s)
    ensures ToUpperCase(ToUpperCase(s)) == ToUpperCase(s)
    ensures ToUpperCase(ToLowerCase(s)) == ToUpperCase(s)
    ensures ToLowerCase(ToUpperCase(s)) == ToLowerCase(s)
  {
    LowerStrFixedPoint(LowerStr(s));
    UpperStrFixedPoint(UpperStr(s));
    LastCaseMapWins(s);
  }

  /** Sentence case is idempotent and ignores the case the input arrived in. */
  lemma SentenceCaseIdempotent(s: string)
    ensures ToSentenceCase(ToSentenceCase(s)) == ToSentenceCase(s)
    ensures ToSentenceCase(ToLowerCase(s)) == ToSentenceCase(s)
    ensures ToSentenceCase(ToUpperCase(s)) == ToSentenceCase(s)
  {
    var a, b, c, d := ToSentenceCase(s), ToSentenceCase(ToSentenceCase(s)), ToSentenceCase(ToLowerCase(s)), ToSentenceCase(ToUpperCase(s));
    forall i | 0 <= i < |s|
      ensures b[i] == a[i] && c[i] == a[i] && d[i] == a[i]
    {
      CaseInverse(s[i]);
      CaseInverse(a[i]);
    }
  }

  /** Lower-casing Title Case gives the space-separated form of the separator-insertion conversions. */
  lemma TitleLowered(s: string)
    ensures ToLowerCase(CamelToTitle(s)) == InsertSep(' ', s)
  {
    var spaced := InsertBefore(' ', s);
    InsertSepIsLoweredInsertBefore(' ', s);
    if |s| > 0 {
      CaseInverse(spaced[0]);
      var r := CamelToTitle(s);
      assert LowerStr(r) == LowerStr(spaced) by {
        forall i | 0 <= i < |r|
          ensures LowerStr(r)[i] == LowerStr(spaced)[i]
        {
        }
      }
    }
  }

  /** Deleting the spaces of Title Case and lower-casing its first character gives the camelCase input back. */
  lemma TitleRoundTrip(s: string)
    requires ' ' !in s
    requires |s| == 0 || !IsUpper(s[0])
    ensures PascalToCamel(Remove(' ', CamelToTitle(s))) == s
  {
    var spaced := InsertBefore(' ', s);
    RemoveInsertBefore(' ', s);
    if |s| > 0 {
      var r := CamelToTitle(s);
      assert r == [Upper(s[0])] + spaced[1..];
      assert spaced == [s[0]] + spaced[1..];
      RemoveAppend(' ', [s[0]], spaced[1..]);
      RemoveAppend(' ', [Upper(s[0])], spaced[1..]);
      CaseInverse(s[0]);
      assert Remove(' ', [s[0]]) == [s[0]];
      assert Remove(' ', [Upper(s[0])]) == [Upper(s[0])];
    }
  }

  /** Deleting the spaces of Title Case gives PascalCase: each capital keeps its case, a leading one included. */
  lemma TitleRemoveSpaces(s: string)
    requires ' ' !in s
    ensures Remove(' ', CamelToTitle(s)) == CamelToPascal(s)
  {
    if |s| == 0 {
    } else if IsUpper(s[0]) {
      TitleRemoveSpacesLeadingCapital(s);
    } else {
      TitleRemoveSpacesLeadingOther(s);
    }
  }

  /** With a leading capital, Title Case is the spaced input and PascalCase is the input. */
  lemma TitleRemoveSpacesLeadingCapital(s: string)
    requires ' ' !in s && |s| > 0 && IsUpper(s[0])
    ensures Remove(' ', CamelToTitle(s)) == CamelToPascal(s)
  {
    var spaced := InsertBefore(' ', s);
    RemoveInsertBefore(' ', s);
    TitleIsSpacedWithFirst(s);
    assert spaced == [spaced[0]] + spaced[1..];
    assert CamelToTitle(s) == spaced;
    assert CamelToPascal(s) == s;
  }

  /** Otherwise both upper-case the first character and keep the rest. */
  lemma TitleRemoveSpacesLeadingOther(s: string)
    requires ' ' !in s && |s| > 0 && !IsUpper(s[0])
    ensures Remove(' ', CamelToTitle(s)) == CamelToPascal(s)
  {
    var spaced := InsertBefore(' ', s);
    var first := Upper(s[0]);
    RemoveInsertBefore(' ', s);
    TitleIsSpacedWithFirst(s);
    assert spaced == [s[0]] + spaced[1..];
    assert s[0] != ' ';
    RemoveAppend(' ', [s[0]], spaced[1..]);
    RemoveAppend(' ', [first], spaced[1..]);
    assert Remove(' ', [s[0]]) == [s[0]];
    assert Remove(' ', [first]) == [first];
    assert s == [s[0]] + s[1..];
    assert CamelToPascal(s) == [first] + s[1..];
  }

  /** Title Case is the spaced input with its first character upper-cased. */
  lemma TitleIsSpacedWithFirst(s: string)
    requires |s| > 0
    ensures var spaced := InsertBefore(' ', s);
            CamelToTitle(s) == [Upper(spaced[0])] + spaced[1..]
  {
  }

  /** Every conversion maps the empty string to the empty string. */
  lemma EmptyInput()
    ensures CamelToSnake("") == "" && SnakeToCamel("") == ""
    ensures CamelToPascal("") == "" && PascalToCamel("") == ""
    ensures CamelToKebab("") == "" && KebabToCamel("") == ""
    ensures CamelToUpperSnake("") == "" && UpperSnakeToCamel("") == ""
    ensures ToLowerCase("") == "" && ToUpperCase("") == ""
    ensures CamelToTitle("") == "" && ToSentenceCase("") == ""
    ensures CamelToDotNotation("") == "" && DotNotationToCamel("") == ""
  {
  }
}
