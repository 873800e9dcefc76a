/**
  The library's test cases. Each test converts the two words "hello" and
  "world" between conventions; the lemmas below state the same conversions
  for any two lower-case words `a` and `b`, so every test is an instance.
  Short literal inputs that pin down the edge behaviour follow at the end.
 */
module CaseExamples {
  import opened Ascii
  import opened Substitution
  import opened CaseConversion

  /** A non-empty run of `a`-`z`. */
  predicate IsWord(w: string) {
    |w| > 0 && forall i :: 0 <= i < |w| ==> IsLower(w[i])
  }

  /** The word with its first letter upper-cased. */
  function Capitalized(w: string): (r: string)
    requires IsWord(w)
    ensures |r| == |w| && IsUpper(r[0]) && Lower(r[0]) == w[0] && r[1..] == w[1..]
  {
    CaseInverse(w[0]);
    [Upper(w[0])] + w[1..]
  }

  /** A camelCase word pair holds letters only, so no separator. */
  lemma WordPairHasNoSeparator(sep: char, a: string, b: string)
    requires IsWord(a) && IsWord(b) && !IsLetter(sep)
    ensures sep !in a + Capitalized(b)
  {
    var s := a + Capitalized(b);
    forall i | 0 <= i < |s|
      ensures s[i] != sep
    {
      if i < |a| {
        assert s[i] == a[i];
      } else if i > |a| {
        assert s[i] == b[i - |a|];
      }
    }
  }

  /** Separator insertion on the two-word camelCase form. */
  lemma TwoWordInsert(sep: char, a: string, b: string)
    requires IsWord(a) && IsWord(b)
    ensures InsertSep(sep, a + Capitalized(b)) == a + [sep] + b
  {
    var cb := Capitalized(b);
    var tail := b[1..];
    InsertSepAppend(sep, a, cb);
    assert NoUpper(a);
    InsertSepNoUpper(sep, a);
    assert NoUpper(tail);
    InsertSepNoUpper(sep, tail);
    assert cb == [cb[0]] + tail;
    assert InsertSep(sep, cb) == [sep, b[0]] + tail;
    assert b == [b[0]] + tail;
  }

  /** Separator removal on the two-word separated form. */
  lemma TwoWordJoin(sep: char, a: string, b: string)
    requires IsWord(a) && IsWord(b) && !IsLetter(sep)
    ensures JoinSep(sep, a + [sep] + b) == a + Capitalized(b)
  {
    TwoWordInsert(sep, a, b);
    WordPairHasNoSeparator(sep, a, b);
    JoinSepInsertSep(sep, a + Capitalized(b));
  }

  /** main_test.ts: "helloWorld" and "hello_world" convert into each other. */
  lemma SnakeTestCases(a: string, b: string)
    requires IsWord(a) && IsWord(b)
    ensures CamelToSnake(a + Capitalized(b)) == a + "_" + b
    ensures SnakeToCamel(a + "_" + b) == a + Capitalized(b)
  {
    TwoWordInsert('_', a, b);
    TwoWordJoin('_', a, b);
  }

  /** main_test.ts: "helloWorld" and "hello-world" convert into each other. */
  lemma KebabTestCases(a: string, b: string)
    requires IsWord(a) && IsWord(b)
    ensures CamelToKebab(a + Capitalized(b)) == a + "-" + b
    ensures KebabToCamel(a + "-" + b) == a + Capitalized(b)
  {
    TwoWordInsert('-', a, b);
    TwoWordJoin('-', a, b);
  }

  /** main_test.ts: "helloWorld" and "hello.world" convert into each other. */
  lemma DotNotationTestCases(a: string, b: string)
    requires IsWord(a) && IsWord(b)
    ensures CamelToDotNotation(a + Capitalized(b)) == a + "." + b
    ensures DotNotationToCamel(a + "." + b) == a + Capitalized(b)
  {
    TwoWordInsert('.', a, b);
    TwoWordJoin('.', a, b);
  }

  /** Upper-casing a word and lower-casing it again gives the word back. */
  lemma {:induction false} WordCaseRoundTrip(w: string)
    requires forall i :: 0 <= i < |w| ==> IsLower(w[i])
    ensures LowerStr(UpperStr(w)) == w
  {
    LastCaseMapWins(w);
    LowerStrFixedPoint(w);
  }

  /** The UPPER_SNAKE_CASE form of a word pair, built word by word. */
  lemma UpperSnakeOfWords(a: string, b: string)
    requires IsWord(a) && IsWord(b)
    ensures UpperStr(a + "_" + b) == UpperStr(a) + "_" + UpperStr(b)
    ensures LowerStr(UpperStr(a) + "_" + UpperStr(b)) == a + "_" + b
  {
    CaseMapsAppend(a + "_", b);
    CaseMapsAppend(a, "_");
    assert UpperStr("_") == "_" && LowerStr("_") == "_";
    var ua, ub := UpperStr(a), UpperStr(b);
    CaseMapsAppend(ua + "_", ub);
    CaseMapsAppend(ua, "_");
    WordCaseRoundTrip(a);
    WordCaseRoundTrip(b);
  }

  /** main_test.ts: "helloWorld" and "HELLO_WORLD" convert into each other. */
  lemma UpperSnakeTestCases(a: string, b: string)
    requires IsWord(a) && IsWord(b)
    ensures CamelToUpperSnake(a + Capitalized(b)) == UpperStr(a) + "_" + UpperStr(b)
    ensures UpperSnakeToCamel(UpperStr(a) + "_" + UpperStr(b)) == a + Capitalized(b)
  {
    var s := a + "_" + b;
    TwoWordInsert('_', a, b);
    TwoWordJoin('_', a, b);
    UpperSnakeOfWords(a, b);
    LowerStrFixedPoint(s);
  }

  /** main_test.ts: "helloWorld" and "HelloWorld" convert into each other. */
  lemma PascalTestCases(a: string, b: string)
    requires IsWord(a) && IsWord(b)
    ensures CamelToPascal(a + Capitalized(b)) == Capitalized(a) + Capitalized(b)
    ensures PascalToCamel(Capitalized(a) + Capitalized(b)) == a + Capitalized(b)
  {
    var s, t := a + Capitalized(b), Capitalized(a) + Capitalized(b);
    assert CamelToPascal(s) == t by {
      forall i | 0 <= i < |s|
        ensures CamelToPascal(s)[i] == t[i]
      {
      }
    }
    CaseInverse(a[0]);
    assert PascalToCamel(t) == s by {
      forall i | 0 <= i < |s|
        ensures PascalToCamel(t)[i] == s[i]
      {
      }
    }
  }

  /** main_test.ts: "Hello World" lower-cases to "hello world" and upper-cases to "HELLO WORLD". */
  lemma WholeStringTestCases(a: string, b: string)
    requires IsWord(a) && IsWord(b)
    ensures ToLowerCase(Capitalized(a) + " " + Capitalized(b)) == a + " " + b
    ensures ToUpperCase(Capitalized(a) + " " + Capitalized(b)) == UpperStr(a) + " " + UpperStr(b)
  {
    var s := Capitalized(a) + " " + Capitalized(b);
    var lo := a + " " + b;
    assert ToLowerCase(s) == lo by {
      forall i | 0 <= i < |s|
        ensures ToLowerCase(s)[i] == lo[i]
      {
      }
    }
    var up := UpperStr(a) + " " + UpperStr(b);
    assert ToUpperCase(s) == up by {
      forall i | 0 <= i < |s|
        ensures ToUpperCase(s)[i] == up[i]
      {
        if i < |a| {
          CaseInverse(a[i]);
        } else if i > |a| {
          CaseInverse(b[i - |a| - 1]);
        }
      }
    }
  }

  /** main_test.ts: "helloWorld" becomes "Hello World". */
  lemma TitleTestCase(a: string, b: string)
    requires IsWord(a) && IsWord(b)
    ensures CamelToTitle(a + Capitalized(b)) == Capitalized(a) + " " + Capitalized(b)
  {
    var cb := Capitalized(b);
    InsertBeforeAppend(' ', a, cb);
    assert NoUpper(a);
    InsertBeforeNoUpper(' ', a);
    assert NoUpper(b[1..]);
    InsertBeforeNoUpper(' ', b[1..]);
    assert InsertBefore(' ', cb) == [' ', cb[0]] + b[1..];
    var t := Capitalized(a) + " " + cb;
    assert CamelToTitle(a + cb) == t by {
      forall i | 0 <= i < |t|
        ensures CamelToTitle(a + cb)[i] == t[i]
      {
      }
    }
  }

  /** main_test.ts: "hello world" becomes "Hello world". */
  lemma SentenceTestCase(a: string, b: string)
    requires IsWord(a) && IsWord(b)
    ensures ToSentenceCase(a + " " + b) == Capitalized(a) + " " + b
  {
    var s, t := a + " " + b, Capitalized(a) + " " + b;
    assert ToSentenceCase(s) == t by {
      forall i | 0 <= i < |s|
        ensures ToSentenceCase(s)[i] == t[i]
      {
      }
    }
  }

  /** A word of digits after a separator has no case: `"utf_8"` becomes `"utf8"`. */
  lemma DigitAfterSeparator()
    ensures SnakeToCamel("utf_8") == "utf8"
  {
  }

  /** PascalCase and back is not the identity on a word that starts with a capital. */
  lemma PascalRoundTripLosesLeadingCapital()
    ensures CamelToPascal("Hello") == "Hello"
    ensures PascalToCamel(CamelToPascal("Hello")) == "hello"
  {
  }

  /** A leading capital gets a separator in front of it. */
  lemma LeadingCapital()
    ensures CamelToSnake("Hello") == "_hello"
  {
  }

  /** Matches do not overlap: of `__` only the second `_` is kept, upper-cased to itself. */
  lemma DoubledSeparator()
    ensures SnakeToCamel("a__b") == "a_b"
  {
  }

  /** A separator at the end has nothing to join with and stays. */
  lemma TrailingSeparator()
    ensures SnakeToCamel("ab_") == "ab_"
  {
  }

  /** The regex `.` does not match a line break, so a separator before one stays. */
  lemma SeparatorBeforeLineBreak()
    ensures SnakeToCamel("a_\nb") == "a_\nb"
  {
  }
}
