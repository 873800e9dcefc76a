/**
  The library's test cases with the literal strings they use. Every case but
  the two Pascal ones, which Dafny evaluates directly, is an instance of a
  two-word lemma of CaseExamples with the words "hello" and "world": each
  proof first names the literals as the concatenations the lemma speaks of.
 */
module CaseTests {
  import opened Ascii
  import opened CaseConversion
  import opened CaseExamples

  /** main_test.ts:20, literally. */
  lemma HelloWorldToSnake()
    ensures CamelToSnake("helloWorld") == "hello_world"
  {
    var a, b := "hello", "world";
    assert a + Capitalized(b) == "helloWorld";
    assert a + "_" + b == "hello_world";
    TwoWordInsert('_', a, b);
  }

  /** main_test.ts:24, literally. */
  lemma HelloWorldFromSnake()
    ensures SnakeToCamel("hello_world") == "helloWorld"
  {
    var a, b := "hello", "world";
    assert a + Capitalized(b) == "helloWorld";
    assert a + "_" + b == "hello_world";
    TwoWordJoin('_', a, b);
  }

  /** main_test.ts:28, literally. */
  lemma HelloWorldToPascal()
    ensures CamelToPascal("helloWorld") == "HelloWorld"
  {
  }

  /** main_test.ts:32, literally. */
  lemma HelloWorldFromPascal()
    ensures PascalToCamel("HelloWorld") == "helloWorld"
  {
  }

  /** main_test.ts:36, literally. */
  lemma HelloWorldToKebab()
    ensures CamelToKebab("helloWorld") == "hello-world"
  {
    var a, b := "hello", "world";
    assert a + Capitalized(b) == "helloWorld";
    assert a + "-" + b == "hello-world";
    TwoWordInsert('-', a, b);
  }

  /** main_test.ts:40, literally. */
  lemma HelloWorldFromKebab()
    ensures KebabToCamel("hello-world") == "helloWorld"
  {
    var a, b := "hello", "world";
    assert a + Capitalized(b) == "helloWorld";
    assert a + "-" + b == "hello-world";
    TwoWordJoin('-', a, b);
  }

  /** main_test.ts:44, literally. */
  lemma HelloWorldToUpperSnake()
    ensures CamelToUpperSnake("helloWorld") == "HELLO_WORLD"
  {
    var a, b := "hello", "world";
    assert a + Capitalized(b) == "helloWorld";
    assert UpperStr(a) + "_" + UpperStr(b) == "HELLO_WORLD";
    UpperSnakeTestCases(a, b);
  }

  /** main_test.ts:48, literally. */
  lemma HelloWorldFromUpperSnake()
    ensures UpperSnakeToCamel("HELLO_WORLD") == "helloWorld"
  {
    var a, b := "hello", "world";
    assert a + Capitalized(b) == "helloWorld";
    assert UpperStr(a) + "_" + UpperStr(b) == "HELLO_WORLD";
    UpperSnakeTestCases(a, b);
  }

  /** main_test.ts:52, literally. */
  lemma HelloWorldLowerCase()
    ensures ToLowerCase("Hello World") == "hello world"
  {
    var a, b := "hello", "world";
    assert Capitalized(a) + " " + Capitalized(b) == "Hello World";
    assert a + " " + b == "hello world";
    WholeStringTestCases(a, b);
  }

  /** main_test.ts:56, literally. */
  lemma HelloWorldUpperCase()
    ensures ToUpperCase("Hello World") == "HELLO WORLD"
  {
    var a, b := "hello", "world";
    assert Capitalized(a) + " " + Capitalized(b) == "Hello World";
    assert UpperStr(a) + " " + UpperStr(b) == "HELLO WORLD";
    WholeStringTestCases(a, b);
  }

  /** main_test.ts:60, literally. */
  lemma HelloWorldTitle()
    ensures CamelToTitle("helloWorld") == "Hello World"
  {
    var a, b := "hello", "world";
    assert a + Capitalized(b) == "helloWorld";
    assert Capitalized(a) + " " + Capitalized(b) == "Hello World";
    TitleTestCase(a, b);
  }

  /** main_test.ts:64, literally. */
  lemma HelloWorldSentence()
    ensures ToSentenceCase("hello world") == "Hello world"
  {
    var a, b := "hello", "world";
    assert a + " " + b == "hello world";
    assert Capitalized(a) + " " + b == "Hello world";
    SentenceTestCase(a, b);
  }

  /** main_test.ts:68, literally. */
  lemma HelloWorldToDotNotation()
    ensures CamelToDotNotation("helloWorld") == "hello.world"
  {
    var a, b := "hello", "world";
    assert a + Capitalized(b) == "helloWorld";
    assert a + "." + b == "hello.world";
    TwoWordInsert('.', a, b);
  }

  /** main_test.ts:72, literally. */
  lemma HelloWorldFromDotNotation()
    ensures DotNotationToCamel("hello.world") == "helloWorld"
  {
    var a, b := "hello", "world";
    assert a + Capitalized(b) == "helloWorld";
    assert a + "." + b == "hello.world";
    TwoWordJoin('.', a, b);
  }
}
