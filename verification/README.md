# Case conversion library, modelled in Dafny

The library exports fourteen pure string-to-string functions that convert
identifiers between naming conventions: camelCase, snake_case, PascalCase,
kebab-case, UPPER_SNAKE_CASE, Title Case, Sentence case and dot.notation. It
also exports plain lower-casing and upper-casing. Each function is a short
chain of calls of `String.prototype.replace`, `toLowerCase`, `toUpperCase`,
`charAt` and `slice`. None can fail.

The model follows the same layers:

- `Ascii` (ascii.dfy) holds the character classes and the ASCII case maps
  `Lower`/`Upper`, lifted to strings as `LowerStr`/`UpperStr`.
- `JsString` (jsstring.dfy) holds `charAt`, `slice`, `indexOf`, `replace`
  with a string pattern (first occurrence only), and `replace(/^./, …)`.
- `Substitution` (substitution.dfy) writes each global regex replacement as
  the left-to-right scan it performs. `InsertSep` is `/[A-Z]/g` → separator
  plus the lower-cased letter. `InsertBefore` is `/([A-Z])/g` → separator
  plus the letter as it was. `Join` is `/sep./g` → the upper-cased second
  character. After a match, the scan resumes behind it, so matches never
  overlap. The regex `.` does not match an ECMAScript line terminator
  (`\n`, `\r`, U+2028, U+2029), so a separator followed by one of these is
  kept. `MatchStart` says where the scan finds matches without running it.
  A match starts at a separator followed by a non-line-terminator, unless
  that separator ends a match one index earlier. The join lemmas place
  every output character by that description.
- `CaseConversion` (caseconversion.dfy) defines the fourteen exported
  functions, composed exactly as main.ts composes them.
- `CaseLaws` (caselaws.dfy) relates the functions to each other: round trips
  in both directions, idempotence, trailing separators and the empty input.
- `CaseExamples` (examples_cases.dfy) proves the library's test cases for
  every pair of lower-case words, and pins some edge cases with literals.
- `CaseTests` (casetests.dfy) states each of the library's fourteen test
  cases with the literal strings main_test.ts uses.

One might expect `pascalToCamel(camelToPascal(s))` to give back `s` for
any input starting with a letter. The code does not do this when the first
letter is already upper case: `"Hello"` → `"Hello"` →
`"hello"` (`CaseExamples.PascalRoundTripLosesLeadingCapital`). The model follows the code. `CaseLaws.PascalRoundTrip` states the
round trip exactly when it holds: the first character is not upper case.
The reverse direction holds exactly when the first character is not lower
case.

## Model

| member | source | states |
|---|---|---|
| `Ascii.Lower` | main.ts:20 | Lower-casing one character, as the callbacks at main.ts:20, 56 and 128 do, changes exactly the capitals, each into a lower-case letter, and leaves no capital. |
| `Ascii.Upper` | main.ts:29 | Upper-casing one character, as the callbacks at main.ts:29, 65 and 137 do, changes exactly the lower-case letters, each into a capital, and leaves no lower-case letter. |
| `Ascii.LowerStr` | main.ts:91-93 | Lower-casing keeps the length, maps each position through the ASCII `Lower`, and leaves no `A`-`Z`. |
| `Ascii.UpperStr` | main.ts:100-102 | Upper-casing keeps the length, maps each position through the ASCII `Upper`, and leaves no `a`-`z`. |
| `Ascii.LowerStrFixedPoint` | main.ts:92 | Lower-casing leaves a string unchanged exactly when it has no upper-case letter. |
| `Ascii.UpperStrFixedPoint` | main.ts:101 | Upper-casing leaves a string unchanged exactly when it has no lower-case letter. |
| `Ascii.LastCaseMapWins` | main.ts:83 | Lower-casing after upper-casing equals lower-casing alone, and the other way round. |
| `JsString.CharAt` | main.ts:47 | `charAt(i)` gives the one character at `i`, or the empty string past the end. |
| `JsString.Slice` | main.ts:47 | `slice(i)` gives the suffix from `i`, or the empty string past the end. |
| `JsString.IndexOf` | main.ts:38 | The string-pattern search finds an occurrence of the pattern with none earlier. When it finds nothing, no occurrence exists. |
| `JsString.ReplaceFirst` | main.ts:38 | String-pattern `replace` changes nothing when the pattern is absent. Otherwise it splices the replacement over the earliest occurrence. |
| `JsString.CapitalizeFirst` | main.ts:110 | `replace(/^./, upper)` keeps the length and upper-cases only index 0. Skipping a line terminator at index 0 changes nothing, because upper-casing leaves it unchanged. |
| `Substitution.InsertSep` | main.ts:20 | The output is as long as the input plus its count of capitals. It has no capital. It gains one separator per capital. A leading capital yields a leading separator. |
| `Substitution.InsertSepNoUpper` | main.ts:20 | Text without a capital passes through separator insertion unchanged. |
| `Substitution.InsertSepAppend` | main.ts:20 | The `g`-flag substitution works per character, so it distributes over concatenation. |
| `Substitution.InsertBefore` | main.ts:110 | `/([A-Z])/g` → `' $1'` lengthens the input by its count of capitals. A leading capital yields a leading separator. |
| `Substitution.Landing` | main.ts:20 | Once a separator goes in front of every capital, `s[k]` moves right by the number of capitals up to and including it: at least `k`, and more than `k` when `s[k]` is a capital. |
| `Substitution.InsertBeforePlaces` | main.ts:110 | Every input character appears unchanged at its landing index. |
| `Substitution.InsertBeforeMarksPlaces` | main.ts:110 | The separator sits directly before the landing index of every capital. |
| `Substitution.InsertSepPlaces` | main.ts:20 | Every input character appears lower-cased at its landing index, and the separator sits directly before every capital. |
| `Substitution.InsertBeforeMarksCapitals` | main.ts:110 | After the insertion, every capital has the separator directly before it. |
| `Substitution.InsertBeforeCountUpper` | main.ts:110 | The insertion neither adds nor removes capitals. |
| `Substitution.InsertBeforeAppend` | main.ts:110 | The insertion distributes over concatenation. |
| `Substitution.InsertBeforeNoUpper` | main.ts:110 | Text without a capital passes through the insertion unchanged. |
| `Substitution.RemoveInsertBefore` | main.ts:110 | Deleting every separator from the result gives back an input that held none. |
| `Substitution.InsertSepIsLoweredInsertBefore` | main.ts:110 | Inserting a separator and lower-casing the letter equals inserting the separator and then lower-casing the whole string. |
| `Substitution.Matches` | main.ts:29 | The left-to-right scan finds at most one match per two characters, because matches do not overlap. |
| `Substitution.Join` | main.ts:29 | The output is shorter than the input by the number of matches. A head that is not a match is copied. |
| `Substitution.JoinAppend` | main.ts:29 | Text before the first separator is copied unchanged. |
| `Substitution.JoinNoSep` | main.ts:29 | Text without a separator is copied unchanged. |
| `Substitution.JoinSep` | main.ts:29 | Lower-case, then join: the length drops by the matches in the lower-cased input. |
| `Substitution.JoinSepNoSep` | main.ts:29 | An input without the separator is only lower-cased. |
| `Substitution.MatchesBefore` | main.ts:29 | The number of matches the scan finds before index `i` is at most `i`. |
| `Substitution.MatchStartShift` | main.ts:29 | After an index that starts no match, the scan of the rest finds the same match starts as a fresh scan of the suffix. |
| `Substitution.MatchesBeforeShift` | main.ts:29 | After an index that starts no match, the match count splits into the count before it and the count in a fresh scan of the suffix. |
| `Substitution.MatchesCountsMatchStarts` | main.ts:29 | The scan's match count equals the number of indices where a match starts. A match starts at a separator followed by a non-line-terminator, unless that separator is the second half of a match one index earlier. |
| `Substitution.JoinPlacesAt` | main.ts:29 | A character that starts no match appears in the output at its index minus the matches before it. It is upper-cased exactly when it ends a match, and copied otherwise. |
| `Substitution.JoinPlaces` | main.ts:29 | The same placement, for every character that starts no match. Together with the length this fixes the whole output. |
| `Substitution.MatchStartLower` | main.ts:29 | When the separator is not a letter, lower-casing the input first moves no match start. |
| `Substitution.MatchesBeforeLower` | main.ts:29 | When the separator is not a letter, lower-casing the input first changes no match count. |
| `Substitution.JoinSepPlacesAt` | main.ts:29 | After lower-casing and joining, a character that starts no match appears at its index minus the matches before it. It is upper-cased if it ends a match, and lower-cased otherwise. |
| `Substitution.JoinSepPlaces` | main.ts:29 | The same placement for every input character that starts no match. The output length is the input length minus the number of match starts. |
| `Substitution.JoinInsertSep` | main.ts:19-30 | Joining undoes separator insertion on input without the separator. |
| `Substitution.JoinSepInsertSep` | main.ts:19-30 | With the lower-casing step included, separator removal undoes separator insertion on input without the separator. |
| `Substitution.InsertSepJoin` | main.ts:19-30 | Separator insertion undoes joining on canonical separated text: no capitals, and every separator followed by a lower-case letter. |
| `Substitution.InsertSepJoinSep` | main.ts:19-30 | The same inverse round trip, with the lower-casing step included. |
| `Substitution.JoinKeepsTrailingSep` | main.ts:29 | A separator at the end of the input is still at the end of the output. |
| `CaseConversion.CamelToSnake` | main.ts:19-21 | Adds one `_` per capital. Leaves no capital. A leading capital yields a leading `_`. Each input character appears lower-cased at its landing index, with `_` directly before each capital. |
| `CaseConversion.SnakeToCamel` | main.ts:28-30 | Shorter by the number of `_.` matches the scan finds. Input without `_` is only lower-cased. Every character that starts no match moves left by the matches before it. It comes out upper-cased if it ends a match, and lower-cased otherwise. |
| `CaseConversion.CamelToPascal` | main.ts:37-39 | Keeps the length, upper-cases index 0, leaves every later character as it was, and maps the empty string to itself. |
| `CaseConversion.PascalToCamel` | main.ts:46-48 | Keeps the length, lower-cases index 0, and leaves every later character as it was. |
| `CaseConversion.CamelToKebab` | main.ts:55-57 | Adds one `-` per capital. Leaves no capital. A leading capital yields a leading `-`. Each input character appears lower-cased at its landing index, with `-` directly before each capital. |
| `CaseConversion.KebabToCamel` | main.ts:64-66 | Shorter by the number of `-.` matches the scan finds. Input without `-` is only lower-cased. Every character that starts no match moves left by the matches before it. It comes out upper-cased if it ends a match, and lower-cased otherwise. |
| `CaseConversion.CamelToUpperSnake` | main.ts:73-75 | Adds one `_` per capital. Leaves no lower-case letter. A leading capital yields a leading `_`. Each input character appears upper-cased at its landing index, with a `_` just before each capital. |
| `CaseConversion.UpperSnakeToCamel` | main.ts:82-84 | Always agrees with `snakeToCamel`, because lower-casing twice is lower-casing once. |
| `CaseConversion.ToLowerCase` | main.ts:91-93 | Keeps the length, leaves no capital, and changes nothing but capitals. |
| `CaseConversion.ToUpperCase` | main.ts:100-102 | Keeps the length, leaves no lower-case letter, and changes nothing but lower-case letters. |
| `CaseConversion.CamelToTitle` | main.ts:109-111 | Adds one space per capital, and every capital after index 0 has a space before it. A leading capital yields a leading space. Each input character appears at its landing index with its case kept, except that the first one is upper-cased. A space sits directly before each input capital. |
| `CaseConversion.ToSentenceCase` | main.ts:118-120 | Keeps the length, upper-cases index 0, and lower-cases every later position, so no capital follows index 0. |
| `CaseConversion.CamelToDotNotation` | main.ts:127-129 | Adds one `.` per capital. Leaves no capital. A leading capital yields a leading `.`. Each input character appears lower-cased at its landing index, with `.` directly before each capital. |
| `CaseConversion.DotNotationToCamel` | main.ts:136-138 | Shorter by the number of `\.(.)` matches the scan finds. Input without `.` is only lower-cased. Every character that starts no match moves left by the matches before it. It comes out upper-cased if it ends a match, and lower-cased otherwise. |
| `CaseLaws.SnakeRoundTrip` | main.ts:19-30 | For text without `_`, snakeToCamel(camelToSnake(s)) is s, even with a leading capital. |
| `CaseLaws.SnakeInverseRoundTrip` | main.ts:19-30 | For canonical snake_case, camelToSnake(snakeToCamel(t)) is t. |
| `CaseLaws.KebabRoundTrip` | main.ts:55-66 | For text without `-`, kebabToCamel(camelToKebab(s)) is s. |
| `CaseLaws.KebabInverseRoundTrip` | main.ts:55-66 | For canonical kebab-case, camelToKebab(kebabToCamel(t)) is t. |
| `CaseLaws.DotNotationRoundTrip` | main.ts:127-138 | For text without `.`, dotNotationToCamel(camelToDotNotation(s)) is s. |
| `CaseLaws.DotNotationInverseRoundTrip` | main.ts:127-138 | For canonical dot.notation, camelToDotNotation(dotNotationToCamel(t)) is t. |
| `CaseLaws.UpperSnakeRoundTrip` | main.ts:73-84 | For text without `_`, upperSnakeToCamel(camelToUpperSnake(s)) is s. |
| `CaseLaws.JoinSepKeepsTrailingSep` | main.ts:29 | After lower-casing and joining, a non-letter separator at the end of the input is still at the end. |
| `CaseLaws.TrailingSeparatorSurvives` | main.ts:28-66 | snakeToCamel, kebabToCamel and dotNotationToCamel keep a separator that ends the input. |
| `CaseLaws.PascalRoundTrip` | main.ts:37-48 | pascalToCamel(camelToPascal(s)) is s exactly when s is empty or does not start with a capital. camelToPascal(pascalToCamel(s)) is s exactly when s is empty or does not start with a lower-case letter. |
| `CaseLaws.PascalIdempotent` | main.ts:37-48 | camelToPascal and pascalToCamel are each idempotent. |
| `CaseLaws.CaseMapsIdempotent` | main.ts:91-102 | toLowerCase and toUpperCase are idempotent, and the last one applied decides the result. |
| `CaseLaws.SentenceCaseIdempotent` | main.ts:118-120 | toSentenceCase is idempotent and ignores the case of its input. |
| `CaseLaws.TitleLowered` | main.ts:109-111 | Lower-casing camelToTitle's output gives the space-separated form of separator insertion. |
| `CaseLaws.TitleRoundTrip` | main.ts:109-111 | Deleting the spaces of camelToTitle's output and lower-casing its first character gives back a camelCase input without spaces. |
| `CaseLaws.TitleRemoveSpaces` | main.ts:109-111 | For input without spaces, deleting the spaces of camelToTitle's output gives camelToPascal of the input. Every capital keeps its case, a leading one included. |
| `CaseLaws.TitleRemoveSpacesLeadingCapital` | main.ts:109-111 | The same, for input that starts with a capital: camelToTitle puts a space first, and camelToPascal leaves the input as it is. |
| `CaseLaws.TitleRemoveSpacesLeadingOther` | main.ts:109-111 | The same, for input that does not start with a capital: both upper-case the first character. |
| `CaseLaws.EmptyInput` | main.ts:19-138 | All fourteen functions map the empty string to itself. |
| `CaseExamples.TwoWordInsert` | main.ts:20 | Inserting a separator into `a` + capitalised `b` gives `a`, the separator, then `b`. |
| `CaseExamples.TwoWordJoin` | main.ts:29 | Joining `a`, a separator and `b` gives `a` + capitalised `b`. |
| `CaseExamples.SnakeTestCases` | main_test.ts:19-25 | For any lower-case words a, b: camelToSnake of aB is a_b, and snakeToCamel of a_b is aB (the tests use hello/world). |
| `CaseExamples.PascalTestCases` | main_test.ts:27-33 | aB ↔ AB under camelToPascal / pascalToCamel. |
| `CaseExamples.KebabTestCases` | main_test.ts:35-41 | aB ↔ a-b under camelToKebab / kebabToCamel. |
| `CaseExamples.WordCaseRoundTrip` | main_test.ts:43-49 | Upper-casing a lower-case word and lower-casing it again gives the word back. |
| `CaseExamples.UpperSnakeOfWords` | main_test.ts:43-49 | Upper-casing a_b gives A_B word by word, and lower-casing A_B gives a_b back. |
| `CaseExamples.UpperSnakeTestCases` | main_test.ts:43-49 | aB ↔ A_B under camelToUpperSnake / upperSnakeToCamel. |
| `CaseExamples.WholeStringTestCases` | main_test.ts:51-57 | toLowerCase of "Ab Cd" is "ab cd", and toUpperCase of it is "AB CD". |
| `CaseExamples.TitleTestCase` | main_test.ts:59-61 | camelToTitle of aB is "A B". |
| `CaseExamples.SentenceTestCase` | main_test.ts:63-65 | toSentenceCase of "a b" is "A b". |
| `CaseExamples.DotNotationTestCases` | main_test.ts:67-73 | aB ↔ a.b under camelToDotNotation / dotNotationToCamel. |
| `CaseExamples.PascalRoundTripLosesLeadingCapital` | main.ts:37-48 | camelToPascal leaves `"Hello"` as it is, and pascalToCamel then gives `"hello"`, so the round trip loses a leading capital. |
| `CaseExamples.LeadingCapital` | main.ts:20 | `"Hello"` becomes `"_hello"`: a leading capital gets a leading separator. |
| `CaseExamples.DoubledSeparator` | main.ts:29 | `"a__b"` becomes `"a_b"`: matches do not overlap. |
| `CaseExamples.TrailingSeparator` | main.ts:29 | `"ab_"` stays `"ab_"`. |
| `CaseExamples.SeparatorBeforeLineBreak` | main.ts:29 | `"a_\nb"` stays as it is, because `.` does not match a line break. |
| `CaseExamples.DigitAfterSeparator` | main.ts:29 | `"utf_8"` becomes `"utf8"`: `_` joins with a digit, and upper-casing leaves the digit as it is. |
| `CaseTests.HelloWorldToSnake` | main_test.ts:19-21 | camelToSnake(`"helloWorld"`) is `"hello_world"`. |
| `CaseTests.HelloWorldFromSnake` | main_test.ts:23-25 | snakeToCamel(`"hello_world"`) is `"helloWorld"`. |
| `CaseTests.HelloWorldToPascal` | main_test.ts:27-29 | camelToPascal(`"helloWorld"`) is `"HelloWorld"`. |
| `CaseTests.HelloWorldFromPascal` | main_test.ts:31-33 | pascalToCamel(`"HelloWorld"`) is `"helloWorld"`. |
| `CaseTests.HelloWorldToKebab` | main_test.ts:35-37 | camelToKebab(`"helloWorld"`) is `"hello-world"`. |
| `CaseTests.HelloWorldFromKebab` | main_test.ts:39-41 | kebabToCamel(`"hello-world"`) is `"helloWorld"`. |
| `CaseTests.HelloWorldToUpperSnake` | main_test.ts:43-45 | camelToUpperSnake(`"helloWorld"`) is `"HELLO_WORLD"`. |
| `CaseTests.HelloWorldFromUpperSnake` | main_test.ts:47-49 | upperSnakeToCamel(`"HELLO_WORLD"`) is `"helloWorld"`. |
| `CaseTests.HelloWorldLowerCase` | main_test.ts:51-53 | toLowerCase(`"Hello World"`) is `"hello world"`. |
| `CaseTests.HelloWorldUpperCase` | main_test.ts:55-57 | toUpperCase(`"Hello World"`) is `"HELLO WORLD"`. |
| `CaseTests.HelloWorldTitle` | main_test.ts:59-61 | camelToTitle(`"helloWorld"`) is `"Hello World"`. |
| `CaseTests.HelloWorldSentence` | main_test.ts:63-65 | toSentenceCase(`"hello world"`) is `"Hello world"`. |
| `CaseTests.HelloWorldToDotNotation` | main_test.ts:67-69 | camelToDotNotation(`"helloWorld"`) is `"hello.world"`. |
| `CaseTests.HelloWorldFromDotNotation` | main_test.ts:71-73 | dotNotationToCamel(`"hello.world"`) is `"helloWorld"`. |

## Left out

- Case mapping beyond ASCII: `Lower` and `Upper` change only `A`-`Z` and `a`-`z`. JavaScript's `toLowerCase`/`toUpperCase` also map other characters, letters such as `'É'` and symbols such as `'Ⓐ'` (U+24B6), and some of those change the length (`'ß'` → `"SS"`). The model agrees with the library on ASCII text.
- UTF-16: a string is a sequence of Unicode characters. `charAt` and `slice` on surrogate pairs are not modelled.
- The general regex engine and `replace` machinery: each `replace` call is written as the scan its pattern performs. `JsString.ReplaceFirst` takes its replacement literally. The `$` patterns of a replacement string are not interpreted. This is exact at main.ts:38, because the replacement there is one character, and a lone `$` stands for itself.
- The Deno test runner and the module's usage example with `console.log` (main.ts:1-12).
