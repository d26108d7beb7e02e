# listing_utils.hh in Dafny

A verified model of the small test harness in `utils/listing_utils.hh`. The
harness checks solutions to programming exercises against expected answers.
It has four parts:

- `truncate_string` shortens a string before it goes into a failure report.
  A string of more than 50 characters keeps its first 50 characters. A note
  with its original length follows them.
- `test_token_sequence` compares the text a stream solution wrote with the
  expected text. It reads both line by line in lockstep, and each pair of
  lines token by token in lockstep. An exhausted side yields an empty line or
  an empty token.
- `test_function` runs a function once and compares its result with the
  expected value using `==`.
- The vector `operator==` and `operator<<` are the equality and the printed
  form used for vector results.

Both testers check the running time first. A run longer than 10 seconds
fails whatever its output was. The time is checked only after the solution
has returned.

The model is functional:

- The header prints to `cerr` and calls `std::exit(1)`. The model returns a
  `Verdict` instead: `Pass`, `Timeout(input, elapsed)` or
  `Mismatch(input, expected, actual)`.
- The measured time is a `real` parameter.
- The stream solution's output is a string parameter.
- The function solution is a function parameter.

The token comparison is modelled twice:

- As the code does it (`TokenCheck.CheckTokens`, `TokenCheck.SameTokens`).
  These loops work over a model of `istringstream` state: unread text,
  eofbit and failbit. `std::getline` and `operator>>` are transitions of that
  state (`Streams`).
- As a reference predicate (`TokenCheck.TokensMatch`). Two texts match when
  every line index has equal token lists. A missing line counts as empty.

The loops are proved to compute exactly the predicate.

Modules:

- `Decimal`: `std::to_string` on naturals, and its inverse.
- `Truncation`: `truncate_string`.
- `Text`: lines, tokens, split and join.
- `Streams`: stream state, `getline` and `>>`.
- `TokenCheck`: the comparison, as loops and as a predicate.
- `Vectors`: vector equality and printing.
- `Harness`: the two testers.
- `Examples`: concrete cases.

## Model

| member | source | states |
|---|---|---|
| `Decimal.NatToString` | utils/listing_utils.hh:40 | The length is written in decimal digits with no leading zero, and reading those digits back gives the number |
| `Truncation.Truncate` | utils/listing_utils.hh:34-43 | A string of at most 50 characters is unchanged, 50 included. A longer one keeps its first 50 characters, then `... [length = `, then its length in decimal, then `]`. That is 65 + digits(L) characters in total |
| `Truncation.TruncateRecordsLength` | utils/listing_utils.hh:36-41 | The digits in the note of a shortened string spell exactly its original length |
| `Truncation.TruncateLosesSuffix` | utils/listing_utils.hh:38 | Shortening is not injective: two different strings can give the same report |
| `Streams.Open` | utils/listing_utils.hh:131-132 | A freshly built `istringstream` has clear flags and has read nothing: `getline` will deliver every line of the string and `>>` every token of it |
| `Streams.GetLine` | utils/listing_utils.hh:128-129 | `getline` delivers the next line of the text. Once the text is exhausted it delivers the empty line and sets failbit. Every read from a stream that has not failed makes progress |
| `Streams.ReadToken` | utils/listing_utils.hh:138-139 | `>>` delivers the next whitespace-delimited token of the line. Once the tokens are exhausted it delivers the empty string and sets failbit |
| `TokenCheck.SameTokens` | utils/listing_utils.hh:131-154 | The inner lockstep loop finds no differing token pair if and only if the two lines have equal token lists. A token present on one side only counts as a difference |
| `TokenCheck.CheckTokens` | utils/listing_utils.hh:126-155 | The outer lockstep loop accepts if and only if every line index has equal token lists in both texts, missing lines read as empty |
| `TokenCheck.TokensMatchEverywhere` | utils/listing_utils.hh:126-129 | Comparing up to the longer text's line count is the same as comparing every line index, because lines past the end are empty |
| `TokenCheck.TokensMatchReflexive` | utils/listing_utils.hh:126-155 | A text always matches itself |
| `TokenCheck.TokensMatchSymmetric` | utils/listing_utils.hh:126-155 | Swapping actual and expected output does not change the verdict |
| `TokenCheck.TokensMatchIgnoresTrailingWhitespace` | utils/listing_utils.hh:97-98 | Appending any whitespace to either text leaves the verdict unchanged. This covers trailing blanks on the last line and extra blank or whitespace-only lines |
| `TokenCheck.TokensMatchIgnoresBlankBeforeNewline` | utils/listing_utils.hh:97-98 | Trailing whitespace on any line, not only the last, leaves the verdict unchanged: `"1 \n2"` matches wherever `"1\n2"` does, on either side of the comparison |
| `TokenCheck.LineTokensBlankBeforeNewline` | utils/listing_utils.hh:131-132 | A blank just before a line break stays on that line and leaves the token list of every line unchanged |
| `TokenCheck.LineTokensAppendAllWhitespace` | utils/listing_utils.hh:97-98 | Appending whitespace leaves the token list of every line unchanged |
| `Text.TokensAtWhitespace` | utils/listing_utils.hh:138-139 | Whitespace inside a line separates tokens: the tokens of a + ws + b are those of a followed by those of b |
| `Text.JoinSplit` | utils/listing_utils.hh:128-129 | Cutting a text at every `'\n'` loses nothing: joining the lines with `'\n'` gives the text back |
| `Vectors.VecEqual` | utils/listing_utils.hh:61-73 | Vector `==` is true if and only if the lengths are equal and the elements are pairwise equal, which is exactly sequence equality |
| `Vectors.Render` | utils/listing_utils.hh:76-90 | A non-empty vector prints as `[`, then the elements joined by `,`, then `]` |
| `Vectors.RenderSplitsBack` | utils/listing_utils.hh:76-90 | When no element prints with a comma, splitting the text between the brackets at commas gives back the printed elements |
| `Vectors.EmptyVectorOverruns` | utils/listing_utils.hh:79 | For an empty vector the unsigned bound `v.size() - 1` wraps to the largest size_t, so the loop reads `v[0]` |
| `Vectors.SizeMinusOneAgrees` | utils/listing_utils.hh:79 | For a non-empty vector the unsigned bound equals size - 1 |
| `Vectors.RenderAny` | utils/listing_utils.hh:76-90 | The intended printing: `[]` for an empty vector, and the form above otherwise |
| `Harness.TimeLimitInclusive` | utils/listing_utils.hh:118 | The time test is a strict `>`: a run of exactly 10 s is not a timeout, and a run at least as long as a timed-out run times out too |
| `Harness.TestTokenSequence` | utils/listing_utils.hh:100-156 | The timeout check comes first, and a run over 10 s is a timeout even with correct output. Otherwise the test passes if and only if the untruncated output and expected text match token by token. A mismatch reports the truncated input, expected and actual text |
| `Harness.TestFunction` | utils/listing_utils.hh:165-201 | The timeout check comes first. The test passes if and only if the time is within 10 s and `f(input) == expected`. A mismatch reports the truncated renderings of input, expected and actual value |
| `Harness.MismatchReportMayLookEqual` | utils/listing_utils.hh:142-151 | The comparison uses the full strings. An output that fails can still be reported identically to the expected output |
| `Examples.ExtraBlanksMatch` | utils/listing_utils.hh:126-155 | `"1  2\n  3  \n"` matches `"1 2\n3"`, for any non-blank characters in place of 1, 2, 3 |
| `Examples.DifferentTokenFails` | utils/listing_utils.hh:138-141 | `"1 2 4"` does not match `"1 2 3"` |
| `Examples.MovedLineBreakFails` | utils/listing_utils.hh:126-141 | `"1\n2"` does not match `"1 2"` |
| `Examples.DoublingCases` | utils/listing_utils.hh:179-200 | Doubling 21 passes against 42 and fails against 43. A time of exactly 10 s passes, and 12 s is a timeout |
| `Examples.VectorCases` | utils/listing_utils.hh:61-73 | `[1,2,3]` passes against `[1,2,3]` and fails against `[1,2]` and `[1,2,4]` |

## Left out

- Clock sampling with `high_resolution_clock` and the `double` duration arithmetic are left out. The elapsed time is a `real` parameter compared with 10.0.
- Writing to `cerr` is left out, and so is `std::exit(1)`. The report is the returned `Verdict`. The header texts (`Failed on test:` and so on) and the printed execution time are not modelled.
- Running the solution is left out. For the stream tester the output text is a parameter, and the input stream it reads is not modelled. For `test_function` the solution is a function parameter `f`.
- `TokenCheck.CheckTokens` reads the output from its first character with clear flags. A solution that reads from its own output stream, or sets its error flags, is not modelled.
- The template `to_string` (lines 46-51) is left out. It returns `object.str()` instead of `ss.str()`. For `int` or `std::vector<int>` that member call does not compile, so `test_function` as written cannot be instantiated with those types. `Harness.TestFunction` takes the printing of input and output as parameters, and `Examples.DoublingCases` and `Examples.VectorCases` use the evidently intended printing (`Examples.ShowInt`, `Examples.ShowInts`).
- `vec()` (lines 53-58) is left out. It only builds a vector from its arguments.
- Byte semantics of `std::string` are left out. A Dafny `char` stands for one C++ `char`, that is one byte. `length()`, the cut at 50 in `Truncation.Truncate` and `isspace` all work per byte in the header. For text with multibyte UTF-8 characters the model counts characters where the header counts bytes, and it never splits a character the way `resize(50)` can.
- Locale-dependent `isspace` is left out. Whitespace is the C locale's set: space, `\t`, `\n`, `\v`, `\f`, `\r`.
- Truncation.Truncate: the length is taken as a natural number. The narrowing of `str.length()` to `int` on line 36 is not modelled for strings longer than 2^31 - 1 characters.
- Vectors.Render: the `int` loop counter compared with a `size_t` bound is not modelled for vectors longer than 2^31 - 1 elements.
- Vectors.VecEqual: elements are compared with Dafny equality, standing in for the element type's `operator!=`.

## Findings

| source | as written | input that shows it | evidently intended | confidence | as-written member | corrected member |
|---|---|---|---|---|---|---|
| utils/listing_utils.hh:79 | `i < v.size() - 1` is computed in `size_t`, so it wraps for an empty vector | an empty vector: the bound is 2^64 - 1, and `v[0]` is read | print `[]`, as the guard `if (v.size())` on line 83 expects an empty vector | high (not executed) | `Vectors.EmptyVectorOverruns` | `Vectors.RenderAny` |
