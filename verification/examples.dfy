/**
 * Concrete cases of the comparison rules: extra blanks and a trailing
 * newline are ignored, a differing token or a moved line break is not, a
 * slow run fails even with the right answer, and values are compared with
 * their own equality.
 */
module Examples {
  import opened Decimal
  import opened Text
  import opened TokenCheck
  import opened Vectors
  import opened Harness

  // ---------------------------------------------------------------------
  // Token check

  /** A character that is a token by itself. */
  predicate Mark(c: char) {
    c !in Whitespace
  }

  /** Two marks with blanks between them are two tokens, however many blanks there are. */
  lemma TokensOfPair(x: char, y: char, blanks: string)
    requires Mark(x) && Mark(y) && |blanks| > 0 && AllIn(blanks, {' '})
    ensures Tokens([x] + blanks + [y]) == [[x], [y]]
  {
    TokensOfWord([x]);
    TokensOfWord([y]);
    assert [x] + blanks + [y] == [x] + [' '] + (blanks[1..] + [y]);
    TokensAtWhitespace([x], ' ', blanks[1..] + [y]);
    assert (blanks[1..] + [y])[..|blanks| - 1] == blanks[1..];
    TokensSkipWhitespace(blanks[1..] + [y], |blanks| - 1);
    assert (blanks[1..] + [y])[|blanks| - 1..] == [y];
  }

  lemma LinesOfTwo(a: string, b: string)
    requires NoneIn(a, Newline) && NoneIn(b, Newline)
    ensures Lines(a + ['\n'] + b) == [a, b]
  {
    SplitAtSeparator(a, '\n', b, Newline);
    SplitNoSeparator(a, Newline);
    SplitNoSeparator(b, Newline);
  }

  /** Line 0 of "1  2\n  3" has the tokens of "1 2", line 1 those of "3". */
  lemma ExtraBlanksLines(x: char, y: char, z: char)
    requires Mark(x) && Mark(y) && Mark(z)
    ensures Lines([x, ' ', ' ', y, '\n', ' ', ' ', z]) == [[x, ' ', ' ', y], [' ', ' ', z]]
    ensures Lines([x, ' ', y, '\n', z]) == [[x, ' ', y], [z]]
    ensures Tokens([x, ' ', ' ', y]) == Tokens([x, ' ', y]) == [[x], [y]]
    ensures Tokens([' ', ' ', z]) == Tokens([z]) == [[z]]
  {
    TokensOfPair(x, y, [' ', ' ']);
    assert [x] + [' ', ' '] + [y] == [x, ' ', ' ', y];
    TokensOfPair(x, y, [' ']);
    assert [x] + [' '] + [y] == [x, ' ', y];
    TokensOfWord([z]);
    TokensSkipWhitespace([' ', ' ', z], 2);
    assert [' ', ' ', z][2..] == [z];
    assert [x, ' ', ' ', y, '\n', ' ', ' ', z] == [x, ' ', ' ', y] + ['\n'] + [' ', ' ', z];
    LinesOfTwo([x, ' ', ' ', y], [' ', ' ', z]);
    assert [x, ' ', y, '\n', z] == [x, ' ', y] + ['\n'] + [z];
    LinesOfTwo([x, ' ', y], [z]);
  }

  /** Extra blanks between and after tokens and a final newline are ignored: "1  2\n  3  \n" matches "1 2\n3". */
  lemma ExtraBlanksMatch(x: char, y: char, z: char)
    requires Mark(x) && Mark(y) && Mark(z)
    ensures TokensMatch([x, ' ', ' ', y, '\n', ' ', ' ', z, ' ', ' ', '\n'], [x, ' ', y, '\n', z])
  {
    var actual := [x, ' ', ' ', y, '\n', ' ', ' ', z];
    var expected := [x, ' ', y, '\n', z];
    ExtraBlanksLines(x, y, z);
    assert LineTokens(actual, 0) == LineTokens(expected, 0);
    assert LineTokens(actual, 1) == LineTokens(expected, 1);
    assert TokensMatch(actual, expected);
    assert [x, ' ', ' ', y, '\n', ' ', ' ', z, ' ', ' ', '\n'] == actual + [' ', ' ', '\n'];
    TokensMatchIgnoresTrailingWhitespace(actual, expected, [' ', ' ', '\n']);
  }

  /** Three marks separated by single blanks are three tokens. */
  lemma TokensOfTriple(x: char, y: char, z: char)
    requires Mark(x) && Mark(y) && Mark(z)
    ensures Tokens([x, ' ', y, ' ', z]) == [[x], [y], [z]]
  {
    TokensOfPair(y, z, [' ']);
    assert [y] + [' '] + [z] == [y, ' ', z];
    TokensOfWord([x]);
    assert [x, ' ', y, ' ', z] == [x] + [' '] + [y, ' ', z];
    TokensAtWhitespace([x], ' ', [y, ' ', z]);
  }

  /** One differing token fails the test: "1 2 4" against "1 2 3". */
  lemma DifferentTokenFails(x: char, y: char, z: char, w: char)
    requires Mark(x) && Mark(y) && Mark(z) && Mark(w) && z != w
    ensures !TokensMatch([x, ' ', y, ' ', z], [x, ' ', y, ' ', w])
  {
    var actual, expected := [x, ' ', y, ' ', z], [x, ' ', y, ' ', w];
    TokensOfTriple(x, y, z);
    TokensOfTriple(x, y, w);
    SplitNoSeparator(actual, Newline);
    SplitNoSeparator(expected, Newline);
    assert LineTokens(actual, 0) == [[x], [y], [z]];
    assert LineTokens(expected, 0) == [[x], [y], [w]];
    assert [z] != [w];
    MismatchAt(actual, expected, 0);
  }

  /** Line breaks between tokens count: "1\n2" does not match "1 2". */
  lemma MovedLineBreakFails(x: char, y: char)
    requires Mark(x) && Mark(y)
    ensures !TokensMatch([x, '\n', y], [x, ' ', y])
  {
    TokensOfPair(x, y, [' ']);
    TokensOfWord([x]);
    assert [x, '\n', y] == [x] + ['\n'] + [y];
    LinesOfTwo([x], [y]);
    SplitNoSeparator([x, ' ', y], Newline);
    assert |LineTokens([x, '\n', y], 0)| != |LineTokens([x, ' ', y], 0)|;
    MismatchAt([x, '\n', y], [x, ' ', y], 0);
  }

  // ---------------------------------------------------------------------
  // Value check

  function ShowInt(x: int): string {
    if x < 0 then "-" + NatToString(-x) else NatToString(x)
  }

  /** How operator<< prints a non-empty vector of integers. */
  function ShowInts(v: seq<int>): string {
    "[" + Join(Shown(v, ShowInt), ',') + "]"
  }

  /** Doubling 21 gives 42 and not 43; a run of 12 seconds fails even with 42. */
  lemma DoublingCases()
    ensures TestFunction(x => x * 2, 21, 42, 0.5, ShowInt, ShowInt) == Pass
    ensures TestFunction(x => x * 2, 21, 43, 0.5, ShowInt, ShowInt).Mismatch?
    ensures TestFunction(x => x * 2, 21, 42, 10.0, ShowInt, ShowInt) == Pass
    ensures TestFunction(x => x * 2, 21, 42, 12.0, ShowInt, ShowInt).Timeout?
  {
  }

  /** A vector output passes only against the same elements in the same order. */
  lemma VectorCases()
    ensures TestFunction(_ => [1, 2, 3], 0, [1, 2, 3], 0.5, ShowInt, ShowInts) == Pass
    ensures TestFunction(_ => [1, 2, 3], 0, [1, 2], 0.5, ShowInt, ShowInts).Mismatch?
    ensures TestFunction(_ => [1, 2, 3], 0, [1, 2, 4], 0.5, ShowInt, ShowInts).Mismatch?
  {
  }
}
