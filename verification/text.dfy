/**
 * Splitting text into lines and whitespace-delimited tokens, and joining
 * pieces with a separator. These are the reference definitions the token
 * check and the vector rendering are measured against.
 */
module Text {

  /** The characters the C locale's isspace accepts: space, \t, \n, \v, \f and \r. */
  const Whitespace: set<char> := {' ', '\t', '\n', '\U{000B}', '\U{000C}', '\r'}

  /** The line separator std::getline uses by default. */
  const Newline: set<char> := {'\n'}

  /** No character of s belongs to S. */
  predicate NoneIn(s: string, S: set<char>) {
    forall j :: 0 <= j < |s| ==> s[j] !in S
  }

  /** Every character of s belongs to S. */
  predicate AllIn(s: string, S: set<char>) {
    forall j :: 0 <= j < |s| ==> s[j] in S
  }

  /** The index of the first character of s in S, or |s| when there is none. */
  function FirstIn(s: string, S: set<char>): (k: nat)
    ensures k <= |s|
    ensures k < |s| ==> s[k] in S
    ensures NoneIn(s[..k], S)
  {
    if s == [] || s[0] in S then 0
    else
      var k := 1 + FirstIn(s[1..], S);
      assert s[..k] == [s[0]] + s[1..][..k - 1];
      k
  }

  /** The index of the first character of s outside S, or |s| when there is none. */
  function FirstNotIn(s: string, S: set<char>): (k: nat)
    ensures k <= |s|
    ensures k < |s| ==> s[k] !in S
    ensures AllIn(s[..k], S)
  {
    if s == [] || s[0] !in S then 0
    else
      var k := 1 + FirstNotIn(s[1..], S);
      assert s[..k] == [s[0]] + s[1..][..k - 1];
      k
  }

  /** FirstIn is the only index with its two properties. */
  lemma FirstInUnique(s: string, S: set<char>, k: nat)
    requires k <= |s| && (k < |s| ==> s[k] in S) && NoneIn(s[..k], S)
    ensures FirstIn(s, S) == k
  {
  }

  /**
   * The pieces of s between the characters of S, in order, empty pieces
   * included. There is always at least one piece and no piece holds a
   * separator.
   */
  function Split(s: string, S: set<char>): (pieces: seq<string>)
    ensures |pieces| >= 1
    ensures forall i :: 0 <= i < |pieces| ==> NoneIn(pieces[i], S)
    decreases |s|
  {
    var k := FirstIn(s, S);
    if k == |s| then
      assert s[..k] == s;
      [s]
    else [s[..k]] + Split(s[k + 1..], S)
  }

  /** The non-empty elements of xs, in order. */
  function NonEmpty(xs: seq<string>): (r: seq<string>)
    ensures forall i :: 0 <= i < |r| ==> |r[i]| > 0
  {
    if xs == [] then []
    else (if xs[0] == [] then [] else [xs[0]]) + NonEmpty(xs[1..])
  }

  /** The lines of a text as std::getline returns them, the last one possibly empty. */
  function Lines(s: string): seq<string> {
    Split(s, Newline)
  }

  /** The whitespace-delimited tokens of s, as repeated operator>> extracts them. */
  function Tokens(s: string): (ts: seq<string>)
    ensures forall i :: 0 <= i < |ts| ==> |ts[i]| > 0
  {
    NonEmpty(Split(s, Whitespace))
  }

  /** The elements of xs with the separator between each neighbouring pair. */
  function Join(xs: seq<string>, sep: char): string {
    if |xs| == 0 then ""
    else if |xs| == 1 then xs[0]
    else xs[0] + [sep] + Join(xs[1..], sep)
  }

  // ---------------------------------------------------------------------
  // Split

  lemma SplitEmpty(S: set<char>)
    ensures Split([], S) == [[]]
  {
  }

  /** A text without separators is a single piece. */
  lemma SplitNoSeparator(s: string, S: set<char>)
    requires NoneIn(s, S)
    ensures Split(s, S) == [s]
  {
  }

  /** A separator cuts a text in two independently split halves. */
  lemma {:induction false} SplitAtSeparator(a: string, c: char, b: string, S: set<char>)
    requires c in S
    ensures Split(a + [c] + b, S) == Split(a, S) + Split(b, S)
    decreases |a|
  {
    var s := a + [c] + b;
    var k := FirstIn(a, S);
    if k == |a| {
      assert s[..|a|] == a;
      assert a[..|a|] == a;
      FirstInUnique(s, S, |a|);
      assert s[|a| + 1..] == b;
      SplitNoSeparator(a, S);
    } else {
      assert s[..k] == a[..k];
      FirstInUnique(s, S, k);
      assert s[k + 1..] == a[k + 1..] + [c] + b;
      SplitAtSeparator(a[k + 1..], c, b, S);
    }
  }

  /** A character outside S extends the last piece. */
  lemma {:induction false} SplitAppendOther(a: string, c: char, S: set<char>)
    requires c !in S
    ensures var p := Split(a, S);
      Split(a + [c], S) == p[..|p| - 1] + [p[|p| - 1] + [c]]
    decreases |a|
  {
    var s := a + [c];
    var k := FirstIn(a, S);
    if k == |a| {
      assert a[..|a|] == a;
      assert s[..|s|] == s;
      assert NoneIn(s, S);
      SplitNoSeparator(s, S);
      SplitNoSeparator(a, S);
    } else {
      assert s[..k] == a[..k];
      FirstInUnique(s, S, k);
      assert s[k + 1..] == a[k + 1..] + [c];
      SplitAppendOther(a[k + 1..], c, S);
    }
  }

  // ---------------------------------------------------------------------
  // Tokens

  lemma {:induction false} NonEmptyAppend(xs: seq<string>, ys: seq<string>)
    ensures NonEmpty(xs + ys) == NonEmpty(xs) + NonEmpty(ys)
    decreases |xs|
  {
    if xs == [] {
      assert xs + ys == ys;
    } else {
      assert (xs + ys)[1..] == xs[1..] + ys;
      NonEmptyAppend(xs[1..], ys);
    }
  }

  lemma TokensEmpty()
    ensures Tokens([]) == []
  {
    SplitEmpty(Whitespace);
    assert NonEmpty([[]]) == [] + NonEmpty([]);
  }

  /** Whitespace in the middle of a text separates the tokens of both sides. */
  lemma TokensAtWhitespace(a: string, c: char, b: string)
    requires c in Whitespace
    ensures Tokens(a + [c] + b) == Tokens(a) + Tokens(b)
  {
    SplitAtSeparator(a, c, b, Whitespace);
    NonEmptyAppend(Split(a, Whitespace), Split(b, Whitespace));
  }

  /** Trailing whitespace adds no token. */
  lemma TokensAppendWhitespace(a: string, c: char)
    requires c in Whitespace
    ensures Tokens(a + [c]) == Tokens(a)
  {
    assert a + [c] == a + [c] + [];
    TokensAtWhitespace(a, c, []);
    TokensEmpty();
  }

  /** Leading whitespace adds no token. */
  lemma {:induction false} TokensSkipWhitespace(s: string, i: nat)
    requires i <= |s| && AllIn(s[..i], Whitespace)
    ensures Tokens(s) == Tokens(s[i..])
    decreases i
  {
    if i > 0 {
      assert s[..i][0] == s[0];
      assert s == [] + [s[0]] + s[1..];
      TokensAtWhitespace([], s[0], s[1..]);
      TokensEmpty();
      assert s[1..][..i - 1] == s[..i][1..];
      TokensSkipWhitespace(s[1..], i - 1);
      assert s[1..][i - 1..] == s[i..];
    }
  }

  /** A text of whitespace only has no token. */
  lemma TokensOfWhitespace(s: string)
    requires AllIn(s, Whitespace)
    ensures Tokens(s) == []
  {
    assert s[..|s|] == s;
    TokensSkipWhitespace(s, |s|);
    assert s[|s|..] == [];
    TokensEmpty();
  }

  /** A non-empty text free of whitespace is one token. */
  lemma TokensOfWord(s: string)
    requires |s| > 0 && NoneIn(s, Whitespace)
    ensures Tokens(s) == [s]
  {
    SplitNoSeparator(s, Whitespace);
    assert NonEmpty([s]) == [s] + NonEmpty([]);
  }

  /**
   * A text starting with a non-whitespace character has as first token the
   * run up to the next whitespace character, and the rest of its tokens
   * come from what follows that run.
   */
  lemma TokensFirstRun(s: string)
    requires |s| > 0 && s[0] !in Whitespace
    ensures var j := FirstIn(s, Whitespace);
      0 < j && Tokens(s) == [s[..j]] + Tokens(s[j..])
  {
    var j := FirstIn(s, Whitespace);
    if j == |s| {
      assert s[..j] == s;
      assert s[j..] == [];
      TokensOfWord(s);
      TokensEmpty();
    } else {
      TokensWordThenWhitespace(s, j);
    }
  }

  /** A word ended by whitespace is the first token. */
  lemma TokensWordThenWhitespace(s: string, j: nat)
    requires 0 < j < |s| && s[j] in Whitespace && NoneIn(s[..j], Whitespace)
    ensures Tokens(s) == [s[..j]] + Tokens(s[j..])
  {
  }

  // ---------------------------------------------------------------------
  // Join

  /** Joining a split text gives the text back. */
  lemma {:induction false} JoinSplit(s: string, sep: char)
    ensures Join(Split(s, {sep}), sep) == s
    decreases |s|
  {
    var k := FirstIn(s, {sep});
    if k == |s| {
      assert s[..k] == s;
    } else {
      var rest := Split(s[k + 1..], {sep});
      assert Split(s, {sep}) == [s[..k]] + rest;
      assert ([s[..k]] + rest)[1..] == rest;
      assert Join([s[..k]] + rest, sep) == s[..k] + [sep] + Join(rest, sep);
      JoinSplit(s[k + 1..], sep);
      assert s[k] == sep;
      assert s[..k] + [sep] + s[k + 1..] == s;
    }
  }

  /** Splitting a join of separator-free pieces gives the pieces back. */
  lemma {:induction false} SplitJoin(xs: seq<string>, sep: char)
    requires |xs| >= 1
    requires forall i :: 0 <= i < |xs| ==> NoneIn(xs[i], {sep})
    ensures Split(Join(xs, sep), {sep}) == xs
    decreases |xs|
  {
    SplitNoSeparator(xs[0], {sep});
    if |xs| > 1 {
      var tail := Join(xs[1..], sep);
      assert Join(xs, sep) == xs[0] + [sep] + tail;
      SplitAtSeparator(xs[0], sep, tail, {sep});
      SplitJoin(xs[1..], sep);
      assert [xs[0]] + xs[1..] == xs;
    }
  }

  /** Joining with one more piece appends a separator and that piece. */
  lemma {:induction false} JoinSnoc(xs: seq<string>, y: string, sep: char)
    requires |xs| >= 1
    ensures Join(xs + [y], sep) == Join(xs, sep) + [sep] + y
    decreases |xs|
  {
    if |xs| == 1 {
      assert (xs + [y])[1..] == [y];
    } else {
      assert (xs + [y])[1..] == xs[1..] + [y];
      JoinSnoc(xs[1..], y, sep);
    }
  }
}
