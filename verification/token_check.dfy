/**
 * The output comparison of test_token_sequence: the actual and the
 * expected text agree when every line carries the same whitespace-delimited
 * tokens, a line missing from one text reading as an empty line.
 */
module TokenCheck {
  import opened Text
  import opened Streams

  /** Line i of a text, or the empty line past its end. */
  function LineAt(text: string, i: nat): string {
    var ls := Lines(text);
    if i < |ls| then ls[i] else ""
  }

  /** The tokens of line i of a text. */
  function LineTokens(text: string, i: nat): seq<string> {
    Tokens(LineAt(text, i))
  }

  /** The number of lines the comparison has to look at. */
  function LineCount(actual: string, expected: string): nat {
    var a, e := |Lines(actual)|, |Lines(expected)|;
    if a < e then e else a
  }

  /** The reference verdict: equal token lists on every line. */
  ghost predicate TokensMatch(actual: string, expected: string) {
    forall i: nat :: i < LineCount(actual, expected) ==> LineTokens(actual, i) == LineTokens(expected, i)
  }

  // ---------------------------------------------------------------------
  // The lockstep reading of lines 126-155

  /** Two reads that deliver the same text extend the common prefix consumed so far. */
  lemma LockstepAgree(done: seq<string>, p: seq<string>, q: seq<string>, x: string, p': seq<string>, q': seq<string>)
    requires Delivers(p, x, p') && Delivers(q, x, q')
    requires forall i :: 0 <= i < |p| ==> |p[i]| > 0
    requires forall i :: 0 <= i < |q| ==> |q[i]| > 0
    ensures p == [] <==> q == []
    ensures var done' := if p == [] then done else done + [x];
      done + p == done' + p' && done + q == done' + q'
  {
  }

  /** Two reads that deliver different texts come from different pending lists. */
  lemma LockstepDiffer(done: seq<string>, p: seq<string>, q: seq<string>, x: string, y: string, p': seq<string>, q': seq<string>)
    requires Delivers(p, x, p') && Delivers(q, y, q') && x != y
    ensures done + p != done + q
  {
    assert (done + p)[|done|..] == p;
    assert (done + q)[|done|..] == q;
  }

  /**
   * The inner loop: one token from each line per round, an exhausted side
   * giving the empty string, until both line streams have failed.
   */
  method SameTokens(outLine: string, ansLine: string) returns (same: bool)
    ensures same <==> Tokens(outLine) == Tokens(ansLine)
  {
    var o, a := Open(outLine), Open(ansLine);
    ghost var done: seq<string> := [];
    while o.Live() || a.Live()
      invariant o.Valid() && a.Valid()
      invariant Tokens(outLine) == done + o.PendingTokens()
      invariant Tokens(ansLine) == done + a.PendingTokens()
      decreases o.Size() + a.Size()
    {
      var outToken, ansToken := ReadToken(o), ReadToken(a);
      if outToken.text != ansToken.text {
        LockstepDiffer(done, o.PendingTokens(), a.PendingTokens(), outToken.text, ansToken.text,
                       outToken.next.PendingTokens(), ansToken.next.PendingTokens());
        return false;
      }
      LockstepAgree(done, o.PendingTokens(), a.PendingTokens(), outToken.text,
                    outToken.next.PendingTokens(), ansToken.next.PendingTokens());
      if o.PendingTokens() != [] {
        done := done + [outToken.text];
      }
      o, a := outToken.next, ansToken.next;
    }
    return true;
  }

  /** xs from index k on, empty once k is past the end. */
  function Drop<T>(xs: seq<T>, k: nat): seq<T> {
    if k <= |xs| then xs[k..] else []
  }

  /** Reading past the lines already read delivers line k of the text, or the empty line past its end. */
  lemma DropDelivers(text: string, k: nat, x: string, after: seq<string>)
    requires Delivers(Drop(Lines(text), k), x, after)
    ensures x == LineAt(text, k) && after == Drop(Lines(text), k + 1)
  {
  }

  /**
   * The outer loop: one line from each text per round, an exhausted side
   * giving the empty line, until both streams have failed; the first line
   * pair whose tokens differ ends the check.
   */
  method CheckTokens(actual: string, expected: string) returns (ok: bool)
    ensures ok <==> TokensMatch(actual, expected)
  {
    var out, ans := Open(actual), Open(expected);
    ghost var k: nat := 0;
    while out.Live() || ans.Live()
      invariant out.Valid() && ans.Valid()
      invariant out.PendingLines() == Drop(Lines(actual), k)
      invariant ans.PendingLines() == Drop(Lines(expected), k)
      invariant AgreeBelow(actual, expected, k)
      decreases out.Size() + ans.Size()
    {
      var outLine, ansLine := GetLine(out), GetLine(ans);
      DropDelivers(actual, k, outLine.text, outLine.next.PendingLines());
      DropDelivers(expected, k, ansLine.text, ansLine.next.PendingLines());
      var same := SameTokens(outLine.text, ansLine.text);
      if !same {
        MismatchAt(actual, expected, k);
        return false;
      }
      AgreeExtend(actual, expected, k);
      out, ans := outLine.next, ansLine.next;
      k := k + 1;
    }
    MatchedAll(actual, expected, k);
    return true;
  }

  /** The first k lines of both texts carry the same tokens. */
  ghost predicate AgreeBelow(actual: string, expected: string, k: nat) {
    forall i: nat :: i < k ==> LineTokens(actual, i) == LineTokens(expected, i)
  }

  lemma AgreeExtend(actual: string, expected: string, k: nat)
    requires AgreeBelow(actual, expected, k)
    requires LineTokens(actual, k) == LineTokens(expected, k)
    ensures AgreeBelow(actual, expected, k + 1)
  {
  }

  /** Once both texts are read to the end with no differing line, they match. */
  lemma MatchedAll(actual: string, expected: string, k: nat)
    requires Drop(Lines(actual), k) == [] && Drop(Lines(expected), k) == []
    requires AgreeBelow(actual, expected, k)
    ensures TokensMatch(actual, expected)
  {
  }

  /** One line with different tokens is enough for the texts not to match. */
  lemma MismatchAt(actual: string, expected: string, k: nat)
    requires LineTokens(actual, k) != LineTokens(expected, k)
    ensures !TokensMatch(actual, expected)
  {
  }

  // ---------------------------------------------------------------------
  // Properties of the reference verdict

  /** Past the last line of both texts every line is empty and has no token. */
  lemma TokensMatchEverywhere(actual: string, expected: string)
    ensures TokensMatch(actual, expected) <==>
      forall i: nat :: LineTokens(actual, i) == LineTokens(expected, i)
  {
  }

  /** Identical texts always match. */
  lemma TokensMatchReflexive(text: string)
    ensures TokensMatch(text, text)
  {
  }

  /** Swapping the actual and the expected text does not change the verdict. */
  lemma TokensMatchSymmetric(actual: string, expected: string)
    ensures TokensMatch(actual, expected) <==> TokensMatch(expected, actual)
  {
  }

  /** One more whitespace character at the end of a text leaves every line's tokens as they were. */
  lemma LineTokensAppendWhitespace(text: string, c: char)
    requires c in Whitespace
    ensures forall i: nat :: LineTokens(text + [c], i) == LineTokens(text, i)
  {
    if c == '\n' {
      LinesAppendNewline(text);
    } else {
      LinesAppendBlank(text, c);
    }
  }

  /** A newline at the end of a text opens one more, empty, line. */
  lemma LinesAppendNewline(text: string)
    ensures forall i: nat :: LineAt(text + "\n", i) == LineAt(text, i)
  {
    assert text + "\n" == text + ['\n'] + [];
    SplitAtSeparator(text, '\n', [], Newline);
    SplitEmpty(Newline);
  }

  /** A blank other than newline at the end of a text goes to its last line. */
  lemma LinesAppendBlank(text: string, c: char)
    requires c in Whitespace && c != '\n'
    ensures forall i: nat :: LineTokens(text + [c], i) == LineTokens(text, i)
  {
    var ls := Lines(text);
    var n := |ls| - 1;
    SplitAppendOther(text, c, Newline);
    var with := Lines(text + [c]);
    assert with == ls[..n] + [ls[n] + [c]];
    assert |with| == |ls| && with[n] == ls[n] + [c];
    TokensAppendWhitespace(ls[n], c);
    forall i: nat
      ensures LineTokens(text + [c], i) == LineTokens(text, i)
    {
      if i < n {
        assert with[i] == ls[i];
      }
    }
  }

  /**
   * Whitespace appended to a text, whether trailing blanks on its last line
   * or further blank lines, leaves every line's tokens as they were.
   */
  lemma {:induction false} LineTokensAppendAllWhitespace(text: string, w: string)
    requires AllIn(w, Whitespace)
    ensures forall i: nat :: LineTokens(text + w, i) == LineTokens(text, i)
    decreases |w|
  {
    if w == [] {
      assert text + w == text;
    } else {
      LineTokensAppendWhitespace(text, w[0]);
      assert text + w == (text + [w[0]]) + w[1..];
      LineTokensAppendAllWhitespace(text + [w[0]], w[1..]);
    }
  }

  /** Trailing whitespace and trailing blank lines never change the verdict. */
  lemma TokensMatchIgnoresTrailingWhitespace(actual: string, expected: string, w: string)
    requires AllIn(w, Whitespace)
    ensures TokensMatch(actual + w, expected) <==> TokensMatch(actual, expected)
    ensures TokensMatch(actual, expected + w) <==> TokensMatch(actual, expected)
  {
    LineTokensAppendAllWhitespace(actual, w);
    LineTokensAppendAllWhitespace(expected, w);
    TokensMatchEverywhere(actual + w, expected);
    TokensMatchEverywhere(actual, expected + w);
    TokensMatchEverywhere(actual, expected);
  }

  /** The lines of a + [c] + "\n" + b, where c is a blank: those of a, c added to the last, then those of b. */
  lemma LinesBlankBeforeNewline(a: string, c: char, b: string)
    requires c in Whitespace && c != '\n'
    ensures var la := Lines(a);
      && Lines(a + [c] + "\n" + b) == la[..|la| - 1] + [la[|la| - 1] + [c]] + Lines(b)
      && Lines(a + "\n" + b) == la + Lines(b)
  {
    assert a + [c] + "\n" + b == (a + [c]) + ['\n'] + b;
    assert a + "\n" + b == a + ['\n'] + b;
    SplitAtSeparator(a + [c], '\n', b, Newline);
    SplitAtSeparator(a, '\n', b, Newline);
    SplitAppendOther(a, c, Newline);
  }

  /**
   * A blank other than newline just before a line break goes to the end of
   * that line, where it separates no token: every line keeps its tokens.
   */
  lemma LineTokensBlankBeforeNewline(a: string, c: char, b: string)
    requires c in Whitespace && c != '\n'
    ensures forall i: nat :: LineTokens(a + [c] + "\n" + b, i) == LineTokens(a + "\n" + b, i)
  {
    var la, lb := Lines(a), Lines(b);
    var n := |la| - 1;
    LinesBlankBeforeNewline(a, c, b);
    TokensAppendWhitespace(la[n], c);
    var with, without := Lines(a + [c] + "\n" + b), Lines(a + "\n" + b);
    assert |with| == |without|;
    forall i: nat
      ensures LineTokens(a + [c] + "\n" + b, i) == LineTokens(a + "\n" + b, i)
    {
      if i < n {
        assert with[i] == la[i] == without[i];
      } else if i > n && i < |with| {
        assert with[i] == lb[i - n - 1] == without[i];
      }
    }
  }

  /** Trailing whitespace on any line, not only the last, never changes the verdict. */
  lemma TokensMatchIgnoresBlankBeforeNewline(a: string, c: char, b: string, other: string)
    requires c in Whitespace && c != '\n'
    ensures TokensMatch(a + [c] + "\n" + b, other) <==> TokensMatch(a + "\n" + b, other)
    ensures TokensMatch(other, a + [c] + "\n" + b) <==> TokensMatch(other, a + "\n" + b)
  {
    LineTokensBlankBeforeNewline(a, c, b);
    TokensMatchEverywhere(a + [c] + "\n" + b, other);
    TokensMatchEverywhere(a + "\n" + b, other);
    TokensMatchEverywhere(other, a + [c] + "\n" + b);
    TokensMatchEverywhere(other, a + "\n" + b);
  }
}
