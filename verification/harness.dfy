/**
 * The verdicts of test_token_sequence and test_function. Where the header
 * prints a report to cerr and calls std::exit(1), the model returns the
 * report as a Verdict; the measured running time and the solution's
 * output are parameters.
 */
module Harness {
  import opened Truncation
  import opened Text
  import opened TokenCheck

  /** Longest accepted running time of one solution call, in seconds (MAX_EXECUTION_TIME). */
  const MaxExecutionTime: real := 10.0

  /** The outcome of one test: silent success, or the report written before exiting. */
  datatype Verdict =
    | Pass
      /** The run took too long: the shortened input and the measured time. */
    | Timeout(input: string, elapsed: real)
      /** The output was wrong: the shortened input, expected and actual output. */
    | Mismatch(input: string, expected: string, actual: string)

  /** The time check runs after the solution has returned; it cannot stop a long run. */
  predicate TimedOut(elapsed: real) {
    elapsed > MaxExecutionTime
  }

  /**
   * The limit itself is allowed, and a run at least as long as one that
   * timed out times out too.
   */
  lemma TimeLimitInclusive(a: real, b: real)
    ensures !TimedOut(MaxExecutionTime)
    ensures a <= b && TimedOut(a) ==> TimedOut(b)
    ensures !TimedOut(b) && a <= b ==> !TimedOut(a)
  {
  }

  /**
   * test_token_sequence, given what the solution wrote and how long it ran.
   * A timeout is reported whatever the output; otherwise the untruncated
   * output is compared with the untruncated expected text token by token
   * and line by line, and only the report is shortened.
   */
  method TestTokenSequence(input: string, expected: string, output: string, elapsed: real)
    returns (v: Verdict)
    ensures TimedOut(elapsed) ==> v == Timeout(Truncate(input), elapsed)
    ensures !TimedOut(elapsed) ==> (v == Pass <==> TokensMatch(output, expected))
    ensures !TimedOut(elapsed) && !TokensMatch(output, expected) ==>
      v == Mismatch(Truncate(input), Truncate(expected), Truncate(output))
  {
    if TimedOut(elapsed) {
      return Timeout(Truncate(input), elapsed);
    }
    var ok := CheckTokens(output, expected);
    if !ok {
      return Mismatch(Truncate(input), Truncate(expected), Truncate(output));
    }
    return Pass;
  }

  /**
   * test_function: the solution is f, the values are printed by showIn and
   * showOut for the report. The test passes if and only if the run was not
   * too long and f(input) equals the expected value.
   */
  function TestFunction<In, Out(==)>(f: In -> Out, input: In, expected: Out, elapsed: real,
                                     showIn: In -> string, showOut: Out -> string): (v: Verdict)
    ensures v == Pass <==> !TimedOut(elapsed) && f(input) == expected
    ensures TimedOut(elapsed) ==> v == Timeout(Truncate(showIn(input)), elapsed)
    ensures !TimedOut(elapsed) && f(input) != expected ==>
      v == Mismatch(Truncate(showIn(input)), Truncate(showOut(expected)), Truncate(showOut(f(input))))
  {
    var actual := f(input);
    if TimedOut(elapsed) then Timeout(Truncate(showIn(input)), elapsed)
    else if actual == expected then Pass
    else Mismatch(Truncate(showIn(input)), Truncate(showOut(expected)), Truncate(showOut(actual)))
  }

  // ---------------------------------------------------------------------
  // Consequences

  /**
   * The report is not what is compared: an actual output that differs from
   * the expected one only after the fiftieth character fails the test, yet
   * both are reported as the same string.
   */
  lemma MismatchReportMayLookEqual()
    ensures exists expected: string, output: string ::
      !TokensMatch(output, expected) && Truncate(output) == Truncate(expected)
  {
    var expected := seq(50, _ => 'x') + "1";
    var output := seq(50, _ => 'x') + "2";
    assert expected[..50] == output[..50];
    assert NoneIn(expected, Newline) && NoneIn(output, Newline);
    SplitNoSeparator(expected, Newline);
    SplitNoSeparator(output, Newline);
    assert NoneIn(expected, Whitespace) && NoneIn(output, Whitespace);
    TokensOfWord(expected);
    TokensOfWord(output);
    assert expected[50] != output[50];
    MismatchAt(output, expected, 0);
  }
}
