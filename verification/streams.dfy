/**
 * The part of an input string stream the token check relies on: the text
 * not yet read and the eofbit and failbit flags, with std::getline and
 * operator>> into a string as transitions of that state.
 */
module Streams {
  import opened Text

  /** An istringstream: unread text, eofbit, failbit. */
  datatype Stream = Stream(rest: string, eof: bool, fail: bool) {

    /** eofbit is only ever set once every character has been read. */
    predicate Valid() {
      eof ==> rest == []
    }

    /** A stream converts to true in a condition exactly when failbit is clear. */
    predicate Live() {
      !fail
    }

    /** Decreases with every read from a stream that has not failed. */
    function Size(): nat {
      |rest| + (if eof then 0 else 1) + (if fail then 0 else 1)
    }

    /** The lines std::getline will still deliver before the stream fails. */
    function PendingLines(): seq<string> {
      if eof || fail then [] else Lines(rest)
    }

    /** The tokens operator>> will still deliver before the stream fails. */
    function PendingTokens(): seq<string> {
      if eof || fail then [] else Tokens(rest)
    }
  }

  /**
   * What a read from a list of pending items delivers: its head, or the
   * empty string once the list is exhausted; after names what is left.
   */
  ghost predicate Delivers(pending: seq<string>, text: string, after: seq<string>) {
    if pending == [] then text == "" && after == [] else text == pending[0] && after == pending[1..]
  }

  /** What a read delivered, and the stream afterwards. */
  datatype Read = Read(text: string, next: Stream)

  /** A fresh istringstream over s. */
  function Open(s: string): (st: Stream)
    ensures st.Valid() && st.Live()
    ensures st.PendingLines() == Lines(s) && st.PendingTokens() == Tokens(s)
  {
    Stream(s, false, false)
  }

  /**
   * std::getline(st, line): when the stream is not good the sentry sets
   * failbit and nothing is read; otherwise characters are taken up to the
   * first '\n', which is consumed but not stored. Reaching the end instead
   * sets eofbit, and also failbit when not a single character was taken.
   */
  function GetLine(st: Stream): (r: Read)
    requires st.Valid()
    ensures r.next.Valid()
    ensures Delivers(st.PendingLines(), r.text, r.next.PendingLines())
    ensures r.next.Live() ==> st.PendingLines() != []
    ensures st.Live() ==> r.next.Size() < st.Size()
    ensures !st.Live() ==> r.next == st
  {
    if st.eof || st.fail then Read("", st.(fail := true))
    else
      var k := FirstIn(st.rest, Newline);
      if k < |st.rest| then Read(st.rest[..k], Stream(st.rest[k + 1..], false, false))
      else
        assert st.rest[..k] == st.rest;
        Read(st.rest, Stream([], true, st.rest == []))
  }

  /**
   * st >> token: when the stream is not good the sentry sets failbit;
   * otherwise leading whitespace is skipped, and reaching the end there
   * sets eofbit and failbit. Else the characters up to the next whitespace
   * character form the token, which is left unread; reaching the end
   * instead sets eofbit.
   */
  function ReadToken(st: Stream): (r: Read)
    requires st.Valid()
    ensures r.next.Valid()
    ensures Delivers(st.PendingTokens(), r.text, r.next.PendingTokens())
    ensures r.next.Live() ==> st.PendingTokens() != []
    ensures st.Live() ==> r.next.Size() < st.Size()
    ensures !st.Live() ==> r.next == st
  {
    if st.eof || st.fail then Read("", st.(fail := true))
    else
      var i := FirstNotIn(st.rest, Whitespace);
      TokensSkipWhitespace(st.rest, i);
      if i == |st.rest| then
        assert st.rest[i..] == [];
        TokensEmpty();
        Read("", Stream([], true, true))
      else
        var t := st.rest[i..];
        var j := FirstIn(t, Whitespace);
        TokensFirstRun(t);
        if j == |t| then
          assert t[j..] == [];
          TokensEmpty();
          Read(t[..j], Stream([], true, false))
        else Read(t[..j], Stream(t[j..], false, false))
  }
}
