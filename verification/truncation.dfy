/**
 * truncate_string: the shortening applied to every string the harness
 * writes into a failure report.
 */
module Truncation {
  import opened Decimal

  /** Reported strings longer than this are shortened (MAX_REPORTED_STRING_LEN). */
  const MaxReportedLen: nat := 50

  /** What follows the kept prefix of a shortened string, ahead of its original length. */
  const LengthNote: string := "... [length = "

  /**
   * A string of at most MaxReportedLen characters is reported as it is; a
   * longer one keeps its first MaxReportedLen characters, followed by a note
   * carrying its original length in decimal.
   */
  function Truncate(s: string): (r: string)
    ensures |s| <= MaxReportedLen ==> r == s
    ensures |s| > MaxReportedLen ==>
      && |r| == MaxReportedLen + |LengthNote| + |NatToString(|s|)| + 1
      && r[..MaxReportedLen] == s[..MaxReportedLen]
      && r[MaxReportedLen..MaxReportedLen + |LengthNote|] == LengthNote
      && r[|r| - 1] == ']'
  {
    if |s| > MaxReportedLen then s[..MaxReportedLen] + LengthNote + NatToString(|s|) + "]"
    else s
  }

  /** The note of a shortened string spells out exactly the original length. */
  lemma TruncateRecordsLength(s: string)
    requires |s| > MaxReportedLen
    ensures var r, start := Truncate(s), MaxReportedLen + |LengthNote|;
      && IsDigits(r[start..|r| - 1])
      && ParseNat(r[start..|r| - 1]) == |s|
  {
  }

  /**
   * Two reported strings can coincide although the strings differ: a
   * report never stands in for the strings it was made from.
   */
  lemma TruncateLosesSuffix()
    ensures exists a: string, b: string :: a != b && Truncate(a) == Truncate(b)
  {
    var a := seq(50, _ => 'x') + "1";
    var b := seq(50, _ => 'x') + "2";
    assert a[50] != b[50];
    assert a[..50] == b[..50];
    assert Truncate(a) == Truncate(b);
  }
}
