/**
 * The vector operator== and operator<< the header defines for use as test
 * outputs. Element comparison is Dafny equality on T; element printing is
 * a parameter.
 */
module Vectors {
  import opened Text

  /** Element-wise equality: the same length and equal elements at every index. */
  method VecEqual<T(==)>(a: seq<T>, b: seq<T>) returns (eq: bool)
    ensures eq <==> |a| == |b| && forall i :: 0 <= i < |a| ==> a[i] == b[i]
    ensures eq <==> a == b
  {
    if |a| != |b| {
      return false;
    }
    var i := 0;
    while i < |a|
      invariant 0 <= i <= |a|
      invariant forall k :: 0 <= k < i ==> a[k] == b[k]
    {
      if a[i] != b[i] {
        return false;
      }
      i := i + 1;
    }
    return true;
  }

  /** The printed form of every element, in order. */
  function Shown<T>(v: seq<T>, show: T -> string): (r: seq<string>)
    ensures |r| == |v|
  {
    seq(|v|, i requires 0 <= i < |v| => show(v[i]))
  }

  /**
   * operator<<: "[", every element but the last followed by ",", the last
   * element, "]". The loop bound v.size() - 1 is unsigned, so an empty
   * vector would run it far past the end; v must not be empty.
   */
  method Render<T>(v: seq<T>, show: T -> string) returns (r: string)
    requires |v| > 0
    ensures r == "[" + Join(Shown(v, show), ',') + "]"
  {
    var shown := Shown(v, show);
    r := "[";
    var i := 0;
    while i < |v| - 1
      invariant 0 <= i <= |v| - 1
      invariant r == "[" + (if i == 0 then "" else Join(shown[..i], ',') + ",")
    {
      if i > 0 {
        JoinSnoc(shown[..i], shown[i], ',');
        assert shown[..i] + [shown[i]] == shown[..i + 1];
      }
      r := r + show(v[i]) + ",";
      i := i + 1;
    }
    if |v| > 1 {
      JoinSnoc(shown[..i], shown[i], ',');
      assert shown[..i] + [shown[i]] == shown;
    }
    r := r + show(v[|v| - 1]) + "]";
  }

  /** One more than the largest size_t value on a 64-bit target. */
  const SizeTModulus: nat := 0x1_0000_0000_0000_0000

  /** The loop bound v.size() - 1 as the header computes it, in unsigned arithmetic. */
  function SizeMinusOne(n: nat): nat
    requires n < SizeTModulus
  {
    (n + SizeTModulus - 1) % SizeTModulus
  }

  /** For a non-empty vector the unsigned bound is the ordinary |v| - 1 that Render uses. */
  lemma SizeMinusOneAgrees(n: nat)
    requires 0 < n < SizeTModulus
    ensures SizeMinusOne(n) == n - 1
  {
  }

  /**
   * For an empty vector the bound wraps to the largest size_t value, so the
   * first loop test 0 < bound holds and v[0] is read from a vector with no
   * element.
   */
  lemma EmptyVectorOverruns()
    ensures SizeMinusOne(0) == SizeTModulus - 1
    ensures 0 < SizeMinusOne(0)
  {
  }

  /**
   * The rendering the guard `if (v.size())` shows was meant: "[]" for an
   * empty vector, and what Render gives otherwise.
   */
  method RenderAny<T>(v: seq<T>, show: T -> string) returns (r: string)
    ensures r == "[" + Join(Shown(v, show), ',') + "]"
    ensures |v| == 0 ==> r == "[]"
  {
    if |v| == 0 {
      return "[]";
    }
    r := Render(v, show);
  }

  /**
   * When no element prints with a comma, the rendering can be read back:
   * splitting what lies between the brackets at the commas gives the
   * printed elements again.
   */
  lemma RenderSplitsBack<T>(v: seq<T>, show: T -> string)
    requires |v| > 0
    requires forall i :: 0 <= i < |v| ==> NoneIn(show(v[i]), {','})
    ensures var r := "[" + Join(Shown(v, show), ',') + "]";
      r[0] == '[' && r[|r| - 1] == ']' && Split(r[1..|r| - 1], {','}) == Shown(v, show)
  {
    var shown := Shown(v, show);
    var r := "[" + Join(shown, ',') + "]";
    assert r[1..|r| - 1] == Join(shown, ',');
    SplitJoin(shown, ',');
  }
}
