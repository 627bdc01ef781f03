/** The statistics the detectors take from numpy, over exact reals: `np.mean`
    and the population variance behind `np.std` (numpy's default, ddof = 0).
    The square root is never taken: "deviation greater than three standard
    deviations" is stated on squares, see ThreeSigmaAgrees. */
module Stats {

  function Abs(x: real): real { if x < 0.0 then -x else x }

  function Sum(s: seq<real>): real
  {
    if s == [] then 0.0 else Sum(s[..|s| - 1]) + s[|s| - 1]
  }

  function Mean(s: seq<real>): real
    requires |s| > 0
  {
    Sum(s) / |s| as real
  }

  /** Sum of the squared distances of the entries of `s` from `m`. */
  function SquaredDeviations(s: seq<real>, m: real): real
  {
    if s == [] then 0.0
    else SquaredDeviations(s[..|s| - 1], m) + (s[|s| - 1] - m) * (s[|s| - 1] - m)
  }

  /** Population variance: the square of `np.std(s)`, so never negative. */
  function Variance(s: seq<real>): (v: real)
    requires |s| > 0
    ensures v >= 0.0
  {
    SquaredDeviationsNonNegative(s, Mean(s));
    SquaredDeviations(s, Mean(s)) / |s| as real
  }

  /** `abs(d) > 3 * np.std(s)`, written without the square root; a point that
      does not deviate at all is never beyond three sigma. */
  predicate BeyondThreeSigma(d: real, s: seq<real>): (beyond: bool)
    requires |s| > 0
    ensures beyond ==> d != 0.0
  {
    d * d > 9.0 * Variance(s)
  }

  lemma {:induction false} SquaredDeviationsNonNegative(s: seq<real>, m: real)
    ensures SquaredDeviations(s, m) >= 0.0
  {
    if s != [] {
      SquaredDeviationsNonNegative(s[..|s| - 1], m);
      var d := s[|s| - 1] - m;
      assert d * d >= 0.0;
    }
  }

  lemma SquaresOrdered(a: real, t: real)
    requires 0.0 <= t < a
    ensures t * t < a * a
  {
    var low, mid, high := t * t, t * a, a * a;
    assert low <= mid;
    assert mid < high;
  }

  /** The square-free test agrees with `abs(d) > 3 * sd` for the standard
      deviation `sd`, the non-negative root of the variance. */
  lemma ThreeSigmaAgrees(d: real, sd: real, s: seq<real>)
    requires |s| > 0 && sd >= 0.0 && sd * sd == Variance(s)
    ensures Abs(d) > 3.0 * sd <==> BeyondThreeSigma(d, s)
  {
    var a, t := Abs(d), 3.0 * sd;
    assert a * a == d * d;
    assert t * t == 9.0 * Variance(s);
    if a > t {
      SquaresOrdered(a, t);
    } else if a < t {
      SquaresOrdered(t, a);
    }
  }

  lemma {:induction false} SumOfConstant(s: seq<real>, c: real)
    requires forall i | 0 <= i < |s| :: s[i] == c
    ensures Sum(s) == |s| as real * c
  {
    if s != [] {
      SumOfConstant(s[..|s| - 1], c);
    }
  }

  lemma {:induction false} SquaredDeviationsOfConstant(s: seq<real>, c: real)
    requires forall i | 0 <= i < |s| :: s[i] == c
    ensures SquaredDeviations(s, c) == 0.0
  {
    if s != [] {
      SquaredDeviationsOfConstant(s[..|s| - 1], c);
    }
  }

  lemma {:induction false} SumWithin(s: seq<real>, lo: real, hi: real)
    requires forall i | 0 <= i < |s| :: lo <= s[i] <= hi
    ensures |s| as real * lo <= Sum(s) <= |s| as real * hi
  {
    if s != [] {
      SumWithin(s[..|s| - 1], lo, hi);
    }
  }

  /** The mean lies within any bounds on the entries. */
  lemma MeanWithin(s: seq<real>, lo: real, hi: real)
    requires |s| > 0
    requires forall i | 0 <= i < |s| :: lo <= s[i] <= hi
    ensures lo <= Mean(s) <= hi
  {
    SumWithin(s, lo, hi);
    var n := |s| as real;
    var m := Mean(s);
    assert Sum(s) == m * n;
  }

  /** A window whose entries are all equal has that value as its mean and
      zero variance (`np.std` of it is 0). */
  lemma ConstantMeanAndVariance(s: seq<real>, c: real)
    requires |s| > 0
    requires forall i | 0 <= i < |s| :: s[i] == c
    ensures Mean(s) == c && Variance(s) == 0.0
  {
    SumOfConstant(s, c);
    SquaredDeviationsOfConstant(s, c);
  }
}
