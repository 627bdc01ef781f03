/** The seasonal detector: a point is compared with the mean of the window
    entries that share the current phase of the cycle, against three standard
    deviations of the whole window. It only reads the raw-value window. */
module Seasonal {
  import opened Stats

  /** Python's `range(start, stop, step)` for a positive step. */
  function Range(start: nat, stop: nat, step: nat): (r: seq<nat>)
    requires 0 < step
    ensures forall k | 0 <= k < |r| :: start <= r[k] < stop
    decreases stop - start
  {
    if start >= stop then [] else [start] + Range(start + step, stop, step)
  }

  /** `n % L` is `n` less a multiple of `L`. */
  lemma ModAsMultiple(n: int, L: int)
    requires 0 < L && 0 <= n
    ensures 0 <= n % L < L
    ensures n == (n / L) * L + n % L
  {
  }

  /** Positions that lie a whole number of steps apart leave the same
      remainder, and positions that differ by less than a step and leave the
      same remainder are equal. */
  lemma SameRemainder(i: nat, j: nat, L: nat)
    requires 0 < L && i <= j
    ensures (j - i) % L == 0 <==> j % L == i % L
  {
    var qi, qj, qd := i / L, j / L, (j - i) / L;
    ModAsMultiple(i, L);
    ModAsMultiple(j, L);
    ModAsMultiple(j - i, L);
    if (j - i) % L == 0 {
      assert j == (qi + qd) * L + i % L;
      UniqueRemainder(j, qi + qd, i % L, L);
    }
    if j % L == i % L {
      assert j - i == (qj - qi) * L;
      UniqueRemainder(j - i, qj - qi, 0, L);
    }
  }

  /** Division with remainder is unique. */
  lemma UniqueRemainder(n: int, q: int, r: int, L: int)
    requires 0 < L && 0 <= n && 0 <= r < L && n == q * L + r
    ensures n % L == r
  {
    var d := q - n / L;
    assert d * L == n % L - r;
    assert -L < d * L < L;
    assert d == 0;
  }

  /** Taking one step off a distance does not change whether it is a whole
      number of steps. */
  lemma StepOff(d: int, L: int)
    requires 0 < L <= d
    ensures (d - L) % L == 0 <==> d % L == 0
  {
    ModAsMultiple(d, L);
    ModAsMultiple(d - L, L);
    UniqueRemainder(d, (d - L) / L + 1, (d - L) % L, L);
  }

  /** How the distance from `start` to `j` behaves when `start` moves one
      step forward. */
  lemma DistanceStep(start: nat, j: nat, step: nat)
    requires 0 < step
    ensures start + step <= j ==> ((j - (start + step)) % step == 0 <==> (j - start) % step == 0)
    ensures start < j < start + step ==> (j - start) % step != 0
  {
    if start + step <= j {
      StepOff(j - start, step);
    } else if start < j {
      UniqueRemainder(j - start, 0, j - start, step);
    }
  }

  /** The members of a range are exactly the positions in `[start, stop)` a
      whole number of steps from `start`. */
  lemma {:induction false} RangeMembers(start: nat, stop: nat, step: nat, j: nat)
    requires 0 < step
    ensures j in Range(start, stop, step) <==> start <= j < stop && (j - start) % step == 0
    decreases stop - start
  {
    if start < stop {
      var rest := Range(start + step, stop, step);
      assert Range(start, stop, step) == [start] + rest;
      RangeMembers(start + step, stop, step, j);
      DistanceStep(start, j, step);
    }
  }

  lemma {:induction false} RangeIncreasing(start: nat, stop: nat, step: nat)
    requires 0 < step
    ensures forall k, m | 0 <= k < m < |Range(start, stop, step)| ::
      Range(start, stop, step)[k] < Range(start, stop, step)[m]
    decreases stop - start
  {
    if start < stop {
      RangeIncreasing(start + step, stop, step);
    }
  }

  /** `seasonal_index`: the phase of the next point within the cycle, taken
      from the current length of the window. */
  function Phase(n: nat, seasonLength: nat): (p: nat)
    requires 0 < seasonLength
    ensures p < seasonLength
  {
    n % seasonLength
  }

  /** The window positions averaged for the seasonal baseline. */
  function PhasePositions(n: nat, seasonLength: nat): seq<nat>
    requires 0 < seasonLength
  {
    Range(Phase(n, seasonLength), n, seasonLength)
  }

  /** The entries of the window at those positions. */
  function PhaseSamples(w: seq<real>, seasonLength: nat): (r: seq<real>)
    requires 0 < seasonLength
    ensures |r| == |PhasePositions(|w|, seasonLength)|
    ensures forall k | 0 <= k < |r| :: r[k] == w[PhasePositions(|w|, seasonLength)[k]]
  {
    var positions := PhasePositions(|w|, seasonLength);
    seq(|positions|, k requires 0 <= k < |positions| => w[positions[k]])
  }

  /** The averaged positions are exactly those `i` in `[phase, n)` with
      `i % L == phase`. */
  lemma PhasePositionsExactly(n: nat, seasonLength: nat, i: nat)
    requires 0 < seasonLength
    ensures i in PhasePositions(n, seasonLength) <==>
      Phase(n, seasonLength) <= i < n && i % seasonLength == Phase(n, seasonLength)
  {
    var p := Phase(n, seasonLength);
    RangeMembers(p, n, seasonLength, i);
    if p <= i {
      SameRemainder(p, i, seasonLength);
      UniqueRemainder(p, 0, p, seasonLength);
    }
  }

  /** Once the window holds a full cycle there is at least one position to
      average: the phase is below the season length, hence below the length. */
  lemma PhasePositionsNonEmpty(n: nat, seasonLength: nat)
    requires 0 < seasonLength <= n
    ensures |PhasePositions(n, seasonLength)| > 0
  {
    var p := Phase(n, seasonLength);
    assert PhasePositions(n, seasonLength) == [p] + Range(p + seasonLength, n, seasonLength);
  }

  /** `detect_anomaly_seasonality` on the window `w` it reads (which already
      holds the current point) and the current point `x`. */
  function Anomalous(w: seq<real>, x: real, seasonLength: nat): (fired: bool)
    requires 0 < seasonLength
    ensures |w| < seasonLength ==> !fired
  {
    if |w| < seasonLength then false
    else
      var samples := PhaseSamples(w, seasonLength);
      PhasePositionsNonEmpty(|w|, seasonLength);
      BeyondThreeSigma(x - Mean(samples), w)
  }

  /** On a window whose entries all equal the current point, the seasonal
      detector does not fire. */
  lemma QuietOnConstant(w: seq<real>, c: real, seasonLength: nat)
    requires 0 < seasonLength
    ensures (forall i | 0 <= i < |w| :: w[i] == c) ==> !Anomalous(w, c, seasonLength)
  {
    if seasonLength <= |w| && forall i | 0 <= i < |w| :: w[i] == c {
      var samples := PhaseSamples(w, seasonLength);
      ConstantMeanAndVariance(samples, c);
    }
  }
}
