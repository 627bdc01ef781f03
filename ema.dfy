/** The exponential moving average the EMA detector keeps: the first value
    seeds it, each later value is blended in with weight `alpha`. */
module Ema {
  import opened Windows

  /** The next smoothed value, given the values smoothed so far (any window of
      them whose newest entry is the newest smoothed value). */
  function Next(smoothed: seq<real>, x: real, alpha: real): (ema: real)
    ensures smoothed == [] ==> ema == x
    ensures smoothed != [] && 0.0 <= alpha <= 1.0 ==>
      Between(ema, x, smoothed[|smoothed| - 1])
  {
    if smoothed == [] then x
    else
      var previous := smoothed[|smoothed| - 1];
      BlendBetween(x, previous, alpha);
      alpha * x + (1.0 - alpha) * previous
  }

  /** `v` lies between `a` and `b`, whichever is larger. */
  predicate Between(v: real, a: real, b: real)
  {
    (a <= v <= b) || (b <= v <= a)
  }

  /** A blend with weight in `[0, 1]` lies between the values blended. */
  lemma BlendBetween(x: real, previous: real, alpha: real)
    ensures 0.0 <= alpha <= 1.0 ==> Between(alpha * x + (1.0 - alpha) * previous, x, previous)
  {
    if 0.0 <= alpha <= 1.0 {
      var d := x - previous;
      var step := alpha * d;
      assert alpha * x + (1.0 - alpha) * previous == previous + step;
      var rest := (1.0 - alpha) * d;
      assert step + rest == d;
      if d >= 0.0 {
        assert step >= 0.0 && rest >= 0.0;
      } else {
        assert step <= 0.0 && rest <= 0.0;
      }
    }
  }

  /** The whole EMA trajectory of an input stream: entry i is the smoothed
      value computed on arrival of `xs[i]`. */
  function Series(xs: seq<real>, alpha: real): (r: seq<real>)
    ensures |r| == |xs|
  {
    if xs == [] then []
    else
      var prev := Series(xs[..|xs| - 1], alpha);
      prev + [Next(prev, xs[|xs| - 1], alpha)]
  }

  /** The trajectory point by point: the first smoothed value is the first
      input, and every later one is `alpha * x + (1 - alpha) * previous`. */
  lemma {:induction false} SeriesRecurrence(xs: seq<real>, alpha: real, i: nat)
    requires i < |xs|
    ensures i == 0 ==> Series(xs, alpha)[i] == xs[0]
    ensures 0 < i ==> Series(xs, alpha)[i] == alpha * xs[i] + (1.0 - alpha) * Series(xs, alpha)[i - 1]
  {
    var init := xs[..|xs| - 1];
    var prev := Series(init, alpha);
    assert Series(xs, alpha) == prev + [Next(prev, xs[|xs| - 1], alpha)];
    if i < |xs| - 1 {
      SeriesRecurrence(init, alpha, i);
      assert init[i] == xs[i];
      if i == 0 {
        assert init[0] == xs[0];
      }
    } else if i > 0 {
      assert prev != [];
    }
  }

  /** Extending the stream by one value extends the trajectory by one value
      and leaves the earlier ones alone. */
  lemma SeriesAppend(xs: seq<real>, x: real, alpha: real)
    ensures Series(xs + [x], alpha) == Series(xs, alpha) + [Next(Series(xs, alpha), x, alpha)]
  {
    assert (xs + [x])[..|xs|] == xs;
  }

  /** Smoothing over a bounded window of the trajectory gives the same next
      value as smoothing over the whole trajectory: only the newest entry is read. */
  lemma NextOnWindow(s: seq<real>, x: real, alpha: real, k: nat)
    requires 0 < k
    ensures Next(Last(s, k), x, alpha) == Next(s, x, alpha)
  {
    if s != [] {
      LastOfLast(s, k);
    }
  }

  /** One update of a bounded EMA window: if it held the newest `k` values of
      the trajectory of `xs`, then after appending the next smoothed value it
      holds the newest `k` values of the trajectory of `xs + [x]`. */
  lemma WindowStep(xs: seq<real>, window: seq<real>, x: real, alpha: real, k: nat)
    requires 0 < k && window == Last(Series(xs, alpha), k)
    ensures Append(window, Next(window, x, alpha), k) == Last(Series(xs + [x], alpha), k)
  {
    var series := Series(xs, alpha);
    NextOnWindow(series, x, alpha, k);
    SeriesAppend(xs, x, alpha);
    AppendKeepsLast(series, Next(series, x, alpha), k);
  }

  /** A constant stream has a constant trajectory, whatever `alpha` is. */
  lemma {:induction false} SeriesOfConstant(xs: seq<real>, c: real, alpha: real)
    requires forall i | 0 <= i < |xs| :: xs[i] == c
    ensures forall i | 0 <= i < |xs| :: Series(xs, alpha)[i] == c
  {
    if xs != [] {
      var init := xs[..|xs| - 1];
      SeriesOfConstant(init, c, alpha);
      var prev := Series(init, alpha);
      assert Next(prev, xs[|xs| - 1], alpha) == c by {
        if prev != [] {
          assert prev[|prev| - 1] == c;
          calc {
            alpha * c + (1.0 - alpha) * c;
            (alpha + (1.0 - alpha)) * c;
          }
        }
      }
    }
  }
}
