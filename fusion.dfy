/** How `detect_anomalies` reports its verdicts: the labels of the detectors
    that fired, in the fixed order EMA, Isolation Forest, Seasonal. */
module Fusion {

  const EmaLabel: string := "EMA"
  const ForestLabel: string := "Isolation Forest"
  const SeasonalLabel: string := "Seasonal"

  /** Every label, in the order the detectors run. */
  const AllLabels: seq<string> := [EmaLabel, ForestLabel, SeasonalLabel]

  /** `a` can be obtained from `b` by dropping entries, keeping the order of the rest. */
  predicate IsSubsequence<T(==)>(a: seq<T>, b: seq<T>)
    decreases |b|
  {
    a == [] ||
    (b != [] && (IsSubsequence(a, b[1..]) || (a[0] == b[0] && IsSubsequence(a[1..], b[1..]))))
  }

  predicate NoDuplicates<T(==)>(s: seq<T>)
  {
    forall i, j | 0 <= i < j < |s| :: s[i] != s[j]
  }

  /** The entries of `xs` whose flag in `keep` is set, in their order. */
  function Select<T>(xs: seq<T>, keep: seq<bool>): (r: seq<T>)
    requires |keep| == |xs|
    ensures |r| <= |xs|
    ensures forall x :: x in r ==> x in xs
  {
    if xs == [] then []
    else (if keep[0] then [xs[0]] else []) + Select(xs[1..], keep[1..])
  }

  lemma {:induction false} SelectIsSubsequence<T>(xs: seq<T>, keep: seq<bool>)
    requires |keep| == |xs|
    ensures IsSubsequence(Select(xs, keep), xs)
  {
    if xs != [] {
      var rest := Select(xs[1..], keep[1..]);
      SelectIsSubsequence(xs[1..], keep[1..]);
      if keep[0] {
        assert Select(xs, keep) == [xs[0]] + rest;
        assert ([xs[0]] + rest)[1..] == rest;
      } else {
        assert Select(xs, keep) == rest;
      }
    }
  }

  /** The labels `detect_anomalies` returns for the three verdicts: starting
      from an empty list, each detector's label is appended when it fires. */
  function Fused(ema: bool, forest: bool, seasonal: bool): (labels: seq<string>)
    ensures |labels| <= |AllLabels|
    ensures labels == [] <==> !ema && !forest && !seasonal
  {
    var none: seq<string> := [];
    var afterEma := if ema then none + [EmaLabel] else none;
    var afterForest := if forest then afterEma + [ForestLabel] else afterEma;
    if seasonal then afterForest + [SeasonalLabel] else afterForest
  }

  /** The reported list names exactly the detectors that fired, each once, in
      the order the detectors run; it is empty exactly when none fired. It is
      the selection of `AllLabels` by the three verdicts. */
  lemma FusedLabels(ema: bool, forest: bool, seasonal: bool)
    ensures var labels := Fused(ema, forest, seasonal);
      && labels == Select(AllLabels, [ema, forest, seasonal])
      && (EmaLabel in labels <==> ema)
      && (ForestLabel in labels <==> forest)
      && (SeasonalLabel in labels <==> seasonal)
      && IsSubsequence(labels, AllLabels)
      && NoDuplicates(labels) && |labels| <= |AllLabels|
      && (labels == [] <==> !ema && !forest && !seasonal)
  {
    var keep := [ema, forest, seasonal];
    assert AllLabels[1..] == [ForestLabel, SeasonalLabel] && keep[1..] == [forest, seasonal];
    assert AllLabels[1..][1..] == [SeasonalLabel] && keep[1..][1..] == [seasonal];
    assert Select([SeasonalLabel], [seasonal]) == if seasonal then [SeasonalLabel] else [];
    SelectIsSubsequence(AllLabels, keep);
  }
}
