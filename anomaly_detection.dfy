/** The adaptive anomaly detector: three detectors (EMA deviation, Isolation
    Forest, seasonal deviation) over two bounded windows, run in a fixed
    order on every sample. */
module AnomalyDetection {
  import opened Windows
  import Ema
  import Stats
  import Seasonal
  import Fusion

  /** The fitted Isolation Forest's answer to "is `predict([[x]])` equal to -1",
      as a function of the contamination it was built with, the window it was
      fitted on and the point `x`. */
  type OutlierModel = (real, seq<real>, real) -> bool

  /** The EMA detector's verdict, given the EMA window after the update (its
      newest entry is the current EMA), the current point and the window size. */
  predicate EmaFires(emaWindow: seq<real>, x: real, windowSize: nat): (fired: bool)
    requires |emaWindow| > 0
    ensures fired ==> |emaWindow| >= windowSize && x != emaWindow[|emaWindow| - 1]
  {
    |emaWindow| >= windowSize && Stats.BeyondThreeSigma(x - emaWindow[|emaWindow| - 1], emaWindow)
  }

  /** On a full window, the verdict compares the point with the current EMA. */
  lemma EmaFiresOnFullWindow(emaWindow: seq<real>, x: real, ema: real, windowSize: nat)
    requires |emaWindow| > 0 && ema == emaWindow[|emaWindow| - 1] && |emaWindow| >= windowSize
    ensures EmaFires(emaWindow, x, windowSize) == Stats.BeyondThreeSigma(x - ema, emaWindow)
  {
  }

  /** EMA on a constant stream never fires: every smoothed value equals the
      input, so the point does not deviate from the EMA at all. */
  lemma EmaQuietOnConstant(xs: seq<real>, alpha: real, windowSize: nat)
    requires 0 < windowSize && |xs| > 0
    ensures (forall i | 0 <= i < |xs| :: xs[i] == xs[|xs| - 1]) ==>
      !EmaFires(Last(Ema.Series(xs, alpha), windowSize), xs[|xs| - 1], windowSize)
  {
    var c := xs[|xs| - 1];
    if forall i | 0 <= i < |xs| :: xs[i] == c {
      var series := Ema.Series(xs, alpha);
      Ema.SeriesOfConstant(xs, c, alpha);
      LastOfLast(series, windowSize);
      var w := Last(series, windowSize);
      assert w[|w| - 1] == c;
    }
  }

  /** The raw-value window and the Isolation Forest after the values `seen`
      have arrived: the window holds the newest `windowSize` of them, and the
      forest has been fitted, exactly once, on the first `windowSize` of them
      as soon as that many have arrived. */
  ghost predicate ForestState(seen: seq<real>, window: seq<real>, fitted: bool, training: seq<real>,
                              fits: nat, windowSize: nat)
  {
    && 0 < windowSize
    && window == Last(seen, windowSize)
    && (fitted <==> |seen| >= windowSize)
    && (fitted ==> training == seen[..windowSize])
    && fits == (if fitted then 1 else 0)
  }

  /** One step of `detect_anomaly_isolation_forest` keeps that state: append
      the point, then fit on the window if it has just become full and the
      forest is not fitted yet. */
  lemma ForestStep(seen: seq<real>, window: seq<real>, fitted: bool, training: seq<real>, fits: nat,
                   windowSize: nat, x: real,
                   window': seq<real>, fitted': bool, training': seq<real>, fits': nat)
    requires ForestState(seen, window, fitted, training, fits, windowSize)
    requires window' == Append(window, x, windowSize)
    requires fitted' == (fitted || |window'| == windowSize)
    requires training' == if !fitted && fitted' then window' else training
    requires fits' == if !fitted && fitted' then fits + 1 else fits
    ensures ForestState(seen + [x], window', fitted', training', fits', windowSize)
  {
    AppendKeepsLast(seen, x, windowSize);
    if fitted {
      assert (seen + [x])[..windowSize] == seen[..windowSize];
    } else if fitted' {
      assert window' == (seen + [x])[..windowSize];
    }
  }

  class AdaptiveAnomalyDetector {
    const windowSize: nat
    const alpha: real
    const seasonLength: nat
    const contamination: real
    const predictOutlier: OutlierModel

    /** The raw-value window, read by the Isolation Forest and the seasonal detector. */
    var dataWindow: seq<real>
    /** The window of smoothed values. */
    var emaWindow: seq<real>
    var forestFitted: bool
    /** What the Isolation Forest was fitted on (meaningful once `forestFitted`). */
    var trainingSet: seq<real>

    /** Every value appended to the raw-value window, in arrival order. */
    ghost var dataSeen: seq<real>
    /** Every value given to the EMA tracker, in arrival order. */
    ghost var emaSeen: seq<real>
    /** How many times the Isolation Forest was fitted. */
    ghost var fitCalls: nat

    /** The EMA window holds the newest `windowSize` values of the EMA
        trajectory of everything the tracker was given. */
    ghost predicate EmaValid()
      reads this`emaWindow, this`emaSeen
    {
      0 < windowSize && emaWindow == Last(Ema.Series(emaSeen, alpha), windowSize)
    }

    /** See ForestState. */
    ghost predicate ForestValid()
      reads this`dataWindow, this`dataSeen, this`forestFitted, this`trainingSet, this`fitCalls
    {
      ForestState(dataSeen, dataWindow, forestFitted, trainingSet, fitCalls, windowSize)
    }

    ghost predicate Valid()
      reads this
    {
      0 < seasonLength && EmaValid() && ForestValid()
    }

    constructor (windowSize: nat, alpha: real, contamination: real, seasonLength: nat, predictOutlier: OutlierModel)
      requires 0 < windowSize && 0 < seasonLength
      ensures Valid()
      ensures this.windowSize == windowSize && this.alpha == alpha && this.seasonLength == seasonLength
      ensures this.contamination == contamination && this.predictOutlier == predictOutlier
      ensures dataWindow == [] && emaWindow == [] && !forestFitted
      ensures dataSeen == [] && emaSeen == [] && fitCalls == 0
    {
      this.windowSize := windowSize;
      this.alpha := alpha;
      this.seasonLength := seasonLength;
      this.contamination := contamination;
      this.predictOutlier := predictOutlier;
      dataWindow, emaWindow := [], [];
      forestFitted, trainingSet := false, [];
      dataSeen, emaSeen, fitCalls := [], [], 0;
    }

    /** Seeds the EMA with the first value, blends every later one in, and
        appends the new EMA to its window. */
    method UpdateEma(x: real) returns (ema: real)
      requires EmaValid()
      modifies this`emaWindow, this`emaSeen
      ensures EmaValid()
      ensures emaSeen == old(emaSeen) + [x]
      ensures ema == Ema.Next(old(emaWindow), x, alpha)
      ensures emaWindow == Append(old(emaWindow), ema, windowSize)
      ensures |emaWindow| > 0 && ema == emaWindow[|emaWindow| - 1]
      ensures ema == Ema.Series(emaSeen, alpha)[|emaSeen| - 1]
    {
      if |emaWindow| == 0 {
        ema := x;
      } else {
        ema := alpha * x + (1.0 - alpha) * emaWindow[|emaWindow| - 1];
      }
      assert ema == Ema.Next(emaWindow, x, alpha);
      Ema.WindowStep(emaSeen, emaWindow, x, alpha, windowSize);
      LastOfLast(Ema.Series(emaSeen + [x], alpha), windowSize);
      emaWindow := Append(emaWindow, ema, windowSize);
      emaSeen := emaSeen + [x];
    }

    /** The EMA detector: cold until the EMA window is full, then fires when
        the point lies more than three standard deviations of the whole EMA
        window away from the current EMA. */
    method DetectAnomalyEma(x: real) returns (anomaly: bool)
      requires EmaValid()
      modifies this`emaWindow, this`emaSeen
      ensures EmaValid()
      ensures emaSeen == old(emaSeen) + [x]
      ensures |emaWindow| > 0 && anomaly == EmaFires(emaWindow, x, windowSize)
      ensures |emaSeen| < windowSize ==> !anomaly
      ensures (forall i | 0 <= i < |emaSeen| :: emaSeen[i] == x) ==> !anomaly
    {
      var ema := UpdateEma(x);
      EmaQuietOnConstant(emaSeen, alpha, windowSize);
      if |emaWindow| < windowSize {
        return false;
      }
      anomaly := Stats.BeyondThreeSigma(x - ema, emaWindow);
      EmaFiresOnFullWindow(emaWindow, x, ema, windowSize);
    }

    /** The Isolation Forest detector: appends the point to the raw-value
        window, fits the forest the first time that window is full (and
        never again), and from then on asks the fitted forest. */
    method DetectAnomalyIsolationForest(x: real) returns (anomaly: bool)
      requires ForestValid()
      modifies this`dataWindow, this`dataSeen, this`forestFitted, this`trainingSet, this`fitCalls
      ensures ForestValid()
      ensures dataSeen == old(dataSeen) + [x]
      ensures dataWindow == Append(old(dataWindow), x, windowSize)
      ensures forestFitted == (old(forestFitted) || |dataWindow| == windowSize)
      ensures forestFitted <==> |dataSeen| >= windowSize
      ensures old(forestFitted) ==> trainingSet == old(trainingSet) && fitCalls == old(fitCalls)
      ensures !old(forestFitted) && forestFitted ==> trainingSet == dataWindow && fitCalls == old(fitCalls) + 1
      ensures !forestFitted ==> trainingSet == old(trainingSet) && fitCalls == old(fitCalls)
      ensures anomaly == (forestFitted && predictOutlier(contamination, trainingSet, x))
    {
      var window := Append(dataWindow, x, windowSize);
      var fitted, training := forestFitted, trainingSet;
      ghost var fits := fitCalls;
      if |window| == windowSize {
        if !fitted {
          training, fits, fitted := window, fits + 1, true;
        }
      }
      ForestStep(dataSeen, dataWindow, forestFitted, trainingSet, fitCalls, windowSize, x, window, fitted, training, fits);
      dataWindow, dataSeen, forestFitted, trainingSet, fitCalls := window, dataSeen + [x], fitted, training, fits;
      if forestFitted {
        anomaly := predictOutlier(contamination, trainingSet, x);
      } else {
        anomaly := false;
      }
    }

    /** The seasonal detector on the current raw-value window. */
    function DetectAnomalySeasonality(x: real): (fired: bool)
      reads this`dataWindow
      requires 0 < seasonLength
      ensures |dataWindow| < seasonLength ==> !fired
      ensures (forall i | 0 <= i < |dataWindow| :: dataWindow[i] == x) ==> !fired
    {
      Seasonal.QuietOnConstant(dataWindow, x, seasonLength);
      Seasonal.Anomalous(dataWindow, x, seasonLength)
    }

    /** The labels reported for the point `x` once every detector has
        updated its state for it: the verdict of each detector read off the
        state it leaves behind. */
    ghost function Reported(x: real): seq<string>
      reads this
      requires Valid() && |emaWindow| > 0
    {
      Fusion.Fused(
        EmaFires(emaWindow, x, windowSize),
        forestFitted && predictOutlier(contamination, trainingSet, x),
        Seasonal.Anomalous(dataWindow, x, seasonLength))
    }

    /** Runs the EMA, Isolation Forest and seasonal detectors in this order on
        the point and returns the labels of those that fired. Every detector
        runs, whatever the others decided; the seasonal detector reads the raw
        window after the Isolation Forest step has appended the point. */
    method DetectAnomalies(x: real) returns (anomalies: seq<string>)
      requires Valid()
      modifies this`dataWindow, this`dataSeen, this`forestFitted, this`trainingSet, this`fitCalls
      modifies this`emaWindow, this`emaSeen
      ensures Valid()
      ensures emaSeen == old(emaSeen) + [x] && dataSeen == old(dataSeen) + [x]
      ensures dataWindow == Append(old(dataWindow), x, windowSize)
      ensures emaWindow == Last(Ema.Series(emaSeen, alpha), windowSize) && |emaWindow| > 0
      ensures old(forestFitted) ==> trainingSet == old(trainingSet) && fitCalls == old(fitCalls)
      ensures anomalies == Reported(x)
    {
      var labels: seq<string> := [];
      var emaFired := DetectAnomalyEma(x);
      if emaFired {
        labels := labels + [Fusion.EmaLabel];
      }
      var forestFired := DetectAnomalyIsolationForest(x);
      if forestFired {
        labels := labels + [Fusion.ForestLabel];
      }
      var seasonalFired := DetectAnomalySeasonality(x);
      if seasonalFired {
        labels := labels + [Fusion.SeasonalLabel];
      }
      anomalies := labels;
    }

    /** No detector reports before it has enough history: EMA and the
        Isolation Forest wait for `windowSize` points, the seasonal detector
        for `seasonLength` points in the raw window, which never holds more
        than `windowSize`; so with `seasonLength > windowSize` the seasonal
        detector never reports. */
    lemma ColdStart(x: real)
      requires Valid() && |emaWindow| > 0
      ensures |emaSeen| < windowSize ==> Fusion.EmaLabel !in Reported(x)
      ensures |dataSeen| < windowSize ==> Fusion.ForestLabel !in Reported(x)
      ensures |dataSeen| < seasonLength ==> Fusion.SeasonalLabel !in Reported(x)
      ensures windowSize < seasonLength ==> Fusion.SeasonalLabel !in Reported(x)
    {
      var ema := EmaFires(emaWindow, x, windowSize);
      var forest := forestFitted && predictOutlier(contamination, trainingSet, x);
      var seasonal := Seasonal.Anomalous(dataWindow, x, seasonLength);
      Fusion.FusedLabels(ema, forest, seasonal);
    }

    /** A point equal to everything before it raises neither the EMA nor the
        seasonal label: neither detector sees any deviation. */
    lemma QuietOnConstant(x: real)
      requires Valid() && |emaWindow| > 0
      ensures |emaSeen| > 0 && (forall i | 0 <= i < |emaSeen| :: emaSeen[i] == x) ==>
        Fusion.EmaLabel !in Reported(x)
      ensures (forall i | 0 <= i < |dataWindow| :: dataWindow[i] == x) ==> Fusion.SeasonalLabel !in Reported(x)
    {
      var ema := EmaFires(emaWindow, x, windowSize);
      var forest := forestFitted && predictOutlier(contamination, trainingSet, x);
      var seasonal := Seasonal.Anomalous(dataWindow, x, seasonLength);
      Fusion.FusedLabels(ema, forest, seasonal);
      if |emaSeen| > 0 {
        EmaQuietOnConstant(emaSeen, alpha, windowSize);
      }
      Seasonal.QuietOnConstant(dataWindow, x, seasonLength);
    }

    /** Both windows hold the newest `min(n, windowSize)` entries of what they
        were given, the raw window exactly the newest inputs in arrival order. */
    lemma WindowContents()
      requires Valid()
      ensures |dataWindow| == Min(|dataSeen|, windowSize) && |emaWindow| == Min(|emaSeen|, windowSize)
      ensures dataWindow == dataSeen[|dataSeen| - |dataWindow|..]
    {
      LastIsSuffix(dataSeen, windowSize);
    }

    /** The Isolation Forest is fitted at most once, and when it is, it was
        fitted on the first `windowSize` inputs. */
    lemma FitOnce()
      requires ForestValid()
      ensures fitCalls <= 1 && (fitCalls == 1 <==> forestFitted)
      ensures forestFitted ==> |dataSeen| >= windowSize && trainingSet == dataSeen[..windowSize]
    {
    }

    /** Once the raw window is full its length stays `windowSize`, so the
        seasonal phase `len(data_window) % season_length` no longer moves. */
    lemma PhaseFrozen()
      requires ForestValid() && 0 < seasonLength
      ensures |dataSeen| >= windowSize ==> Seasonal.Phase(|dataWindow|, seasonLength) == windowSize % seasonLength
    {
    }
  }
}
