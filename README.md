# Adaptive anomaly detector, modelled in Dafny

This project models `AdaptiveAnomalyDetector`, a streaming anomaly detector. It
takes one real sample at a time and runs three detectors on it, always in the
same order:

1. **EMA.** An exponential moving average is kept in a bounded window of
   smoothed values. Once that window is full, the detector fires when the sample
   lies more than three standard deviations of the window away from the
   current average.
2. **Isolation Forest.** The raw sample is appended to a bounded window of
   raw values. The forest is fitted once, on the first full window, and is
   then asked about every sample.
3. **Seasonal.** The sample is compared with the mean of the raw-window entries
   that share the current phase of the cycle (`len(window) % season_length`).
   The threshold is three standard deviations of the whole raw window.

`detect_anomalies` returns the labels of the detectors that fired, in that
order: `"EMA"`, `"Isolation Forest"`, `"Seasonal"`.

Modules, one file each:

- `Windows` (`windows.dfy`): a `deque(maxlen=k)` as a value. `Last(s, k)` is
  the newest `k` entries of a stream, and `Append` is a bounded append with
  FIFO eviction.
- `Stats` (`stats.dfy`): `np.mean` and the population variance behind
  `np.std`, over exact reals. The three-sigma test is stated on squares,
  `d*d > 9*Variance`, with no square root.
- `Ema` (`ema.dfy`): the whole EMA trajectory of a stream, `Series`. A bounded
  EMA window is the newest part of that trajectory.
- `Seasonal` (`seasonal.dfy`): Python's `range(start, stop, step)`, the phase,
  the positions that are averaged, and the seasonal verdict as a pure function
  of the raw window.
- `Fusion` (`fusion.dfy`): how the three verdicts become the returned list.
- `AnomalyDetection` (`anomaly_detection.dfy`): the class itself. Its fields
  are:
  - the two windows (`dataWindow`, `emaWindow`);
  - the `forestFitted` latch;
  - `trainingSet`, the window the forest was fitted on;
  - ghost histories of the inputs given to the EMA tracker (`emaSeen`) and
    appended to the raw window (`dataSeen`), and a ghost count of fits.

  Its methods keep the invariants `EmaValid` and `ForestValid`:
  - the EMA window is the newest `windowSize` values of the EMA trajectory of
    all inputs;
  - the raw window is the newest `windowSize` inputs;
  - the forest is fitted exactly when `windowSize` inputs have arrived, it was
    fitted once, and it was fitted on the first `windowSize` inputs.

The Isolation Forest's `predict` is a parameter given to the constructor. It is
a function from (contamination, training window, point) to "is outlier". So
`fit` amounts to recording the training window.

## Model

| member | source | states |
|---|---|---|
| `Windows.Last` | anomaly_detection.py:21-22 | a bounded window over a stream holds `min(n, k)` entries |
| `Windows.Append` | anomaly_detection.py:37 | `deque.append` on a bounded deque: the length grows by one up to the capacity, and the new value is the last entry |
| `Windows.AppendKeepsLast` | anomaly_detection.py:21-22 | appending to the window of the newest `k` arrivals gives the window of the newest `k` arrivals of the extended stream (FIFO eviction) |
| `Windows.LastOfLast` | anomaly_detection.py:35 | `window[-1]` of a non-empty bounded window is the newest arrival |
| `Stats.Mean` | anomaly_detection.py:81 | `np.mean`: the sum of the entries divided by their number (characterised by `MeanWithin` and `ConstantMeanAndVariance`) |
| `Stats.MeanWithin` | anomaly_detection.py:81 | the seasonal baseline `np.mean(...)` lies within any bounds on the averaged entries |
| `Stats.Variance` | anomaly_detection.py:50 | the population variance (ddof 0) that `np.std` is the root of, and it is never negative |
| `Stats.BeyondThreeSigma` | anomaly_detection.py:50-51 | the test `abs(d) > 3 * np.std(s)`, on squares; it never holds for a zero deviation (see `ThreeSigmaAgrees` for its agreement with the rooted test) |
| `Stats.ThreeSigmaAgrees` | anomaly_detection.py:50-51 | for any non-negative root `sd` of the variance, `abs(d) > 3*sd` holds exactly when `d*d > 9*variance` |
| `Stats.ConstantMeanAndVariance` | anomaly_detection.py:81-82 | a list whose entries are all `c` has mean `c` and variance 0 |
| `Ema.Next` | anomaly_detection.py:32-35 | the smoothed value for a new input: the input itself on an empty window; otherwise, for `0 <= alpha <= 1`, a value between the input and `ema_window[-1]` |
| `Ema.Series` | anomaly_detection.py:28-38 | the EMA trajectory has one smoothed value per input |
| `Ema.SeriesRecurrence` | anomaly_detection.py:32-35 | the first smoothed value is the first input; each later one is `alpha*x + (1-alpha)*previous` |
| `Ema.NextOnWindow` | anomaly_detection.py:35 | the next EMA computed from the bounded window equals the one computed from the whole trajectory |
| `Ema.WindowStep` | anomaly_detection.py:32-37 | one `update_ema` step takes the newest `k` trajectory values of `xs` to the newest `k` of `xs + [x]` |
| `Ema.SeriesOfConstant` | anomaly_detection.py:33-35 | on a constant stream every smoothed value equals the constant, whatever `alpha` is |
| `Seasonal.Range` | anomaly_detection.py:81 | every element of `range(start, stop, step)` lies in `[start, stop)` |
| `Seasonal.RangeMembers` | anomaly_detection.py:81 | `j` is in `range(start, stop, step)` exactly when `start <= j < stop` and `j - start` is a multiple of `step` |
| `Seasonal.RangeIncreasing` | anomaly_detection.py:81 | the range is strictly increasing, so no position is averaged twice |
| `Seasonal.Phase` | anomaly_detection.py:75 | `seasonal_index` is below `season_length` |
| `Seasonal.PhasePositions` | anomaly_detection.py:81 | the window positions the comprehension visits, `range(seasonal_index, len, season_length)` (characterised by `PhasePositionsExactly`) |
| `Seasonal.PhasePositionsExactly` | anomaly_detection.py:81 | the averaged positions are exactly the `i` in `[seasonal_index, len)` with `i % season_length == seasonal_index` |
| `Seasonal.PhasePositionsNonEmpty` | anomaly_detection.py:75-81 | once the window holds `season_length` entries, at least one position is averaged, so `np.mean` has something to average |
| `Seasonal.Anomalous` | anomaly_detection.py:77-78 | the seasonal verdict is false while the window is shorter than `season_length` |
| `Seasonal.QuietOnConstant` | anomaly_detection.py:81-82 | on a window whose entries all equal the point, the seasonal verdict is false |
| `Fusion.Fused` | anomaly_detection.py:89-103 | the returned list as the source builds it, one conditional append per detector in order; at most three labels, empty exactly when no detector fired |
| `Fusion.FusedLabels` | anomaly_detection.py:89-103 | the returned list names exactly the detectors that fired, once each and in detector order (a subsequence of `AllLabels`, at most 3 long), is empty exactly when none fired, and equals the selection of `AllLabels` by the three verdicts |
| `AnomalyDetection.EmaFires` | anomaly_detection.py:46-51 | the EMA verdict on the updated EMA window; it never fires before the window is full or when the point equals the current EMA |
| `AnomalyDetection.EmaQuietOnConstant` | anomaly_detection.py:50-51 | on a constant stream the EMA verdict is false |
| `AnomalyDetection.ForestStep` | anomaly_detection.py:57-63 | one append, plus the fit on the first full window, keeps the raw-window and fit-once state |
| `AnomalyDetection.AdaptiveAnomalyDetector.constructor` | anomaly_detection.py:8-26 | the parameters are stored, both windows start empty, the forest starts unfitted, and the invariant holds |
| `AnomalyDetection.AdaptiveAnomalyDetector.UpdateEma` | anomaly_detection.py:28-38 | the new EMA is the input on an empty window and `alpha*x + (1-alpha)*window[-1]` otherwise; it is appended with eviction, is the window's new last entry, and is the newest value of the trajectory of all inputs |
| `AnomalyDetection.AdaptiveAnomalyDetector.DetectAnomalyEma` | anomaly_detection.py:40-51 | the EMA is updated; the verdict is false while fewer than `window_size` values have arrived and false on a constant stream; otherwise it is the three-sigma test against the whole EMA window |
| `AnomalyDetection.AdaptiveAnomalyDetector.DetectAnomalyIsolationForest` | anomaly_detection.py:53-69 | the point is appended; the forest becomes fitted exactly on the call where the window first reaches `window_size`, on that window, and is never refitted; the answer is false until then and is the forest's prediction afterwards |
| `AnomalyDetection.AdaptiveAnomalyDetector.DetectAnomalySeasonality` | anomaly_detection.py:71-82 | the verdict is false while the raw window is shorter than `season_length` and false when every window entry equals the point |
| `AnomalyDetection.AdaptiveAnomalyDetector.DetectAnomalies` | anomaly_detection.py:84-103 | all three detectors run and each history grows by the point; the result is the fusion of the verdicts read off the new state, with the seasonal verdict taken on the window that already holds the point; an existing fit is never redone |
| `AnomalyDetection.AdaptiveAnomalyDetector.ColdStart` | anomaly_detection.py:44-78 | no label before its detector has enough history; the seasonal label never appears when `season_length > window_size` |
| `AnomalyDetection.AdaptiveAnomalyDetector.QuietOnConstant` | anomaly_detection.py:50-82 | a point equal to every earlier input raises neither the EMA nor the seasonal label |
| `AnomalyDetection.AdaptiveAnomalyDetector.WindowContents` | anomaly_detection.py:21-22 | both windows hold `min(n, window_size)` entries; the raw window holds the newest inputs in arrival order |
| `AnomalyDetection.AdaptiveAnomalyDetector.FitOnce` | anomaly_detection.py:60-63 | `fit` has run at most once, exactly when the forest is fitted, and it ran on the first `window_size` inputs |
| `AnomalyDetection.AdaptiveAnomalyDetector.PhaseFrozen` | anomaly_detection.py:75 | once the raw window is full, `seasonal_index` stays at `window_size % season_length` |

## Left out

- Floating point: samples and statistics are exact reals. No IEEE-754 rounding, NaN or infinity is modelled.
- Square root: `np.std` is never computed. The three-sigma tests compare squared deviation with nine times the population variance. `Stats.ThreeSigmaAgrees` shows this agrees with the test on the root.
- The inside of scikit-learn's `IsolationForest`: building the trees, its randomness and its scoring. `fit` records the training window. `predict(...) == -1` is a function of (contamination, training window, point) given to the constructor.
- Default argument values of `__init__` (100, 0.3, 0.01, 50): the constructor takes every parameter explicitly. `window_size > 0` and `season_length > 0` are its preconditions; the code does not check them. Typing both as `nat` excludes the negative values, which the code treats inconsistently: a negative `window_size` fails in `deque(maxlen=...)`, while a negative `season_length` passes `%` and `range` and makes the seasonal verdict always false. A zero `season_length` fails at `len % 0` (line 75); a zero `window_size` makes both deques drop every append and the first fit run on an empty array (line 62). The model does not cover these failures.
- Reshaping the window into an `n x 1` array for scikit-learn: it is not modelled.
- `visualizer.py` (interactive plotting): not part of this model.
- `data_stream.py` (a random, clock-driven sample generator): not part of this model.
- `run.py` (driver and printing): not part of this model.
- Per-detector scores, periodic drift refits, thresholds over a recent sub-window, normalisation before fitting and input validation: the code has none of these, so neither does the model. In particular:
  - the EMA threshold is taken over the whole EMA window;
  - the forest is fitted once and never refitted;
  - the second label is `"Isolation Forest"`.
