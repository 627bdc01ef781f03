/** Bounded FIFO history windows: the value behaviour of a `deque` created with
    a maximum length, as the detector uses for its raw-value and EMA windows. */
module Windows {

  function Min(a: nat, b: nat): nat { if a <= b then a else b }

  /** The most recent `k` entries of `s` (all of `s` when it is shorter), in arrival order. */
  function Last<T>(s: seq<T>, k: nat): (r: seq<T>)
    ensures |r| == Min(|s|, k)
  {
    if |s| <= k then s else s[|s| - k..]
  }

  /** The window is a suffix of the arrivals. */
  lemma LastIsSuffix<T>(s: seq<T>, k: nat)
    ensures Last(s, k) == s[|s| - |Last(s, k)|..]
  {
  }

  /** Appending to a bounded deque: once it holds `capacity` entries, the
      oldest one is evicted to make room for the new one. */
  function Append<T>(w: seq<T>, x: T, capacity: nat): (r: seq<T>)
    requires 0 < capacity && |w| <= capacity
    ensures |r| == Min(|w| + 1, capacity)
    ensures r[|r| - 1] == x
  {
    if |w| == capacity then w[1..] + [x] else w + [x]
  }

  /** A window that holds the last `k` arrivals still holds the last `k`
      arrivals after one more append: eviction is FIFO. */
  lemma AppendKeepsLast<T>(s: seq<T>, x: T, k: nat)
    requires 0 < k
    ensures Append(Last(s, k), x, k) == Last(s + [x], k)
  {
    var w := Last(s, k);
    var t := s + [x];
    if |s| < k {
      assert w == s;
    } else {
      assert w == s[|s| - k..];
      assert w[1..] + [x] == t[|t| - k..];
    }
  }

  /** The newest entry of a non-empty window is the newest arrival. */
  lemma LastOfLast<T>(s: seq<T>, k: nat)
    requires 0 < k && |s| > 0
    ensures |Last(s, k)| > 0 && Last(s, k)[|Last(s, k)| - 1] == s[|s| - 1]
  {
  }
}
