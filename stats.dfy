/**
 * The statistics computed by the GET /devices/{id}/stats handler of main.go:
 * the earliest and latest heartbeat, the heartbeat density ("uptime") and the
 * average upload time.
 *
 * Timestamps are instants counted in nanoseconds, which is the resolution of
 * Go's time.Time; a span between two of them is a Go time.Duration, a 64-bit
 * count of nanoseconds.
 */
module Stats {

  /** time.Minute: nanoseconds in one minute. */
  const NANOS_PER_MINUTE: int := 60_000_000_000

  /** The largest and smallest time.Duration (int64 nanoseconds). */
  const MAX_DURATION: int := 0x7FFF_FFFF_FFFF_FFFF
  const MIN_DURATION: int := -0x8000_0000_0000_0000

  // ---------------------------------------------------------------------------
  // Reference definitions
  // ---------------------------------------------------------------------------

  /** The smallest element, defined on a prefix the way the scan grows it. */
  function Min(s: seq<int>): int
    requires |s| > 0
    decreases |s|
  {
    if |s| == 1 then s[0]
    else
      var m := Min(s[..|s| - 1]);
      if s[|s| - 1] < m then s[|s| - 1] else m
  }

  /** The largest element, defined on a prefix the way the scan grows it. */
  function Max(s: seq<int>): int
    requires |s| > 0
    decreases |s|
  {
    if |s| == 1 then s[0]
    else
      var m := Max(s[..|s| - 1]);
      if s[|s| - 1] > m then s[|s| - 1] else m
  }

  /** The sum of all elements, as a mathematical integer. */
  function Sum(s: seq<int>): int
    decreases |s|
  {
    if s == [] then 0 else Sum(s[..|s| - 1]) + s[|s| - 1]
  }

  /**
   * Go's integer division by a positive divisor (main.go divides only by a
   * length): the quotient is truncated toward zero, so the remainder
   * a - q * b has the sign of the dividend and is smaller than the divisor
   * (Dafny's own / is Euclidean instead).
   */
  function TruncDiv(a: int, b: int): (q: int)
    requires b > 0
    ensures a >= 0 ==> 0 <= a - q * b < b
    ensures a <= 0 ==> 0 <= q * b - a < b
  {
    if a >= 0 then a / b
    else
      var m := (-a) / b;
      assert (-m) * b == -(m * b);
      -m
  }

  /**
   * time.Time.Sub: the duration t - u, saturated to the range of
   * time.Duration when the exact difference does not fit.
   */
  function Sub(t: int, u: int): (d: int)
    ensures MIN_DURATION <= d <= MAX_DURATION
    ensures MIN_DURATION <= t - u <= MAX_DURATION ==> d == t - u
    ensures (d > 0) == (t - u > 0)
  {
    var exact := t - u;
    if exact > MAX_DURATION then MAX_DURATION
    else if exact < MIN_DURATION then MIN_DURATION
    else exact
  }

  /**
   * Heartbeat density: the number of heartbeats per minute of the span
   * between the earliest and the latest one, times 100; zero when there are
   * no heartbeats or the span is not positive. Go computes this in float64;
   * here it is the exact real value.
   */
  function Uptime(heartbeats: seq<int>): (r: real)
    ensures r >= 0.0
    ensures r == 0.0 <==>
      (|heartbeats| == 0 || forall i | 0 <= i < |heartbeats| :: heartbeats[i] == heartbeats[0])
  {
    if |heartbeats| == 0 then 0.0
    else
      SpanPositiveIff(heartbeats);
      var span := Sub(Max(heartbeats), Min(heartbeats));
      if span > 0 then
        var minutes := span as real / NANOS_PER_MINUTE as real;
        assert minutes > 0.0;
        assert (|heartbeats| as real) / minutes > 0.0;
        (|heartbeats| as real) / minutes * 100.0
      else 0.0
  }

  /**
   * The truncated mean of the upload samples; zero when there are none. It
   * lies between the smallest and the largest sample, negative samples
   * included, and for a non-negative sum it is the Euclidean quotient.
   */
  function Average(samples: seq<int>): (r: int)
    ensures |samples| == 0 ==> r == 0
    ensures |samples| > 0 ==> Min(samples) <= r <= Max(samples)
    ensures |samples| > 0 && Sum(samples) >= 0 ==> r == Sum(samples) / |samples|
  {
    if |samples| == 0 then 0
    else
      MinIsLeast(samples);
      MaxIsGreatest(samples);
      SumBetween(samples, Min(samples), Max(samples));
      TruncDivBetween(Sum(samples), |samples|, Min(samples), Max(samples));
      var q := TruncDiv(Sum(samples), |samples|);
      if Sum(samples) >= 0 then
        TruncDivNonNegative(Sum(samples), |samples|);
        q
      else q
  }

  // ---------------------------------------------------------------------------
  // The loops of getStats
  // ---------------------------------------------------------------------------

  /**
   * The min/max scan over the (unsorted) heartbeats: both start at the first
   * heartbeat, and every heartbeat before `first` or after `last` replaces it.
   */
  method ScanBounds(heartbeats: seq<int>) returns (first: int, last: int)
    requires |heartbeats| > 0
    ensures first == Min(heartbeats) && last == Max(heartbeats)
    ensures first in heartbeats && last in heartbeats
    ensures forall i | 0 <= i < |heartbeats| :: first <= heartbeats[i] <= last
  {
    first, last := heartbeats[0], heartbeats[0];
    for i := 0 to |heartbeats|
      invariant first == Min(heartbeats[..if i == 0 then 1 else i])
      invariant last == Max(heartbeats[..if i == 0 then 1 else i])
    {
      var hb := heartbeats[i];
      if i > 0 {
        assert heartbeats[..i + 1][..i] == heartbeats[..i];
      }
      if hb < first {
        first := hb;
      }
      if hb > last {
        last := hb;
      }
    }
    assert heartbeats[..|heartbeats|] == heartbeats;
    MinIsLeast(heartbeats);
    MaxIsGreatest(heartbeats);
  }

  /** The uptime computation: zero unless there are heartbeats spanning a positive time. */
  method ComputeUptime(heartbeats: seq<int>) returns (uptime: real)
    ensures uptime == Uptime(heartbeats)
  {
    uptime := 0.0;
    if |heartbeats| > 0 {
      var first, last := ScanBounds(heartbeats);
      var minutesBetween := Sub(last, first) as real / NANOS_PER_MINUTE as real;
      if minutesBetween > 0.0 {
        uptime := (|heartbeats| as real) / minutesBetween * 100.0;
      }
    }
  }

  /** The average computation: sum every sample, then divide by the count with Go's `/`. */
  method ComputeAverage(samples: seq<int>) returns (avg: int)
    ensures avg == Average(samples)
  {
    avg := 0;
    if |samples| > 0 {
      var sum := 0;
      for i := 0 to |samples|
        invariant sum == Sum(samples[..i])
      {
        assert samples[..i + 1][..i] == samples[..i];
        sum := sum + samples[i];
      }
      assert samples[..|samples|] == samples;
      avg := TruncDiv(sum, |samples|);
    }
  }

  // ---------------------------------------------------------------------------
  // Properties
  // ---------------------------------------------------------------------------

  /** Min is an element of the sequence and no element is smaller. */
  lemma {:induction false} MinIsLeast(s: seq<int>)
    requires |s| > 0
    ensures Min(s) in s
    ensures forall i | 0 <= i < |s| :: Min(s) <= s[i]
    decreases |s|
  {
    if |s| > 1 {
      var p := s[..|s| - 1];
      MinIsLeast(p);
      assert forall i | 0 <= i < |p| :: p[i] == s[i];
    }
  }

  /** Max is an element of the sequence and no element is larger. */
  lemma {:induction false} MaxIsGreatest(s: seq<int>)
    requires |s| > 0
    ensures Max(s) in s
    ensures forall i | 0 <= i < |s| :: s[i] <= Max(s)
    decreases |s|
  {
    if |s| > 1 {
      var p := s[..|s| - 1];
      MaxIsGreatest(p);
      assert forall i | 0 <= i < |p| :: p[i] == s[i];
    }
  }

  /** Bounds on every element bound the sum by the count times the bounds. */
  lemma {:induction false} SumBetween(s: seq<int>, lo: int, hi: int)
    requires forall i | 0 <= i < |s| :: lo <= s[i] <= hi
    ensures |s| * lo <= Sum(s) <= |s| * hi
    decreases |s|
  {
    if s != [] {
      var p := s[..|s| - 1];
      assert forall i | 0 <= i < |p| :: p[i] == s[i];
      SumBetween(p, lo, hi);
      assert |s| * lo == |p| * lo + lo;
      assert |s| * hi == |p| * hi + hi;
    }
  }

  lemma MulMonotone(x: int, y: int, n: int)
    requires x <= y && n > 0
    ensures x * n <= y * n
  {
    assert y * n - x * n == (y - x) * n;
  }

  lemma MulLessCancel(x: int, y: int, n: int)
    requires n > 0 && x * n < y * n
    ensures x < y
  {
    if x >= y {
      MulMonotone(y, x, n);
    }
  }

  lemma MulAtMostCancel(x: int, y: int, n: int)
    requires n > 0 && x * n <= y * n
    ensures x <= y
  {
    assert (y + 1) * n == y * n + n;
    MulLessCancel(x, y + 1, n);
  }

  /** A truncated quotient of something between n * lo and n * hi lies between lo and hi. */
  lemma TruncDivBetween(a: int, n: int, lo: int, hi: int)
    requires n > 0 && n * lo <= a <= n * hi
    ensures lo <= TruncDiv(a, n) <= hi
  {
    var q := TruncDiv(a, n);
    assert (q + 1) * n == q * n + n;
    assert (q - 1) * n == q * n - n;
    if a >= 0 {
      MulLessCancel(lo, q + 1, n);
      MulAtMostCancel(q, hi, n);
    } else {
      MulAtMostCancel(lo, q, n);
      MulLessCancel(q - 1, hi, n);
    }
  }

  /** For a non-negative dividend, truncating and Euclidean division agree. */
  lemma TruncDivNonNegative(a: int, n: int)
    requires a >= 0 && n > 0
    ensures TruncDiv(a, n) == a / n
  {
    var q, e := TruncDiv(a, n), a / n;
    assert (q + 1) * n == q * n + n;
    assert (e + 1) * n == e * n + n;
    MulLessCancel(q, e + 1, n);
    MulLessCancel(e, q + 1, n);
  }

  /** On negative sums the average rounds up toward zero, unlike Euclidean division. */
  lemma AverageTruncatesTowardZero()
    ensures Average([10, 20, 30]) == 20
    ensures Average([10, 21]) == 15
    ensures Average([-10, -21]) == -15 && (-10 + -21) / 2 == -16
    ensures Average([]) == 0
  {
    assert Sum([10, 20, 30]) == 60 by {
      assert [10, 20, 30][..2] == [10, 20];
      assert [10, 20][..1] == [10];
      assert [10][..0] == [];
    }
    assert Sum([10, 21]) == 31 by {
      assert [10, 21][..1] == [10];
      assert [10][..0] == [];
    }
    assert Sum([-10, -21]) == -31 by {
      assert [-10, -21][..1] == [-10];
      assert [-10][..0] == [];
    }
  }

  /** The saturated span of a non-empty list of instants is positive exactly when two of them differ. */
  lemma SpanPositiveIff(heartbeats: seq<int>)
    requires |heartbeats| > 0
    ensures Sub(Max(heartbeats), Min(heartbeats)) > 0 <==>
      exists i | 0 <= i < |heartbeats| :: heartbeats[i] != heartbeats[0]
  {
    MinIsLeast(heartbeats);
    MaxIsGreatest(heartbeats);
    var lo, hi := Min(heartbeats), Max(heartbeats);
    if hi > lo {
      var i :| 0 <= i < |heartbeats| && heartbeats[i] == lo;
      var j :| 0 <= j < |heartbeats| && heartbeats[j] == hi;
      assert heartbeats[i] != heartbeats[0] || heartbeats[j] != heartbeats[0];
    }
  }

  /** A single heartbeat gives zero uptime. */
  lemma UptimeSingle(t: int)
    ensures Uptime([t]) == 0.0
  {
  }

  /** Uptime is a density, not a percentage of time: three heartbeats within one minute give 300. */
  lemma UptimeCanExceed100()
    ensures Uptime([0, NANOS_PER_MINUTE, NANOS_PER_MINUTE / 2]) == 300.0
  {
    var s := [0, NANOS_PER_MINUTE, NANOS_PER_MINUTE / 2];
    var p := s[..2];
    assert p == [0, NANOS_PER_MINUTE];
    assert p[..1] == [0];
    assert Min(p) == 0 && Max(p) == NANOS_PER_MINUTE;
    assert s[..|s| - 1] == p;
    assert Min(s) == 0 && Max(s) == NANOS_PER_MINUTE;
  }
}
