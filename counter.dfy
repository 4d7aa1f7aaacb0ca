/**
 * The counter animation (`animateCounter`). JavaScript numbers are taken as
 * exact reals; the string formatting of `toFixed` and `Math.floor` is kept
 * abstract as a `Text` carrying the number shown and its decimal places.
 */
module Counter {

  /** Default animation length, in milliseconds. */
  const CounterDuration: real := 2000.0

  /** Milliseconds per animation frame assumed by the step size. */
  const FrameLength: real := 16.0

  /** A rendered counter value: `value` printed with `places` decimals. */
  datatype Text = Text(value: real, places: nat)

  /** JavaScript's `x % 1`: the remainder truncates toward zero, so it keeps the sign of `x`. */
  function JsRemainderOne(x: real): (r: real)
    ensures -1.0 < r < 1.0
    ensures x >= 0.0 ==> r >= 0.0
    ensures x < 0.0 ==> r <= 0.0
    ensures (x - r).Floor as real == x - r
  {
    if x >= 0.0 then
      assert x - (x - x.Floor as real) == x.Floor as real;
      x - x.Floor as real
    else
      assert x - (x + (-x).Floor as real) == (-(-x).Floor) as real;
      x + (-x).Floor as real
  }

  /** `target % 1 !== 0`: the counter is shown with two decimals. */
  predicate IsDecimal(target: real)
  {
    JsRemainderOne(target) != 0.0
  }

  /** The number of decimal places of the final display: two exactly for a non-integer target. */
  function Places(target: real): (r: nat)
    ensures r == 2 <==> target != target.Floor as real
    ensures r == 0 <==> target == target.Floor as real
  {
    IsDecimalIffFractional(target);
    if IsDecimal(target) then 2 else 0
  }

  /**
   * An intermediate frame: a decimal counter shows the accumulator with two
   * decimals, any other shows the largest integer not above it.
   */
  function Shown(start: real, isDecimal: bool): (r: Text)
    ensures r.places == if isDecimal then 2 else 0
    ensures isDecimal ==> r.value == start
    ensures !isDecimal ==> r.value.Floor as real == r.value && r.value <= start < r.value + 1.0
  {
    if isDecimal then Text(start, 2) else Text(start.Floor as real, 0)
  }

  /** The number of frames the duration stands for, `duration / 16`. */
  function Frames(duration: real): real
  {
    duration / FrameLength
  }

  /** The step added per frame, `target / (duration / 16)`: that many steps make up the target. */
  function Increment(target: real, duration: real): (r: real)
    requires duration > 0.0
    ensures r * Frames(duration) == target
  {
    target / Frames(duration)
  }

  /** `IsDecimal` holds exactly when the target has a nonzero fractional part. */
  lemma IsDecimalIffFractional(target: real)
    ensures IsDecimal(target) <==> target != target.Floor as real
  {
    if target < 0.0 {
      var n := (-target).Floor;
      if target == target.Floor as real {
        assert -target == (-target.Floor) as real;
        assert n == -target.Floor;
      }
    }
  }

  /** The step has the sign of the target. */
  lemma StepSign(target: real, d: real, q: real)
    requires d > 0.0 && q * d == target
    ensures target > 0.0 ==> q > 0.0
    ensures target == 0.0 ==> q == 0.0
    ensures target < 0.0 ==> q < 0.0
  {
    if q > 0.0 {
      assert q * d > 0.0;
    } else if q < 0.0 {
      assert (-q) * d > 0.0;
    }
  }

  /** For a positive target, the k-th accumulator is below the target exactly while k is below the frame count. */
  lemma BelowTargetIffEarlyFrame(target: real, d: real, q: real, k: real)
    requires target > 0.0 && d > 0.0 && q * d == target
    ensures k * q < target <==> k < d
  {
    StepSign(target, d, q);
    if k < d {
      assert (d - k) * q > 0.0;
    } else {
      assert (k - d) * q >= 0.0;
    }
  }

  /** For a non-positive target and at least one frame, the first accumulator already reaches the target. */
  lemma FirstFrameReachesNonPositive(target: real, d: real, q: real)
    requires target <= 0.0 && d >= 1.0 && q * d == target
    ensures q >= target
  {
    StepSign(target, d, q);
    assert (-q) * (d - 1.0) >= 0.0;
  }

  /** The accumulator `start` after `n` frames, each adding `step`. */
  function Accumulated(n: nat, step: real): real
  {
    if n == 0 then 0.0 else Accumulated(n - 1, step) + step
  }

  /** Summing the step `n` times gives `n` times the step. */
  lemma {:induction false} AccumulatedIsProduct(n: nat, step: real)
    ensures Accumulated(n, step) == n as real * step
  {
    if n > 0 {
      AccumulatedIsProduct(n - 1, step);
      assert n as real * step == (n - 1) as real * step + step;
    }
  }

  /** With a positive step the accumulator is positive after the first frame and grows every frame. */
  lemma {:induction false} AccumulatedIncreases(step: real, m: nat, n: nat)
    requires step > 0.0 && 1 <= m < n
    ensures 0.0 < Accumulated(m, step) < Accumulated(n, step)
  {
    if n == m + 1 {
      if m > 1 {
        AccumulatedIncreases(step, m - 1, m);
      }
    } else {
      AccumulatedIncreases(step, m, n - 1);
    }
  }

  /** A trace of accumulators of successive frames, with a positive step, is positive and strictly increasing. */
  lemma {:induction false} TraceIncreases(trace: seq<real>, step: real)
    requires step > 0.0
    requires forall k :: 0 <= k < |trace| ==> trace[k] == Accumulated(k + 1, step)
    ensures forall i :: 0 <= i < |trace| ==> 0.0 < trace[i]
    ensures forall i, j :: 0 <= i < j < |trace| ==> trace[i] < trace[j]
  {
    forall i, j | 0 <= i < j < |trace|
      ensures trace[i] < trace[j]
    {
      AccumulatedIncreases(step, i + 1, j + 1);
    }
    forall i | 0 <= i < |trace|
      ensures 0.0 < trace[i]
    {
      AccumulatedIncreases(step, i + 1, i + 2);
    }
  }

  /**
   * What the frame after `n` intermediate frames decides: it writes another
   * intermediate value only for a positive target and while `n + 1` is
   * below the frame count; for a positive target it stops once `n + 1`
   * reaches the frame count.
   */
  lemma FrameDecision(target: real, duration: real, n: nat)
    requires duration > 0.0
    requires target >= 0.0 || duration >= FrameLength
    requires n > 0 ==> target > 0.0
    ensures Accumulated(n + 1, Increment(target, duration)) < target ==>
      target > 0.0 && (n + 1) as real < Frames(duration) && n + 1 <= Frames(duration).Floor
    ensures target > 0.0 && Accumulated(n + 1, Increment(target, duration)) >= target ==>
      Frames(duration) <= (n + 1) as real
    ensures target > 0.0 ==> Increment(target, duration) > 0.0
  {
    var d, q := Frames(duration), Increment(target, duration);
    AccumulatedIsProduct(n + 1, q);
    if target > 0.0 {
      BelowTargetIffEarlyFrame(target, d, q, (n + 1) as real);
    } else if target < 0.0 {
      FirstFrameReachesNonPositive(target, d, q);
    } else {
      StepSign(target, d, q);
    }
  }

  /**
   * A negative target with a duration shorter than one frame: every
   * accumulator stays below the target, so the source's frame loop never
   * stops. The model of the loop excludes this input.
   */
  lemma {:induction false} NegativeTargetShortDurationNeverStops(target: real, duration: real, k: nat)
    requires target < 0.0 && 0.0 < duration < FrameLength
    requires k >= 1
    ensures k as real * Increment(target, duration) < target
  {
    var d := Frames(duration);
    var q := Increment(target, duration);
    assert 0.0 < d < 1.0;
    StepSign(target, d, q);
    assert q < target by {
      assert (-q) * (1.0 - d) > 0.0;
    }
    if k > 1 {
      NegativeTargetShortDurationNeverStops(target, duration, k - 1);
      assert k as real * q == (k - 1) as real * q + q;
    }
  }

  /**
   * The animation, one loop iteration per animation frame. `trace` holds
   * the accumulator of every frame that wrote an intermediate value and
   * `writes` every text written to the element, in order. The frame loop
   * ends for a non-negative target whatever the duration, and for a
   * negative target once the duration is at least one frame long.
   */
  method AnimateCounter(target: real, duration: real) returns (trace: seq<real>, writes: seq<Text>)
    requires duration > 0.0
    requires target >= 0.0 || duration >= FrameLength
    ensures |writes| == |trace| + 1
    ensures writes[|trace|] == Text(target, Places(target))
    ensures forall k :: 0 <= k < |trace| ==> writes[k] == Shown(trace[k], IsDecimal(target))
    ensures forall k :: 0 <= k < |trace| ==> trace[k] == Accumulated(k + 1, Increment(target, duration))
    ensures forall k :: 0 <= k < |trace| ==> trace[k] < target
    ensures target > 0.0 ==> forall i :: 0 <= i < |trace| ==> 0.0 < trace[i]
    ensures target > 0.0 ==> forall i, j :: 0 <= i < j < |trace| ==> trace[i] < trace[j]
    ensures target > 0.0 ==> |trace| as real < Frames(duration) <= (|trace| + 1) as real
    ensures target <= 0.0 ==> trace == []
  {
    var increment := target / (duration / FrameLength);
    var isDecimal := JsRemainderOne(target) != 0.0;
    IsDecimalIffFractional(target);
    ghost var bound := Frames(duration).Floor;
    var start := 0.0;
    trace, writes := [], [];
    var done := false;
    while !done
      invariant increment == Increment(target, duration)
      invariant |writes| == |trace| + (if done then 1 else 0)
      invariant forall k :: 0 <= k < |trace| ==> writes[k] == Shown(trace[k], IsDecimal(target))
      invariant forall k :: 0 <= k < |trace| ==> trace[k] == Accumulated(k + 1, increment)
      invariant forall k :: 0 <= k < |trace| ==> trace[k] < target
      invariant !done ==> start == Accumulated(|trace|, increment)
      invariant target > 0.0 ==> |trace| as real < Frames(duration) || |trace| == 0
      invariant target > 0.0 && done ==> Frames(duration) <= (|trace| + 1) as real
      invariant target <= 0.0 ==> trace == []
      invariant done ==> writes[|trace|] == Text(target, Places(target))
      invariant |trace| <= bound + 1
      decreases (if done then 0 else 1), bound + 1 - |trace|
    {
      FrameDecision(target, duration, |trace|);
      start := start + increment;
      if start < target {
        trace := trace + [start];
        writes := writes + [Shown(start, isDecimal)];
      } else {
        writes := writes + [Text(target, if isDecimal then 2 else 0)];
        done := true;
      }
    }
    if target > 0.0 {
      FrameDecision(target, duration, 0);
      TraceIncreases(trace, increment);
    }
  }

  /**
   * The counter observer's call `animateCounter(element, target)`: the
   * default duration of 2000 ms meets the loop's precondition for every
   * target, and a positive target takes 124 intermediate frames before the
   * exact value is written.
   */
  method AnimateWithDefault(target: real) returns (trace: seq<real>, writes: seq<Text>)
    ensures |writes| == |trace| + 1
    ensures writes[|trace|] == Text(target, Places(target))
    ensures forall k :: 0 <= k < |trace| ==> writes[k] == Shown(trace[k], IsDecimal(target))
    ensures target > 0.0 ==> |trace| == 124
    ensures target <= 0.0 ==> writes == [Text(target, Places(target))]
  {
    trace, writes := AnimateCounter(target, CounterDuration);
    assert Frames(CounterDuration) == 125.0;
  }
}
