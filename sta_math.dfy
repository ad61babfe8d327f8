/** The arithmetic helpers of the StaMina plugin: `sum`, `range` and `clamp`.
    Numbers in `sum` and `clamp` are exact reals; `range` counts in integers. */
module StaMath {
  import opened JsCore

  /** `S.sum(arr)`: `arr.reduce((acc, val) => acc + val, 0)`, a left fold. */
  function Sum(arr: seq<real>): real
  {
    if arr == [] then 0.0 else Sum(arr[..|arr| - 1]) + arr[|arr| - 1]
  }

  /** Summing a concatenation adds the sums of the two parts. */
  lemma {:induction false} SumAppend(a: seq<real>, b: seq<real>)
    ensures Sum(a + b) == Sum(a) + Sum(b)
    decreases |b|
  {
    if b != [] {
      assert (a + b)[..|a + b| - 1] == a + b[..|b| - 1];
      SumAppend(a, b[..|b| - 1]);
    } else {
      assert a + b == a;
    }
  }

  /** Elements bounded by `lo` and `hi` bound the sum by `n * lo` and `n * hi`. */
  lemma {:induction false} SumBounds(arr: seq<real>, lo: real, hi: real)
    requires forall i :: 0 <= i < |arr| ==> lo <= arr[i] <= hi
    ensures |arr| as real * lo <= Sum(arr) <= |arr| as real * hi
  {
    if arr != [] {
      SumBounds(arr[..|arr| - 1], lo, hi);
    }
  }

  /** `S.range(start, end, step)`: pushes `start`, `start + step`, ... while
      the value does not exceed `end`. With a step that is not positive and
      `start <= end` the loop never ends, so that input is excluded. */
  method Range(start: int, end: int, step: int := 1) returns (r: seq<int>)
    requires step > 0 || start > end
    ensures forall k :: 0 <= k < |r| ==> r[k] == start + k * step
    ensures forall k :: 0 <= k < |r| ==> r[k] <= end
    ensures start + |r| * step > end
    ensures |r| == if start <= end then (end - start) / step + 1 else 0
  {
    r := [];
    var i := start;
    while i <= end
      invariant step > 0 || i > end
      invariant r != [] ==> start <= end
      invariant i == start + |r| * step
      invariant forall k :: 0 <= k < |r| ==> r[k] == start + k * step && r[k] <= end
      decreases end - i
    {
      MulSucc(|r|, step);
      r := r + [i];
      i := i + step;
    }
    if start <= end {
      assert r != [] && r[|r| - 1] == start + (|r| - 1) * step;
      RangeCount(end - start, step, |r|);
    }
  }

  /** The excluded inputs: with `step <= 0` and `start <= end`, the value
      after any number `k` of steps still does not exceed `end`, so the
      loop's test never fails. */
  lemma {:induction false} RangeNeverEnds(start: int, end: int, step: int, k: nat)
    requires step <= 0 && start <= end
    ensures start + k * step <= end
  {
    if k > 0 {
      RangeNeverEnds(start, end, step, k - 1);
      MulSucc(k - 1, step);
    }
  }

  /** The count of a range: `n` multiples of `step` reach past `d` while
      `n - 1` do not exactly when `n - 1 == floor(d / step)`. */
  lemma RangeCount(d: nat, step: int, n: int)
    requires step > 0 && n >= 1
    requires (n - 1) * step <= d < n * step
    ensures n == d / step + 1
  {
    var q, m := d / step, d % step;
    assert d == q * step + m && 0 <= m < step;
    if q < n - 1 {
      MulMono(q + 1, n - 1, step);
    } else if q > n - 1 {
      MulMono(n, q, step);
    }
  }

  lemma MulMono(a: int, b: int, c: int)
    requires a <= b && c > 0
    ensures a * c <= b * c
  {
  }

  /** `S.clamp(value, min, max)`: `Math.min(Math.max(value, min), max)`. When
      the bounds are crossed the result is `max`. */
  function Clamp(value: real, min: real, max: real): (r: real)
    ensures min <= max ==> min <= r <= max
    ensures min <= value <= max ==> r == value
    ensures value < min && min <= max ==> r == min
    ensures value > max ==> r == max
    ensures min > max ==> r == max
  {
    var m := if value > min then value else min;
    if m < max then m else max
  }

  /** Clamping twice to the same bounds changes nothing, and clamping keeps order. */
  lemma ClampIdempotentMonotone(a: real, b: real, min: real, max: real)
    ensures Clamp(Clamp(a, min, max), min, max) == Clamp(a, min, max)
    ensures a <= b ==> Clamp(a, min, max) <= Clamp(b, min, max)
  {
  }
}
