/** The frame step of `pub.animate` and of `pub.smoothScroll`. Times and
    style values are exact reals; the frame clock is a parameter. */
module SvxAnimation {
  import opened JsCore

  /** The easing curves: `ease-in`, `ease-out`, `ease-in-out`; every other
      name, the default `'ease'` included, is linear. */
  function Ease(easing: string, t: real): real
  {
    if easing == "ease-in" then t * t
    else if easing == "ease-out" then 1.0 - (1.0 - t) * (1.0 - t)
    else if easing == "ease-in-out" then
      (if t < 0.5 then 2.0 * t * t else 1.0 - (-2.0 * t + 2.0) * (-2.0 * t + 2.0) / 2.0)
    else t
  }

  /** Every curve starts at 0, ends at 1 and stays within [0, 1] in between. */
  lemma EaseRange(easing: string, t: real)
    requires 0.0 <= t <= 1.0
    ensures Ease(easing, 0.0) == 0.0 && Ease(easing, 1.0) == 1.0
    ensures 0.0 <= Ease(easing, t) <= 1.0
  {
    if easing == "ease-in" {
      assert t * t <= t * 1.0;
    } else if easing == "ease-out" {
      assert (1.0 - t) * (1.0 - t) <= (1.0 - t) * 1.0;
    } else if easing == "ease-in-out" {
      if t < 0.5 {
        assert t * t <= t * 0.5;
      } else {
        var u := -2.0 * t + 2.0;
        assert 0.0 <= u <= 1.0;
        assert u * u <= u * 1.0;
      }
    }
  }

  lemma SquareMonotone(s: real, t: real)
    requires 0.0 <= s <= t
    ensures s * s <= t * t
  {
    assert s * s <= s * t;
    assert s * t <= t * t;
  }

  /** Every curve is non-decreasing on [0, 1]. */
  lemma EaseMonotone(easing: string, s: real, t: real)
    requires 0.0 <= s <= t <= 1.0
    ensures Ease(easing, s) <= Ease(easing, t)
  {
    if easing == "ease-in" {
      SquareMonotone(s, t);
    } else if easing == "ease-out" {
      SquareMonotone(1.0 - t, 1.0 - s);
    } else if easing == "ease-in-out" {
      if t < 0.5 {
        SquareMonotone(s, t);
      } else if 0.5 <= s {
        SquareMonotone(-2.0 * t + 2.0, -2.0 * s + 2.0);
      } else {
        SquareMonotone(s, 0.5);
        SquareMonotone(-2.0 * t + 2.0, 1.0);
      }
    }
  }

  /** The two `ease-in-out` branches meet at one half. */
  lemma EaseInOutJoins()
    ensures 2.0 * 0.5 * 0.5 == 1.0 - (-2.0 * 0.5 + 2.0) * (-2.0 * 0.5 + 2.0) / 2.0 == 0.5
    ensures Ease("ease-in-out", 0.5) == 0.5
  {
  }

  /** `Math.min(elapsed / duration, 1)`: capped above only. */
  function Progress(elapsed: real, duration: real): (p: real)
    requires duration > 0.0
    ensures p <= 1.0
    ensures elapsed >= 0.0 ==> 0.0 <= p
    ensures p == 1.0 <==> elapsed >= duration
    ensures p < 0.0 <==> elapsed < 0.0
  {
    var q := elapsed / duration;
    if q < 1.0 then q else 1.0
  }

  /** How a property is written: `opacity` as a bare number, every other
      property with a `px` suffix. */
  datatype StyleValue = Unitless(v: real) | Px(v: real) | Keyword(k: string)

  function Styled(prop: string, v: real): (s: StyleValue)
    ensures prop == "opacity" <==> s.Unitless?
    ensures s.Unitless? || s.Px?
    ensures s.v == v
  {
    if prop == "opacity" then Unitless(v) else Px(v)
  }

  /** One animated property: its name, its start value and its end value. */
  datatype Track = Track(prop: string, from: real, to: real)

  /** `parseFloat(computedStyle[prop]) || 0`: an unparsable style (NaN) or 0 starts at 0. */
  function StartValue(parsed: Option<real>): real
  {
    if parsed.Some? then parsed.value else 0.0
  }

  /** The set-up of `pub.animate`: one track per key of `properties`, in key
      order, each starting where the computed style says. */
  function Tracks(props: seq<(string, real)>, computed: map<string, Option<real>>): (ts: seq<Track>)
    ensures |ts| == |props|
    ensures forall i :: 0 <= i < |props| ==>
              ts[i].prop == props[i].0 && ts[i].to == props[i].1 &&
              ts[i].from == (if props[i].0 in computed then StartValue(computed[props[i].0]) else 0.0)
  {
    if props == [] then []
    else
      var p := props[0].0;
      [Track(p, if p in computed then StartValue(computed[p]) else 0.0, props[0].1)]
      + Tracks(props[1..], computed)
  }

  /** What one call of `animateFrame` does: the style writes, in property
      order, and whether it asks for another frame. */
  datatype FrameResult = FrameResult(writes: seq<(string, StyleValue)>, again: bool)

  /** `from + (to - from) * eased`. */
  function Interpolate(t: Track, eased: real): real
  {
    t.from + (t.to - t.from) * eased
  }

  function WritesAt(tracks: seq<Track>, eased: real): (ws: seq<(string, StyleValue)>)
    ensures |ws| == |tracks|
    ensures forall i :: 0 <= i < |tracks| ==>
              ws[i].0 == tracks[i].prop && ws[i].1 == Styled(tracks[i].prop, Interpolate(tracks[i], eased))
  {
    if tracks == [] then [] else
      [(tracks[0].prop, Styled(tracks[0].prop, Interpolate(tracks[0], eased)))] + WritesAt(tracks[1..], eased)
  }

  /** `animateFrame(now)` for an animation started at `startTime`. */
  function Frame(tracks: seq<Track>, easing: string, duration: real, startTime: real, now: real): (r: FrameResult)
    requires duration > 0.0
    ensures |r.writes| == |tracks|
    ensures r.again <==> now - startTime < duration
  {
    var progress := Progress(now - startTime, duration);
    FrameResult(WritesAt(tracks, Ease(easing, progress)), progress < 1.0)
  }

  /** `v` lies between `a` and `b`, in either order. */
  predicate Between(v: real, a: real, b: real)
  {
    (a <= v <= b) || (b <= v <= a)
  }

  lemma InterpolateBetween(t: Track, e: real)
    requires 0.0 <= e <= 1.0
    ensures Between(Interpolate(t, e), t.from, t.to)
  {
    InterpolateMonotone(t, 0.0, e);
    InterpolateMonotone(t, e, 1.0);
    assert Interpolate(t, 0.0) == t.from && Interpolate(t, 1.0) == t.to;
  }

  lemma InterpolateMonotone(t: Track, e1: real, e2: real)
    requires e1 <= e2
    ensures t.from <= t.to ==> Interpolate(t, e1) <= Interpolate(t, e2)
    ensures t.to <= t.from ==> Interpolate(t, e2) <= Interpolate(t, e1)
  {
    var d := t.to - t.from;
    if d >= 0.0 {
      ScaleMonotone(d, e1, e2);
    }
    if d <= 0.0 {
      ScaleMonotone(-d, e1, e2);
      assert d * e1 == -((-d) * e1);
      assert d * e2 == -((-d) * e2);
    }
  }

  /** Scaling by a non-negative factor keeps order. */
  lemma ScaleMonotone(a: real, x: real, y: real)
    requires a >= 0.0 && x <= y
    ensures a * x <= a * y
  {
    assert a * y - a * x == a * (y - x);
  }

  /** From the start time on, every written value lies between its start and
      end value, and once the duration has passed it is the end value and
      no further frame is requested. */
  lemma FrameInRange(tracks: seq<Track>, easing: string, duration: real, startTime: real, now: real)
    requires duration > 0.0 && now >= startTime
    ensures forall i :: 0 <= i < |tracks| ==>
              Between(Frame(tracks, easing, duration, startTime, now).writes[i].1.v, tracks[i].from, tracks[i].to)
    ensures now - startTime >= duration ==>
              !Frame(tracks, easing, duration, startTime, now).again &&
              forall i :: 0 <= i < |tracks| ==> Frame(tracks, easing, duration, startTime, now).writes[i].1.v == tracks[i].to
  {
    var progress := Progress(now - startTime, duration);
    EaseRange(easing, progress);
    forall i | 0 <= i < |tracks|
      ensures Between(Frame(tracks, easing, duration, startTime, now).writes[i].1.v, tracks[i].from, tracks[i].to)
    {
      InterpolateBetween(tracks[i], Ease(easing, progress));
    }
  }

  /** Between two frames from the start time on, each value moves towards its end value. */
  lemma FrameMonotone(tracks: seq<Track>, easing: string, duration: real, startTime: real, t1: real, t2: real, i: nat)
    requires duration > 0.0 && startTime <= t1 <= t2 && i < |tracks|
    ensures var v1 := Frame(tracks, easing, duration, startTime, t1).writes[i].1.v;
            var v2 := Frame(tracks, easing, duration, startTime, t2).writes[i].1.v;
            (tracks[i].from <= tracks[i].to ==> v1 <= v2) && (tracks[i].to <= tracks[i].from ==> v2 <= v1)
  {
    var p1, p2 := Progress(t1 - startTime, duration), Progress(t2 - startTime, duration);
    ProgressMonotone(t1 - startTime, t2 - startTime, duration);
    EaseMonotone(easing, p1, p2);
    InterpolateMonotone(tracks[i], Ease(easing, p1), Ease(easing, p2));
  }

  lemma ProgressMonotone(a: real, b: real, duration: real)
    requires duration > 0.0 && a <= b
    ensures Progress(a, duration) <= Progress(b, duration)
  {
    var q1, q2 := a / duration, b / duration;
    assert q1 * duration == a && q2 * duration == b;
    if q2 < q1 {
      ScaleStrict(duration, q2, q1);
    }
  }

  lemma ScaleStrict(a: real, x: real, y: real)
    requires a > 0.0 && x < y
    ensures a * x < a * y
  {
    assert a * y - a * x == a * (y - x);
  }

  /** `requestAnimationFrame` may hand the first frame a timestamp older than
      the `performance.now()` read at the start, and the progress is only
      capped above: a linear opacity fade from 0 to 1 then writes a negative
      opacity. */
  lemma EarlyFrameOvershoots()
    ensures var r := Frame([Track("opacity", 0.0, 1.0)], "ease", 400.0, 100.0, 90.0);
            r.writes[0].1 == Unitless(-0.025) && !Between(r.writes[0].1.v, 0.0, 1.0)
  {
  }

  /** The progress clamped on both sides. */
  function ClampedProgress(elapsed: real, duration: real): (p: real)
    requires duration > 0.0
    ensures 0.0 <= p <= 1.0
    ensures elapsed >= 0.0 ==> p == Progress(elapsed, duration)
  {
    var p := Progress(elapsed, duration);
    if p < 0.0 then 0.0 else p
  }

  /** The frame step with the progress clamped below as well. */
  function ClampedFrame(tracks: seq<Track>, easing: string, duration: real, startTime: real, now: real): (r: FrameResult)
    requires duration > 0.0
    ensures |r.writes| == |tracks|
    ensures r.again <==> now - startTime < duration
    ensures now >= startTime ==> r == Frame(tracks, easing, duration, startTime, now)
  {
    var progress := ClampedProgress(now - startTime, duration);
    FrameResult(WritesAt(tracks, Ease(easing, progress)), progress < 1.0)
  }

  /** With the clamp every frame, early ones included, stays within range. */
  lemma ClampedFrameInRange(tracks: seq<Track>, easing: string, duration: real, startTime: real, now: real)
    requires duration > 0.0
    ensures forall i :: 0 <= i < |tracks| ==>
              Between(ClampedFrame(tracks, easing, duration, startTime, now).writes[i].1.v, tracks[i].from, tracks[i].to)
  {
    var progress := ClampedProgress(now - startTime, duration);
    EaseRange(easing, progress);
    forall i | 0 <= i < |tracks|
      ensures Between(ClampedFrame(tracks, easing, duration, startTime, now).writes[i].1.v, tracks[i].from, tracks[i].to)
    {
      InterpolateBetween(tracks[i], Ease(easing, progress));
    }
  }

  /** The scroll animation of `pub.smoothScroll`: 800 ms from the current
      position to the target, linear, with the start time taken from the
      first frame. */
  const ScrollDuration: real := 800.0

  class SmoothScroll {
    const startPosition: real
    const distance: real
    /** `startTime`: `null` until the first frame; a time of 0 is falsy and is
        replaced again on the next frame. */
    var startTime: Option<real>

    constructor(startPosition: real, targetPosition: real)
      ensures this.startPosition == startPosition
      ensures this.startPosition + this.distance == targetPosition
      ensures startTime == None
    {
      this.startPosition := startPosition;
      this.distance := targetPosition - startPosition;
      startTime := None;
    }

    /** One call of `animation(now)`: the position scrolled to, and whether
        another frame is requested. */
    method Step(now: real) returns (position: real, again: bool)
      modifies this
      ensures startTime == (if old(startTime) == None || old(startTime) == Some(0.0) then Some(now) else old(startTime))
      ensures position == startPosition + distance * Progress(now - startTime.value, ScrollDuration)
      ensures again <==> now - startTime.value < ScrollDuration
    {
      if startTime == None || startTime == Some(0.0) {
        startTime := Some(now);
      }
      var elapsed := now - startTime.value;
      var progress := Progress(elapsed, ScrollDuration);
      position := startPosition + distance * progress;
      again := elapsed < ScrollDuration;
    }
  }

  /** The scroll position of a frame `elapsed` after the first one: the start
      position at the first frame, the target once 800 ms have passed, and in
      between a point on the way. */
  lemma ScrollPositionRange(startPosition: real, distance: real, elapsed: real)
    requires elapsed >= 0.0
    ensures var pos := startPosition + distance * Progress(elapsed, ScrollDuration);
            Between(pos, startPosition, startPosition + distance) &&
            (elapsed == 0.0 ==> pos == startPosition) &&
            (elapsed >= ScrollDuration ==> pos == startPosition + distance)
  {
    var p := Progress(elapsed, ScrollDuration);
    InterpolateBetween(Track("", startPosition, startPosition + distance), p);
  }
}
