/** The effects built on `pub.animate`: `fadeIn`, `fadeOut`, `slideDown` and
    `slideUp`, followed from their set-up writes to the style left by the last
    frame. `animate` takes four parameters, so the completion function that
    `fadeOut` and `slideUp` pass as a fifth argument is never called. */
module SvxEffects {
  import opened JsCore
  import opened SvxAnimation

  /** An element's inline style. */
  type Style = map<string, StyleValue>

  /** Performs style writes in order; a later write to a property wins. */
  function Apply(style: Style, writes: seq<(string, StyleValue)>): (r: Style)
    ensures r.Keys == style.Keys + set i | 0 <= i < |writes| :: writes[i].0
    decreases |writes|
  {
    if writes == [] then style else Apply(style[writes[0].0 := writes[0].1], writes[1..])
  }

  lemma {:induction false} ApplyUntouched(style: Style, writes: seq<(string, StyleValue)>, k: string)
    requires forall i :: 0 <= i < |writes| ==> writes[i].0 != k
    ensures k in style ==> k in Apply(style, writes) && Apply(style, writes)[k] == style[k]
    ensures k !in style ==> k !in Apply(style, writes)
    decreases |writes|
  {
    if writes != [] {
      ApplyUntouched(style[writes[0].0 := writes[0].1], writes[1..], k);
    }
  }

  /** A property ends with the value of its last write. */
  lemma {:induction false} ApplyWritten(style: Style, writes: seq<(string, StyleValue)>, i: nat)
    requires i < |writes|
    requires forall j :: i < j < |writes| ==> writes[j].0 != writes[i].0
    ensures writes[i].0 in Apply(style, writes) && Apply(style, writes)[writes[i].0] == writes[i].1
    decreases i
  {
    if i == 0 {
      ApplyUntouched(style[writes[0].0 := writes[0].1], writes[1..], writes[0].0);
    } else {
      ApplyWritten(style[writes[0].0 := writes[0].1], writes[1..], i - 1);
    }
  }

  datatype Effect = FadeIn | FadeOut | SlideDown | SlideUp

  /** The writes an effect makes before it starts the animation. */
  function Setup(effect: Effect, scrollHeight: real): seq<(string, StyleValue)>
  {
    match effect
    case FadeIn => [("opacity", Unitless(0.0)), ("display", Keyword("block"))]
    case FadeOut => []
    case SlideDown => [("display", Keyword("block")), ("height", Px(0.0)), ("overflow", Keyword("hidden"))]
    case SlideUp => [("height", Px(scrollHeight)), ("overflow", Keyword("hidden"))]
  }

  /** The `properties` argument an effect passes to `animate`. */
  function Target(effect: Effect, scrollHeight: real): seq<(string, real)>
  {
    match effect
    case FadeIn => [("opacity", 1.0)]
    case FadeOut => [("opacity", 0.0)]
    case SlideDown => [("height", scrollHeight)]
    case SlideUp => [("height", 0.0)]
  }

  function Easing(effect: Effect): string
  {
    match effect
    case FadeIn => "ease-in"
    case FadeOut => "ease-out"
    case SlideDown => "ease-out"
    case SlideUp => "ease-in"
  }

  /** The writes of the completion function `fadeOut` and `slideUp` hand to `animate`. */
  function Completion(effect: Effect): seq<(string, StyleValue)>
  {
    match effect
    case FadeOut => [("display", Keyword("none"))]
    case SlideUp => [("display", Keyword("none")), ("height", Keyword("")), ("overflow", Keyword(""))]
    case _ => []
  }

  /** The style an effect leaves and the number of times the caller's
      callback runs. */
  datatype Outcome = Outcome(style: Style, callbacks: nat)

  /** The effect as written: set-up writes, then the writes of a frame at or
      after the end of the animation; `computed` stands for the computed
      style the start values are parsed from. */
  function Run(effect: Effect, style: Style, computed: map<string, Option<real>>, scrollHeight: real,
               duration: real, startTime: real, now: real): (o: Outcome)
    requires duration > 0.0 && now - startTime >= duration
    ensures o.callbacks == 0
  {
    var tracks := Tracks(Target(effect, scrollHeight), computed);
    Outcome(Apply(Apply(style, Setup(effect, scrollHeight)),
                  Frame(tracks, Easing(effect), duration, startTime, now).writes), 0)
  }

  /** The effect with the completion function called after the last frame. */
  function RunCompleted(effect: Effect, style: Style, computed: map<string, Option<real>>, scrollHeight: real,
                        duration: real, startTime: real, now: real, hasCallback: bool): (o: Outcome)
    requires duration > 0.0 && now - startTime >= duration
    ensures o.callbacks == if hasCallback && Completion(effect) != [] then 1 else 0
  {
    var done := Run(effect, style, computed, scrollHeight, duration, startTime, now);
    Outcome(Apply(done.style, Completion(effect)), if hasCallback && Completion(effect) != [] then 1 else 0)
  }

  /** The last frame writes the target value of the single animated property. */
  lemma LastFrame(effect: Effect, computed: map<string, Option<real>>, scrollHeight: real,
                  duration: real, startTime: real, now: real)
    requires duration > 0.0 && now - startTime >= duration
    ensures var tracks := Tracks(Target(effect, scrollHeight), computed);
            var w := Frame(tracks, Easing(effect), duration, startTime, now).writes;
            |w| == 1 && w[0].0 == Target(effect, scrollHeight)[0].0 &&
            w[0].1 == Styled(w[0].0, Target(effect, scrollHeight)[0].1)
  {
    var tracks := Tracks(Target(effect, scrollHeight), computed);
    FrameInRange(tracks, Easing(effect), duration, startTime, now);
  }

  /** `fadeIn` ends visible and opaque; `slideDown` ends at the full height. */
  lemma ShowingEffectsEnd(style: Style, computed: map<string, Option<real>>, scrollHeight: real,
                          duration: real, startTime: real, now: real)
    requires duration > 0.0 && now - startTime >= duration
    ensures var s := Run(FadeIn, style, computed, scrollHeight, duration, startTime, now).style;
            "opacity" in s && "display" in s && s["opacity"] == Unitless(1.0) && s["display"] == Keyword("block")
    ensures var s := Run(SlideDown, style, computed, scrollHeight, duration, startTime, now).style;
            "height" in s && "display" in s && "overflow" in s &&
            s["height"] == Px(scrollHeight) && s["display"] == Keyword("block") && s["overflow"] == Keyword("hidden")
  {
    LastFrame(FadeIn, computed, scrollHeight, duration, startTime, now);
    var s1 := Apply(style, Setup(FadeIn, scrollHeight));
    var w1 := Frame(Tracks(Target(FadeIn, scrollHeight), computed), Easing(FadeIn), duration, startTime, now).writes;
    ApplyWritten(style, Setup(FadeIn, scrollHeight), 1);
    ApplyUntouched(s1, w1, "display");
    ApplyWritten(s1, w1, 0);
    LastFrame(SlideDown, computed, scrollHeight, duration, startTime, now);
    var s2 := Apply(style, Setup(SlideDown, scrollHeight));
    var w2 := Frame(Tracks(Target(SlideDown, scrollHeight), computed), Easing(SlideDown), duration, startTime, now).writes;
    ApplyWritten(style, Setup(SlideDown, scrollHeight), 0);
    ApplyWritten(style, Setup(SlideDown, scrollHeight), 2);
    ApplyUntouched(s2, w2, "display");
    ApplyUntouched(s2, w2, "overflow");
    ApplyWritten(s2, w2, 0);
  }

  /** As written, `fadeOut` and `slideUp` never hide the element: once the
      animation is over `display` is what it was before, and the caller's
      callback has not run. */
  lemma HidingEffectsNeverHide(effect: Effect, style: Style, computed: map<string, Option<real>>, scrollHeight: real,
                               duration: real, startTime: real, now: real)
    requires effect == FadeOut || effect == SlideUp
    requires duration > 0.0 && now - startTime >= duration
    ensures var o := Run(effect, style, computed, scrollHeight, duration, startTime, now);
            ("display" in o.style <==> "display" in style) &&
            ("display" in style ==> o.style["display"] == style["display"]) && o.callbacks == 0
  {
    var s1 := Apply(style, Setup(effect, scrollHeight));
    ApplyUntouched(style, Setup(effect, scrollHeight), "display");
    LastFrame(effect, computed, scrollHeight, duration, startTime, now);
    var tracks := Tracks(Target(effect, scrollHeight), computed);
    ApplyUntouched(s1, Frame(tracks, Easing(effect), duration, startTime, now).writes, "display");
  }

  /** With the completion function called, `fadeOut` ends transparent and
      hidden, `slideUp` ends hidden with height and overflow reset, and the
      callback runs once. */
  lemma CompletedHidingEffects(style: Style, computed: map<string, Option<real>>, scrollHeight: real,
                               duration: real, startTime: real, now: real)
    requires duration > 0.0 && now - startTime >= duration
    ensures var o := RunCompleted(FadeOut, style, computed, scrollHeight, duration, startTime, now, true);
            "display" in o.style && "opacity" in o.style &&
            o.style["display"] == Keyword("none") && o.style["opacity"] == Unitless(0.0) && o.callbacks == 1
    ensures var o := RunCompleted(SlideUp, style, computed, scrollHeight, duration, startTime, now, true);
            "display" in o.style && "height" in o.style && "overflow" in o.style &&
            o.style["display"] == Keyword("none") && o.style["height"] == Keyword("") &&
            o.style["overflow"] == Keyword("") && o.callbacks == 1
  {
    CompletedFadeOut(style, computed, scrollHeight, duration, startTime, now);
    CompletedSlideUp(style, computed, scrollHeight, duration, startTime, now);
  }

  lemma CompletedFadeOut(style: Style, computed: map<string, Option<real>>, scrollHeight: real,
                         duration: real, startTime: real, now: real)
    requires duration > 0.0 && now - startTime >= duration
    ensures var o := RunCompleted(FadeOut, style, computed, scrollHeight, duration, startTime, now, true);
            "display" in o.style && "opacity" in o.style &&
            o.style["display"] == Keyword("none") && o.style["opacity"] == Unitless(0.0) && o.callbacks == 1
  {
    LastFrame(FadeOut, computed, scrollHeight, duration, startTime, now);
    var s1 := Run(FadeOut, style, computed, scrollHeight, duration, startTime, now).style;
    var w1 := Frame(Tracks(Target(FadeOut, scrollHeight), computed), Easing(FadeOut), duration, startTime, now).writes;
    ApplyWritten(style, w1, 0);
    ApplyWritten(s1, Completion(FadeOut), 0);
    ApplyUntouched(s1, Completion(FadeOut), "opacity");
  }

  lemma CompletedSlideUp(style: Style, computed: map<string, Option<real>>, scrollHeight: real,
                         duration: real, startTime: real, now: real)
    requires duration > 0.0 && now - startTime >= duration
    ensures var o := RunCompleted(SlideUp, style, computed, scrollHeight, duration, startTime, now, true);
            "display" in o.style && "height" in o.style && "overflow" in o.style &&
            o.style["display"] == Keyword("none") && o.style["height"] == Keyword("") &&
            o.style["overflow"] == Keyword("") && o.callbacks == 1
  {
    var s2 := Run(SlideUp, style, computed, scrollHeight, duration, startTime, now).style;
    ApplyWritten(s2, Completion(SlideUp), 0);
    ApplyWritten(s2, Completion(SlideUp), 1);
    ApplyWritten(s2, Completion(SlideUp), 2);
  }
}
