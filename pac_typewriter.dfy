/** The `type` step of ComPAC's `typewriter`: a machine over the counter
    `i`, the flag `isDeleting` and the shown text `currentText`. The timers
    between steps are left out; a step is one call of `type`, and the
    machine stops when a call returns without scheduling another. The
    pause changes only the delay before the next call, never the state. */
module PacTypewriter {

  /** `text.substring(0, n)`: the end is clamped into `[0, |text|]`. */
  function Substring(text: string, n: int): (r: string)
    ensures |r| <= |text| && r == text[..|r|]
    ensures 0 <= n <= |text| ==> |r| == n
  {
    if n < 0 then [] else if n > |text| then text else text[..n]
  }

  /** `i`, `isDeleting`, `currentText`, and whether the machine stopped. */
  datatype TypeState = TypeState(i: int, deleting: bool, current: string, stopped: bool)

  const Start: TypeState := TypeState(0, false, "", false)

  /** One call of `type`. Deleting drops the last character; once the text
      is empty the machine goes back to typing from the start, and stops
      there unless it loops. Typing shows one more character of the text
      and counts it; once the count passes the length, deleting begins. */
  function Step(text: string, loop: bool, s: TypeState): (r: TypeState)
  {
    if s.deleting then
      var current := Substring(text, |s.current| - 1);
      if current == "" then TypeState(0, false, current, !loop)
      else s.(current := current)
    else
      var current := Substring(text, s.i + 1);
      var i := s.i + 1;
      TypeState(i, i > |text|, current, false)
  }

  /** The states the machine passes through keep the shown text a prefix of
      the text; while typing it shows exactly the first `i` characters, and
      while deleting the whole text has been counted. */
  ghost predicate Valid(text: string, s: TypeState)
  {
    |s.current| <= |text| && s.current == text[..|s.current|] &&
    0 <= s.i <= |text| + 1 &&
    (!s.deleting ==> s.i <= |text| && |s.current| == s.i) &&
    (s.deleting ==> s.i == |text| + 1)
  }

  /** Every step keeps `Valid`; a typing step shows `text[..i + 1]` and
      counts one more; a deleting step shortens the shown text by one. */
  lemma StepValid(text: string, loop: bool, s: TypeState)
    requires Valid(text, s) && !s.stopped
    ensures Valid(text, Step(text, loop, s))
    ensures !s.deleting ==> Step(text, loop, s).i == s.i + 1 &&
                            Step(text, loop, s).current == text[..if s.i < |text| then s.i + 1 else |text|]
    ensures s.deleting && s.current != "" ==> Step(text, loop, s).current == s.current[..|s.current| - 1]
    ensures Step(text, loop, s).stopped ==> !loop && Step(text, loop, s).current == ""
  {
    if s.deleting {
      if s.current != "" {
        assert Substring(text, |s.current| - 1) == text[..|s.current| - 1] == s.current[..|s.current| - 1];
      }
    } else if s.i < |text| {
      assert Substring(text, s.i + 1) == text[..s.i + 1];
    } else {
      assert Substring(text, s.i + 1) == text == text[..|text|];
    }
  }

  /** `n` calls of `type` from `s`. */
  function Run(text: string, loop: bool, s: TypeState, n: nat): TypeState
    decreases n
  {
    if n == 0 then s else Run(text, loop, Step(text, loop, s), n - 1)
  }

  lemma {:induction false} RunAdd(text: string, loop: bool, s: TypeState, a: nat, b: nat)
    ensures Run(text, loop, s, a + b) == Run(text, loop, Run(text, loop, s, a), b)
    decreases a
  {
    if a > 0 {
      RunAdd(text, loop, Step(text, loop, s), a - 1, b);
    }
  }

  /** Typing from `k` shown characters reaches the whole text, counted past
      its end and deleting, after `|text| + 1 - k` calls. */
  lemma {:induction false} TypingPhase(text: string, loop: bool, k: nat)
    requires k <= |text|
    ensures Run(text, loop, TypeState(k, false, text[..k], false), |text| + 1 - k) ==
            TypeState(|text| + 1, true, text, false)
    decreases |text| - k
  {
    var next := Step(text, loop, TypeState(k, false, text[..k], false));
    if k < |text| {
      assert next == TypeState(k + 1, false, text[..k + 1], false);
      TypingPhase(text, loop, k + 1);
    } else {
      assert text[..k] == text;
    }
  }

  /** Deleting from `j` shown characters reaches the empty text, back at the
      start and stopped unless looping, after `j` calls (one call when
      nothing is shown). */
  lemma {:induction false} DeletingPhase(text: string, loop: bool, j: nat)
    requires j <= |text|
    ensures Run(text, loop, TypeState(|text| + 1, true, text[..j], false), if j == 0 then 1 else j) ==
            TypeState(0, false, "", !loop)
  {
    var next := Step(text, loop, TypeState(|text| + 1, true, text[..j], false));
    if j > 1 {
      assert next == TypeState(|text| + 1, true, text[..j - 1], false);
      DeletingPhase(text, loop, j - 1);
    }
  }

  /** The length of one cycle: `|text| + 1` typing calls, then the deleting
      calls. */
  function Cycle(text: string): nat
  {
    |text| + 1 + (if |text| == 0 then 1 else |text|)
  }

  /** From the start, one cycle of calls empties the text again: without
      `loop` the machine has stopped there, and with `loop` it is back in
      its start state, so it runs forever with period `Cycle(text)`. */
  lemma CycleEnds(text: string, loop: bool)
    ensures Run(text, loop, Start, Cycle(text)) == TypeState(0, false, "", !loop)
    ensures !loop ==> Run(text, loop, Start, Cycle(text)).stopped
    ensures loop ==> Run(text, loop, Start, Cycle(text)) == Start
  {
    RunAdd(text, loop, Start, |text| + 1, if |text| == 0 then 1 else |text|);
    assert Start == TypeState(0, false, text[..0], false);
    TypingPhase(text, loop, 0);
    assert text == text[..|text|];
    DeletingPhase(text, loop, |text|);
  }

  class Typewriter {
    const text: string
    const loop: bool
    var i: int
    var isDeleting: bool
    var currentText: string
    /** Set when `type` returns without scheduling another call. */
    var stopped: bool

    function State(): TypeState
      reads this
    {
      TypeState(i, isDeleting, currentText, stopped)
    }

    constructor(text: string, loop: bool)
      ensures this.text == text && this.loop == loop && State() == Start
    {
      this.text, this.loop := text, loop;
      i, isDeleting, currentText, stopped := 0, false, "", false;
    }

    /** `type()`. */
    method Type()
      requires !stopped
      modifies this
      ensures State() == Step(text, loop, old(State()))
    {
      if isDeleting {
        currentText := Substring(text, |currentText| - 1);
        if currentText == "" {
          isDeleting := false;
          i := 0;
          if !loop {
            stopped := true;
            return;
          }
        }
      } else {
        currentText := Substring(text, i + 1);
        i := i + 1;
        if i > |text| {
          isDeleting := true;
        }
      }
    }
  }
}
