/** `pub.throttle(func, limit)`: the returned wrapper calls `func` only when
    at least `limit` milliseconds have passed since the last recorded call.
    The clock (`Date.now()`) is a parameter, and so is whether `func` throws:
    the wrapper records the time only after `func` has returned. */
module SvxThrottle {

  class Throttle {
    const limit: int
    /** `lastCall`: the time of the last call whose `func` returned, initially 0. */
    var lastCall: int
    /** The times at which `func` ran and returned, in order. */
    ghost var fired: seq<int>

    /** Each recorded call came at least `limit` after the one before it,
        the first at least `limit` after time 0, and `lastCall` is the last. */
    ghost predicate Valid()
      reads this
    {
      (forall i :: 0 < i < |fired| ==> fired[i] - fired[i - 1] >= limit) &&
      (|fired| > 0 ==> fired[0] >= limit) &&
      lastCall == (if fired == [] then 0 else fired[|fired| - 1])
    }

    constructor(limit: int := 300)
      ensures Valid() && this.limit == limit && lastCall == 0 && fired == []
    {
      this.limit := limit;
      lastCall := 0;
      fired := [];
    }

    /** One call of the wrapper at time `now`; `ran` says whether `func` ran,
        and `throws` whether it then threw. A throw escapes before
        `lastCall = now`, so the time is not recorded and the next call is
        judged against the previous recorded one. */
    method Call(now: int, throws: bool) returns (ran: bool)
      requires Valid()
      modifies this
      ensures Valid()
      ensures (ran, lastCall) == CallOutcome(old(lastCall), limit, now, throws)
      ensures fired == old(fired) + (if ran && !throws then [now] else [])
    {
      ran := now - lastCall >= limit;
      if ran && !throws {
        lastCall := now;
        fired := fired + [now];
      }
    }
  }

  /** The state a call leaves behind, for a value-level view of the wrapper:
      whether `func` ran, and the new `lastCall`. */
  function CallOutcome(lastCall: int, limit: int, now: int, throws: bool): (r: (bool, int))
    ensures r.0 <==> now - lastCall >= limit
    ensures r.0 && !throws ==> r.1 == now
    ensures throws || !r.0 ==> r.1 == lastCall
  {
    var ran := now - lastCall >= limit;
    (ran, if ran && !throws then now else lastCall)
  }

  /** A throwing `func` leaves the wrapper open: with limit 300, a call at
      1000 that throws is followed by a call at 1001 that runs again. */
  lemma ThrowLeavesOpen()
    ensures var first := CallOutcome(0, 300, 1000, true);
            var second := CallOutcome(first.1, 300, 1001, false);
            first.0 && second.0 && second.1 == 1001
  {
  }

  /** Whatever the outcome of `func`, two runs of it are at least `limit`
      apart once the earlier one returned; after a throw the next run may
      come at once. */
  lemma {:induction false} RecordedSpacing(lastCall: int, limit: int, t1: int, t2: int)
    requires limit > 0 && t1 <= t2
    ensures var a := CallOutcome(lastCall, limit, t1, false);
            a.0 ==> (CallOutcome(a.1, limit, t2, false).0 <==> t2 - t1 >= limit)
  {
  }

  /** Calls let through `k` apart in the sequence are at least `k * limit` apart in time. */
  lemma {:induction false} Spacing(fired: seq<int>, limit: int, i: nat, j: nat)
    requires forall k :: 0 < k < |fired| ==> fired[k] - fired[k - 1] >= limit
    requires i <= j < |fired|
    ensures fired[j] - fired[i] >= (j - i) * limit
    decreases j - i
  {
    if i < j {
      Spacing(fired, limit, i, j - 1);
      assert (j - i) * limit == (j - 1 - i) * limit + limit;
    }
  }
}
