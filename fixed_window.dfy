/**
  The fixed window counter (`CountLimiter`): the first window opens when
  the limiter is created, and each later one at the first request after the
  previous window has expired; a window lasts `intervalWindow` milliseconds
  and within it at most `max` requests are admitted.
 */
module FixedWindow {
  import opened JavaMath
  import opened Decisions

  /** The fields `limit()` updates: start of the current window and admissions in it. */
  datatype Window = Window(firstReqTime: int, count: int)

  /** The current window has expired at `now` (the test is strict). */
  predicate Expired(intervalWindow: int, w: Window, now: int) {
    now > w.firstReqTime + intervalWindow
  }

  /** One call of `limit()` at clock reading `now`: the decision and the new fields. */
  function Step(intervalWindow: int, max: int, w: Window, now: int): (r: (bool, Window))
    // admitted exactly when the window expired or it still has room
    ensures r.0 <==> Expired(intervalWindow, w, now) || w.count + 1 <= max
    // a rejected call changes nothing
    ensures !r.0 ==> r.1 == w
    // an expired window is reset: the call is admitted as the first of a new window at `now`
    ensures Expired(intervalWindow, w, now) ==> r == (true, Window(now, 1))
    // within the window, a call with room is counted once in the same window
    ensures !Expired(intervalWindow, w, now) && w.count + 1 <= max ==> r == (true, Window(w.firstReqTime, w.count + 1))
    // with max >= 1 the count stays within [0, max]
    ensures max >= 1 && 0 <= w.count <= max ==> 0 <= r.1.count <= max
    // the window start moves only on a reset, and only to `now`
    ensures r.1.firstReqTime != w.firstReqTime ==> Expired(intervalWindow, w, now) && r.1.firstReqTime == now
    // for a non-negative window it never moves backwards, and a move is strictly forward
    ensures intervalWindow >= 0 ==> r.1.firstReqTime >= w.firstReqTime
  {
    if Expired(intervalWindow, w, now) then (true, Window(now, 1))
    else if w.count + 1 <= max then (true, Window(w.firstReqTime, w.count + 1))
    else (false, w)
  }

  /** Calls at the clock readings `times`, in order: their decisions and the final fields. */
  function Run(intervalWindow: int, max: int, w: Window, times: seq<int>): (r: (seq<bool>, Window))
    ensures |r.0| == |times|
    decreases |times|
  {
    if times == [] then ([], w)
    else
      var (ok, w') := Step(intervalWindow, max, w, times[0]);
      var (rest, last) := Run(intervalWindow, max, w', times[1..]);
      ([ok] + rest, last)
  }

  /** One call followed by the rest. */
  lemma RunCons(intervalWindow: int, max: int, w: Window, t: int, rest: seq<int>)
    ensures var (ok, w') := Step(intervalWindow, max, w, t);
            var after := Run(intervalWindow, max, w', rest);
            Run(intervalWindow, max, w, [t] + rest) == ([ok] + after.0, after.1)
  {
    assert ([t] + rest)[1..] == rest;
  }

  /** Running two batches of calls one after the other. */
  lemma {:induction false} RunAppend(intervalWindow: int, max: int, w: Window, a: seq<int>, b: seq<int>)
    ensures var first := Run(intervalWindow, max, w, a);
            var second := Run(intervalWindow, max, first.1, b);
            Run(intervalWindow, max, w, a + b) == (first.0 + second.0, second.1)
    decreases |a|
  {
    if a != [] {
      assert (a + b)[1..] == a[1..] + b;
      var (ok, w') := Step(intervalWindow, max, w, a[0]);
      RunAppend(intervalWindow, max, w', a[1..], b);
      var first := Run(intervalWindow, max, w', a[1..]);
      var second := Run(intervalWindow, max, first.1, b);
      assert Run(intervalWindow, max, w, a + b) == ([ok] + (first.0 + second.0), second.1);
      assert [ok] + (first.0 + second.0) == ([ok] + first.0) + second.0;
    } else {
      assert a + b == b;
      assert Run(intervalWindow, max, w, a) == ([], w);
      assert [] + Run(intervalWindow, max, w, b).0 == Run(intervalWindow, max, w, b).0;
    }
  }

  /**
    While no call reaches past the current window, the first `max - count`
    calls are admitted and every later one rejected; the window start stays.
   */
  lemma {:induction false} WithinWindow(intervalWindow: int, max: int, w: Window, times: seq<int>)
    requires w.count <= max
    requires forall i :: 0 <= i < |times| ==> times[i] <= w.firstReqTime + intervalWindow
    ensures var n := Min(|times|, max - w.count);
            Run(intervalWindow, max, w, times) == (AdmitFirst(n, |times|), Window(w.firstReqTime, w.count + n))
    decreases |times|
  {
    if times != [] {
      var n := Min(|times|, max - w.count);
      var w' := Step(intervalWindow, max, w, times[0]).1;
      WithinWindow(intervalWindow, max, w', times[1..]);
      AdmitFirstCons(n, |times|);
    }
  }

  /**
    Between one reset and the next, at most `max` calls are admitted: the
    call that opens the window plus `max - 1` more.
   */
  lemma AtMostMaxPerWindow(intervalWindow: int, max: int, w: Window, now: int, later: seq<int>)
    requires max >= 1
    requires Expired(intervalWindow, w, now)
    requires forall i :: 0 <= i < |later| ==> !Expired(intervalWindow, Window(now, 1), later[i])
    ensures Admissions(Run(intervalWindow, max, w, [now] + later).0) == Min(|later| + 1, max)
  {
    var n := Min(|later|, max - 1);
    assert ([now] + later)[1..] == later;
    WithinWindow(intervalWindow, max, Window(now, 1), later);
    AdmissionsAdmitFirst(n, |later|);
  }

  /**
    The burst the fixed window lets through: `max` calls at the last instant
    of a window and `max` calls one millisecond later are all admitted, so
    `2 * max` admissions fall in a span of one millisecond.
   */
  lemma BoundaryBurst(intervalWindow: int, max: int, t0: int)
    requires intervalWindow >= 0 && max >= 1
    ensures var times := Repeat(t0 + intervalWindow, max) + Repeat(t0 + intervalWindow + 1, max);
            var d := Run(intervalWindow, max, Window(t0, 0), times).0;
            |d| == 2 * max && forall i :: 0 <= i < 2 * max ==> d[i]
  {
    var edge := t0 + intervalWindow;
    var a := Repeat(edge, max);
    var b := Repeat(edge + 1, max);
    RunAppend(intervalWindow, max, Window(t0, 0), a, b);
    WithinWindow(intervalWindow, max, Window(t0, 0), a);
    assert b[1..] == Repeat(edge + 1, max - 1);
    WithinWindow(intervalWindow, max, Window(edge + 1, 1), b[1..]);
    var d := Run(intervalWindow, max, Window(t0, 0), a + b).0;
    assert d == AdmitFirst(max, max) + ([true] + AdmitFirst(max - 1, max - 1));
  }

  /** A window of 1000 ms with max 2: admit at 0 and 100, reject at 200, a new window at 1001. */
  lemma WindowResetScenario()
    ensures Run(1000, 2, Window(0, 0), [0, 100, 200, 1001]) == ([true, true, false, true], Window(1001, 1))
  {
    RunCons(1000, 2, Window(0, 0), 0, [100, 200, 1001]);
    RunCons(1000, 2, Window(0, 1), 100, [200, 1001]);
    RunCons(1000, 2, Window(0, 2), 200, [1001]);
    RunCons(1000, 2, Window(0, 2), 1001, []);
    assert [0] + [100, 200, 1001] == [0, 100, 200, 1001];
    assert [100] + [200, 1001] == [100, 200, 1001];
    assert [200] + [1001] == [200, 1001];
    assert [1001] + [] == [1001];
    assert [true] + ([true] + ([false] + ([true] + []))) == [true, true, false, true];
  }

  class CountLimiter {
    var intervalWindow: int
    var max: int
    var count: int
    var firstReqTime: int

    /** The fields `limit()` updates, as a value. */
    function Fields(): Window
      reads this
    {
      Window(firstReqTime, count)
    }

    /** A new limiter; `now` is the clock reading taken when it is created. */
    constructor (intervalWindow: int, max: int, now: int)
      ensures this.intervalWindow == intervalWindow && this.max == max
      ensures count == 0 && firstReqTime == now
    {
      this.intervalWindow := intervalWindow;
      this.max := max;
      count := 0;
      firstReqTime := now;
    }

    method Limit(now: int) returns (ok: bool)
      modifies this
      ensures intervalWindow == old(intervalWindow) && max == old(max)
      ensures (ok, Fields()) == Step(intervalWindow, max, old(Fields()), now)
      ensures old(now > firstReqTime + intervalWindow) ==> ok && firstReqTime == now && count == 1
      ensures old(now <= firstReqTime + intervalWindow && count + 1 <= max) ==>
                ok && firstReqTime == old(firstReqTime) && count == old(count) + 1
      ensures old(now <= firstReqTime + intervalWindow && count + 1 > max) ==>
                !ok && firstReqTime == old(firstReqTime) && count == old(count)
      ensures max >= 1 && old(0 <= count <= max) ==> 0 <= count <= max
      ensures intervalWindow >= 0 ==> old(firstReqTime) <= firstReqTime
      ensures intervalWindow >= 0 && firstReqTime != old(firstReqTime) ==> firstReqTime == now > old(firstReqTime)
    {
      if now > firstReqTime + intervalWindow {
        firstReqTime := now;
        count := 1;
        return true;
      }
      if count + 1 <= max {
        count := count + 1;
        return true;
      }
      return false;
    }
  }
}
