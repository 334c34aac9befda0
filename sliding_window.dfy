/**
  The sliding window log (`SlidingWindowLimiter`): a FIFO of the clock
  readings of admitted requests, at most `max` of them. While the log has
  room a request is admitted; when it is full, a request is admitted only
  if the oldest entry is more than `intervalWindow` old, and that entry is
  then evicted.
 */
module SlidingWindow {
  import opened JavaMath

  /** What `limit()` does: returns true or false, or throws from `getFirst()` on an empty list. */
  datatype Outcome = Admitted | Rejected | NoSuchElement

  predicate Sorted(s: seq<int>) {
    forall i, j :: 0 <= i <= j < |s| ==> s[i] <= s[j]
  }

  /** One call of `limit()` at clock reading `now`: the outcome and the new list. */
  function Step(intervalWindow: int, max: int, list: seq<int>, now: int): (r: (Outcome, seq<int>))
    // a list with room admits
    ensures |list| < max ==> r.0 == Admitted
    // only an admission changes the list
    ensures r.0 != Admitted ==> r.1 == list
    // the exception is thrown exactly when a list with no room is empty (max <= 0)
    ensures r.0 == NoSuchElement <==> |list| >= max && list == []
    // a full list rejects exactly when its oldest entry is within the window
    ensures |list| >= max && list != [] ==> (r.0 == Rejected <==> now - list[0] <= intervalWindow)
    // an admission appends `now`, after the list or after all but its oldest entry
    ensures r.0 == Admitted ==> r.1 == (if |list| < max then list else list[1..]) + [now]
    // the list never shrinks and never grows past max
    ensures |list| <= |r.1| && (|list| <= max ==> |r.1| <= max)
  {
    if |list| < max then (Admitted, list + [now])
    else if list == [] then (NoSuchElement, list)
    else if now - list[0] <= intervalWindow then (Rejected, list)
    else (Admitted, list[1..] + [now])
  }

  /** With a clock that does not go back, the list stays in order. */
  lemma StepKeepsSorted(intervalWindow: int, max: int, list: seq<int>, now: int)
    requires Sorted(list) && (list != [] ==> list[|list| - 1] <= now)
    ensures Sorted(Step(intervalWindow, max, list, now).1)
  {
  }

  /** Calls at the clock readings `times`, in order: their outcomes and the final list. */
  function Run(intervalWindow: int, max: int, list: seq<int>, times: seq<int>): (r: (seq<Outcome>, seq<int>))
    ensures |r.0| == |times|
    decreases |times|
  {
    if times == [] then ([], list)
    else
      var (o, list') := Step(intervalWindow, max, list, times[0]);
      var (rest, last) := Run(intervalWindow, max, list', times[1..]);
      ([o] + rest, last)
  }

  /** One call followed by the rest. */
  lemma RunCons(intervalWindow: int, max: int, list: seq<int>, t: int, rest: seq<int>)
    ensures var (o, list') := Step(intervalWindow, max, list, t);
            var after := Run(intervalWindow, max, list', rest);
            Run(intervalWindow, max, list, [t] + rest) == ([o] + after.0, after.1)
  {
    assert ([t] + rest)[1..] == rest;
  }

  /** The clock readings of the admitted calls, in order. */
  function Accepted(times: seq<int>, outcomes: seq<Outcome>): (a: seq<int>)
    requires |times| == |outcomes|
    ensures |a| <= |times|
    decreases |times|
  {
    if times == [] then []
    else (if outcomes[0] == Admitted then [times[0]] else []) + Accepted(times[1..], outcomes[1..])
  }

  /** The list is the tail of the admission history: its last `min(|history|, max)` entries. */
  ghost predicate Tracks(list: seq<int>, history: seq<int>, max: int) {
    |list| == Min(|history|, max) && list == history[|history| - |list|..]
  }

  /** Any two admissions `max` apart in the history are more than `intervalWindow` apart in time. */
  ghost predicate Spaced(history: seq<int>, max: nat, intervalWindow: int) {
    forall k :: 0 <= k < |history| - max ==> Gap(history, k, max) > intervalWindow
  }

  /** Time between admission k and admission k + distance. */
  ghost function Gap(history: seq<int>, k: nat, distance: nat): int
    requires k + distance < |history|
  {
    history[k + distance] - history[k]
  }

  /** One call keeps the list the tail of the history, and the history spaced. */
  lemma StepSpaced(intervalWindow: int, max: int, list: seq<int>, history: seq<int>, now: int)
    requires max >= 1
    requires Tracks(list, history, max) && Spaced(history, max, intervalWindow)
    ensures var (o, list') := Step(intervalWindow, max, list, now);
            var history' := if o == Admitted then history + [now] else history;
            Tracks(list', history', max) && Spaced(history', max, intervalWindow)
  {
    var (o, list') := Step(intervalWindow, max, list, now);
    if o == Admitted {
      var h := history + [now];
      if |list| < max {
        assert |history| == |list|;
        assert list' == h[|h| - |list'|..];
      } else {
        assert |list| == max && |history| >= max;
        assert list' == h[|h| - |list'|..];
        forall k | 0 <= k < |h| - max
          ensures Gap(h, k, max) > intervalWindow
        {
          if k + max == |history| {
            assert h[k] == list[0];
          } else {
            assert Gap(h, k, max) == Gap(history, k, max);
          }
        }
      }
    }
  }

  /**
    Over any run from a tracked, spaced state, the list keeps tracking the
    history extended by the admitted calls, and that history stays spaced.
   */
  lemma {:induction false} RunSpaced(intervalWindow: int, max: int, list: seq<int>, history: seq<int>, times: seq<int>)
    requires max >= 1
    requires Tracks(list, history, max) && Spaced(history, max, intervalWindow)
    ensures var (outcomes, list') := Run(intervalWindow, max, list, times);
            var history' := history + Accepted(times, outcomes);
            Tracks(list', history', max) && Spaced(history', max, intervalWindow)
    decreases |times|
  {
    if times == [] {
      assert history + [] == history;
    } else {
      var t := times[0];
      var (o, list1) := Step(intervalWindow, max, list, t);
      var history1 := if o == Admitted then history + [t] else history;
      StepSpaced(intervalWindow, max, list, history, t);
      RunSpaced(intervalWindow, max, list1, history1, times[1..]);
      var rest := Run(intervalWindow, max, list1, times[1..]);
      assert Run(intervalWindow, max, list, times).0 == [o] + rest.0;
      assert ([o] + rest.0)[1..] == rest.0;
      var head := if o == Admitted then [t] else [];
      assert Accepted(times, [o] + rest.0) == head + Accepted(times[1..], rest.0);
      assert history + (head + Accepted(times[1..], rest.0)) == history1 + Accepted(times[1..], rest.0);
    }
  }

  /** Admissions taken from a clock that does not go back are in order, and none precedes the first reading. */
  lemma {:induction false} AcceptedSorted(times: seq<int>, outcomes: seq<Outcome>)
    requires |times| == |outcomes| && Sorted(times)
    ensures Sorted(Accepted(times, outcomes))
    ensures forall k :: 0 <= k < |Accepted(times, outcomes)| ==> times[0] <= Accepted(times, outcomes)[k]
    decreases |times|
  {
    if times != [] {
      var rest := Accepted(times[1..], outcomes[1..]);
      AcceptedSorted(times[1..], outcomes[1..]);
      var head := if outcomes[0] == Admitted then [times[0]] else [];
      var a := head + rest;
      assert Accepted(times, outcomes) == a;
      assert forall k :: 0 <= k < |rest| ==> times[0] <= rest[k] by {
        if |times| > 1 {
          assert times[0] <= times[1..][0];
        }
      }
      forall i, j | 0 <= i <= j < |a| ensures a[i] <= a[j] {
        if i < |head| {
          assert a[i] == times[0];
          if j >= |head| {
            assert a[j] == rest[j - |head|];
          }
        } else {
          assert a[i] == rest[i - |head|] && a[j] == rest[j - |head|];
        }
      }
    }
  }

  /**
    The trailing-window guarantee: from a fresh limiter and a clock that does
    not go back, whenever the admissions i..j (inclusive) lie within
    `intervalWindow` of each other, there are fewer than `max + 1` of them.
   */
  lemma TrailingWindow(intervalWindow: int, max: int, times: seq<int>)
    requires max >= 1 && Sorted(times)
    ensures var a := Accepted(times, Run(intervalWindow, max, [], times).0);
            forall i, j :: 0 <= i <= j < |a| && a[j] - a[i] <= intervalWindow ==> j - i < max
  {
    var outcomes := Run(intervalWindow, max, [], times).0;
    var a := Accepted(times, outcomes);
    RunSpaced(intervalWindow, max, [], [], times);
    assert [] + a == a;
    AcceptedSorted(times, outcomes);
    SpacedAndSorted(a, max, intervalWindow);
  }

  /** In a sorted, spaced history, admissions `max` or more apart are more than a window apart. */
  lemma SpacedAndSorted(a: seq<int>, max: nat, intervalWindow: int)
    requires Sorted(a) && Spaced(a, max, intervalWindow)
    ensures forall i, j :: 0 <= i <= j < |a| && a[j] - a[i] <= intervalWindow ==> j - i < max
  {
    forall i, j | 0 <= i <= j < |a| && j - i >= max
      ensures a[j] - a[i] > intervalWindow
    {
      assert Gap(a, i, max) > intervalWindow;
      assert a[i + max] <= a[j];
    }
  }

  /** How many readings in `h` are at most `intervalWindow` ms before `now`. */
  function CountWithin(h: seq<int>, now: int, intervalWindow: int): (n: nat)
    ensures n <= |h|
    decreases |h|
  {
    if h == [] then 0
    else CountWithin(h[..|h| - 1], now, intervalWindow) + (if now - h[|h| - 1] <= intervalWindow then 1 else 0)
  }

  /** In sorted readings whose newest lies outside the window, none lies inside it. */
  lemma {:induction false} NoneWithin(h: seq<int>, now: int, intervalWindow: int)
    requires Sorted(h) && h != [] && now - h[|h| - 1] > intervalWindow
    ensures CountWithin(h, now, intervalWindow) == 0
    decreases |h|
  {
    var init := h[..|h| - 1];
    if init != [] {
      assert init[|init| - 1] <= h[|h| - 1];
      NoneWithin(init, now, intervalWindow);
    }
  }

  /**
    The readings inside the window are a suffix of sorted readings: at least
    `m` of them lie inside exactly when the `m`-th newest does.
   */
  lemma {:induction false} WithinSuffix(h: seq<int>, now: int, intervalWindow: int, m: nat)
    requires Sorted(h) && 1 <= m <= |h|
    ensures CountWithin(h, now, intervalWindow) >= m <==> now - h[|h| - m] <= intervalWindow
    decreases |h|
  {
    var init := h[..|h| - 1];
    if now - h[|h| - 1] <= intervalWindow {
      if m > 1 {
        WithinSuffix(init, now, intervalWindow, m - 1);
        assert init[|init| - (m - 1)] == h[|h| - m];
      }
    } else {
      NoneWithin(h, now, intervalWindow);
      assert h[|h| - m] <= h[|h| - 1];
    }
  }

  /** With no room at all (`max <= 0`) the list never receives an entry. */
  lemma {:induction false} NeverAdmits(intervalWindow: int, max: int, times: seq<int>)
    requires max <= 0
    ensures Run(intervalWindow, max, [], times).1 == []
    decreases |times|
  {
    if times != [] {
      NeverAdmits(intervalWindow, max, times[1..]);
    }
  }

  /**
    One call against a list that holds the last admissions of a sorted
    history: it is admitted exactly when fewer than `max` of them lie at most
    `intervalWindow` ms before `now`.
   */
  lemma StepRoom(intervalWindow: int, max: int, list: seq<int>, history: seq<int>, now: int)
    requires max >= 1 && Tracks(list, history, max) && Sorted(history)
    ensures Step(intervalWindow, max, list, now).0 == Admitted <==> CountWithin(history, now, intervalWindow) < max
  {
    if |history| >= max {
      assert list[0] == history[|history| - max];
      WithinSuffix(history, now, intervalWindow, max);
    }
  }

  /** The outcome of call `k` is one `Step` from the list the first `k` calls leave. */
  lemma RunAt(intervalWindow: int, max: int, list: seq<int>, times: seq<int>, k: nat)
    requires k < |times|
    ensures var outcomes := Run(intervalWindow, max, list, times).0;
            var prefix := Run(intervalWindow, max, list, times[..k]);
            outcomes[..k] == prefix.0 && outcomes[k] == Step(intervalWindow, max, prefix.1, times[k]).0
  {
    var prefix := Run(intervalWindow, max, list, times[..k]);
    assert times == times[..k] + times[k..];
    RunAppend(intervalWindow, max, list, times[..k], times[k..]);
    assert times[k..] == [times[k]] + times[k + 1..];
    RunCons(intervalWindow, max, prefix.1, times[k], times[k + 1..]);
  }

  /**
    The sliding-window rule by its meaning: from a new limiter on a clock
    that does not go back, the call at `times[k]` is admitted exactly when
    fewer than `max` of the earlier admissions lie at most `intervalWindow`
    ms before it.
   */
  lemma AdmittedIffRoom(intervalWindow: int, max: int, times: seq<int>, k: nat)
    requires Sorted(times) && k < |times|
    ensures var outcomes := Run(intervalWindow, max, [], times).0;
            var earlier := Accepted(times[..k], outcomes[..k]);
            outcomes[k] == Admitted <==> CountWithin(earlier, times[k], intervalWindow) < max
  {
    var prefix := Run(intervalWindow, max, [], times[..k]);
    RunAt(intervalWindow, max, [], times, k);
    var earlier := Accepted(times[..k], prefix.0);
    if max >= 1 {
      RunSpaced(intervalWindow, max, [], [], times[..k]);
      assert [] + earlier == earlier;
      AcceptedSorted(times[..k], prefix.0);
      StepRoom(intervalWindow, max, prefix.1, earlier, times[k]);
    } else {
      NeverAdmits(intervalWindow, max, times[..k]);
    }
  }

  /** Running two batches of calls one after the other. */
  lemma {:induction false} RunAppend(intervalWindow: int, max: int, list: seq<int>, x: seq<int>, y: seq<int>)
    ensures var first := Run(intervalWindow, max, list, x);
            var second := Run(intervalWindow, max, first.1, y);
            Run(intervalWindow, max, list, x + y) == (first.0 + second.0, second.1)
    decreases |x|
  {
    if x != [] {
      assert (x + y)[1..] == x[1..] + y;
      var (o, list') := Step(intervalWindow, max, list, x[0]);
      RunAppend(intervalWindow, max, list', x[1..], y);
      var first := Run(intervalWindow, max, list', x[1..]);
      var second := Run(intervalWindow, max, first.1, y);
      assert [o] + (first.0 + second.0) == ([o] + first.0) + second.0;
    } else {
      assert x + y == y;
      assert [] + Run(intervalWindow, max, list, y).0 == Run(intervalWindow, max, list, y).0;
    }
  }

  /** A window of 1000 ms with max 2: admit at 0 and 500, reject at 600, admit at 1001 evicting 0. */
  lemma SlidingScenario()
    ensures Run(1000, 2, [], [0, 500, 600, 1001]) == ([Admitted, Admitted, Rejected, Admitted], [500, 1001])
  {
    RunCons(1000, 2, [], 0, [500, 600, 1001]);
    RunCons(1000, 2, [0], 500, [600, 1001]);
    RunCons(1000, 2, [0, 500], 600, [1001]);
    assert [0, 500][1..] + [1001] == [500, 1001];
    RunCons(1000, 2, [0, 500], 1001, []);
    assert [0] + [500, 600, 1001] == [0, 500, 600, 1001];
    assert [500] + [600, 1001] == [500, 600, 1001];
    assert [600] + [1001] == [600, 1001];
    assert [1001] + [] == [1001];
    assert [] + [0] == [0];
    assert [0] + [500] == [0, 500];
    assert [Admitted] + ([Admitted] + ([Rejected] + ([Admitted] + []))) == [Admitted, Admitted, Rejected, Admitted];
  }

  class SlidingWindowLimiter {
    var intervalWindow: int
    var max: int
    /** Clock readings of admitted requests, oldest first. */
    var list: seq<int>

    constructor (intervalWindow: int, max: int)
      ensures this.intervalWindow == intervalWindow && this.max == max && list == []
    {
      this.intervalWindow := intervalWindow;
      this.max := max;
      list := [];
    }

    method Limit(now: int) returns (r: Outcome)
      modifies this
      ensures intervalWindow == old(intervalWindow) && max == old(max)
      ensures (r, list) == Step(intervalWindow, max, old(list), now)
      ensures old(|list| < max) ==> r == Admitted && list == old(list) + [now]
      ensures old(|list| >= max && list == []) ==> r == NoSuchElement && list == old(list)
      ensures old(|list| >= max && list != [] && now - list[0] <= intervalWindow) ==>
                r == Rejected && list == old(list)
      ensures old(|list| >= max && list != [] && now - list[0] > intervalWindow) ==>
                r == Admitted && list == old(list[1..]) + [now] && |list| == old(|list|)
      ensures old(|list| <= max) ==> |list| <= max
      ensures old(|list|) <= |list|
    {
      if |list| < max {
        list := list + [now];
        return Admitted;
      }
      if list == [] {
        return NoSuchElement;
      }
      var firstReqTime := list[0];
      if now - firstReqTime <= intervalWindow {
        return Rejected;
      }
      list := list[1..];
      list := list + [now];
      return Admitted;
    }
  }
}
