/**
  The leaky bucket (`LeakyBucketLimiter`): the water level drains by
  `leakRate` for every whole second since the previous call, never below
  zero, and each admitted request adds one unit of water, up to `capacity`.
 */
module LeakyBucket {
  import opened JavaMath
  import opened Decisions
  import opened Clock

  /** The fields `limit()` updates: the clock reading of the previous call and the water level. */
  datatype Bucket = Bucket(preTime: int, water: int)

  /** The water left at `now` after draining since `b.preTime`, floored at zero. */
  function Drained(leakRate: int, b: Bucket, now: int): (w: int)
    ensures w >= 0
    // at most leakRate per whole elapsed second leaks out
    ensures w >= b.water - WholeSeconds(now - b.preTime) * leakRate
    // with a clock that does not go back and a non-negative rate, nothing is added
    ensures leakRate >= 0 && now >= b.preTime ==> w <= Max(0, b.water)
    // less than a second either way drains nothing
    ensures -1000 < now - b.preTime < 1000 ==> w == Max(0, b.water)
  {
    Max(0, b.water - WholeSeconds(now - b.preTime) * leakRate)
  }

  /** One call of `limit()` at clock reading `now`: the decision and the new fields. */
  function Step(leakRate: int, capacity: int, b: Bucket, now: int): (r: (bool, Bucket))
    // every call, admitted or not, records `now`
    ensures r.1.preTime == now
    // admitted exactly when one more unit fits after draining
    ensures r.0 <==> Drained(leakRate, b, now) + 1 <= capacity
    // an admission adds exactly one unit to the drained level; a rejection adds none
    ensures r.1.water == Drained(leakRate, b, now) + (if r.0 then 1 else 0)
    // the level is never negative
    ensures r.1.water >= 0
    // with a clock that does not go back, the level stays within the bucket
    ensures 0 <= b.water <= capacity && leakRate >= 0 && now >= b.preTime ==> r.1.water <= capacity
  {
    var water := Drained(leakRate, b, now);
    if water + 1 <= capacity then (true, Bucket(now, water + 1)) else (false, Bucket(now, water))
  }

  /** Calls at the clock readings `times`, in order: their decisions and the final fields. */
  function Run(leakRate: int, capacity: int, b: Bucket, times: seq<int>): (r: (seq<bool>, Bucket))
    ensures |r.0| == |times|
    ensures r.1.preTime == LastOr(b.preTime, times)
    decreases |times|
  {
    if times == [] then ([], b)
    else
      var (ok, b') := Step(leakRate, capacity, b, times[0]);
      var (rest, last) := Run(leakRate, capacity, b', times[1..]);
      ([ok] + rest, last)
  }

  /** One call followed by the rest. */
  lemma RunCons(leakRate: int, capacity: int, b: Bucket, t: int, rest: seq<int>)
    ensures var (ok, b') := Step(leakRate, capacity, b, t);
            var after := Run(leakRate, capacity, b', rest);
            Run(leakRate, capacity, b, [t] + rest) == ([ok] + after.0, after.1)
  {
    assert ([t] + rest)[1..] == rest;
  }

  /**
    Calls less than a second apart never drain the bucket: every call sees
    the level it left, so the final level is the starting level plus the
    number of admissions.
   */
  lemma {:induction false} SubSecondNeverDrains(leakRate: int, capacity: int, b: Bucket, times: seq<int>)
    requires b.water >= 0
    requires SubSecondGaps(b.preTime, times)
    ensures var (d, last) := Run(leakRate, capacity, b, times);
            last.water == b.water + Admissions(d) && last.water >= b.water
    decreases |times|
  {
    if times != [] {
      var (ok, b') := Step(leakRate, capacity, b, times[0]);
      SubSecondNeverDrains(leakRate, capacity, b', times[1..]);
      var rest := Run(leakRate, capacity, b', times[1..]).0;
      assert ([ok] + rest)[1..] == rest;
    }
  }

  /**
    Calls less than a second apart, from a level within the bucket: the first
    `capacity - water` are admitted, every later one is rejected.
   */
  lemma {:induction false} SubSecondFill(leakRate: int, capacity: int, b: Bucket, times: seq<int>)
    requires 0 <= b.water <= capacity
    requires SubSecondGaps(b.preTime, times)
    ensures var n := Min(|times|, capacity - b.water);
            var (d, last) := Run(leakRate, capacity, b, times);
            d == AdmitFirst(n, |times|) && last.water == b.water + n
    decreases |times|
  {
    if times != [] {
      var n := Min(|times|, capacity - b.water);
      var b' := Step(leakRate, capacity, b, times[0]).1;
      SubSecondFill(leakRate, capacity, b', times[1..]);
      AdmitFirstCons(n, |times|);
    }
  }

  /** From an empty bucket, `capacity` calls at one instant are admitted and the next is rejected. */
  lemma BurstFromEmpty(leakRate: int, capacity: int, t: int)
    requires capacity >= 0
    ensures Run(leakRate, capacity, Bucket(t, 0), Repeat(t, capacity + 1)).0 == AdmitFirst(capacity, capacity + 1)
  {
    SameInstant(t, capacity + 1);
    SubSecondFill(leakRate, capacity, Bucket(t, 0), Repeat(t, capacity + 1));
  }

  /**
    The level stays within [0, capacity] over any run on a clock that does
    not go back, and the water that left is at most `leakRate` per whole
    second between the previous call and the last one.
   */
  lemma {:induction false} RunAccounting(leakRate: int, capacity: int, b: Bucket, times: seq<int>)
    requires 0 <= b.water <= capacity && leakRate >= 0
    requires Monotone(b.preTime, times)
    ensures var (d, last) := Run(leakRate, capacity, b, times);
            0 <= last.water <= capacity &&
            b.water + Admissions(d) <= last.water + leakRate * WholeSeconds(LastOr(b.preTime, times) - b.preTime)
    decreases |times|
  {
    if times == [] {
      assert WholeSeconds(0) == 0;
    } else {
      var t := times[0];
      var (ok, b') := Step(leakRate, capacity, b, t);
      RunAccounting(leakRate, capacity, b', times[1..]);
      var (rest, last) := Run(leakRate, capacity, b', times[1..]);
      assert ([ok] + rest)[1..] == rest;
      var end := LastOr(t, times[1..]);
      MonotoneLast(t, times[1..]);
      var s1, s2 := WholeSeconds(t - b.preTime), WholeSeconds(end - t);
      WholeSecondsSuperadditive(t - b.preTime, end - t);
      Distribute(leakRate, s1, s2, WholeSeconds(end - b.preTime));
    }
  }

  /**
    The rate guarantee: on a clock that does not go back, a bucket holding
    `water` admits at most `capacity - water` calls plus `leakRate` per whole
    second elapsed.
   */
  lemma RateBound(leakRate: int, capacity: int, b: Bucket, times: seq<int>)
    requires 0 <= b.water <= capacity && leakRate >= 0
    requires Monotone(b.preTime, times)
    ensures Admissions(Run(leakRate, capacity, b, times).0)
              <= capacity - b.water + leakRate * WholeSeconds(LastOr(b.preTime, times) - b.preTime)
  {
    RunAccounting(leakRate, capacity, b, times);
  }

  /**
    The code does not clamp a backward clock: a full bucket whose clock goes
    back a second or more gains water instead of losing it, so the level
    ends above `capacity`.
   */
  lemma BackwardClockOverfills(leakRate: int, capacity: int, b: Bucket, now: int)
    requires leakRate >= 1 && b.water == capacity >= 0
    requires now <= b.preTime - 1000
    ensures !Step(leakRate, capacity, b, now).0
    ensures Step(leakRate, capacity, b, now).1.water > capacity
  {
    var s := WholeSeconds(now - b.preTime);
    assert s <= -1;
    ScaleMonotone(leakRate, s, -1);
  }

  /**
    Leak rate 1 and capacity 5, an empty bucket created at `t`: five calls
    at `t` fill it, the sixth is rejected; 3000 ms later it has drained to 2,
    so three more are admitted and the fourth is rejected.
   */
  lemma DrainScenario(t: int)
    ensures var (d, last) := Run(1, 5, Bucket(t, 0), Repeat(t, 6) + Repeat(t + 3000, 4));
            d == AdmitFirst(5, 6) + AdmitFirst(3, 4) && last == Bucket(t + 3000, 5)
  {
    var first, second := Repeat(t, 6), Repeat(t + 3000, 4);
    var full := Bucket(t, 5);
    assert Run(1, 5, Bucket(t, 0), first) == (AdmitFirst(5, 6), full) by {
      SameInstant(t, 6);
      SubSecondFill(1, 5, Bucket(t, 0), first);
    }
    assert Run(1, 5, full, second) == (AdmitFirst(3, 4), Bucket(t + 3000, 5)) by {
      assert second == [t + 3000] + Repeat(t + 3000, 3);
      RunCons(1, 5, full, t + 3000, Repeat(t + 3000, 3));
      assert WholeSeconds(3000) == 3;
      assert Step(1, 5, full, t + 3000) == (true, Bucket(t + 3000, 3));
      SameInstant(t + 3000, 3);
      SubSecondFill(1, 5, Bucket(t + 3000, 3), Repeat(t + 3000, 3));
      AdmitFirstCons(3, 4);
    }
    RunAppend(1, 5, Bucket(t, 0), first, second);
  }

  /** Running two batches of calls one after the other. */
  lemma {:induction false} RunAppend(leakRate: int, capacity: int, b: Bucket, x: seq<int>, y: seq<int>)
    ensures var first := Run(leakRate, capacity, b, x);
            var second := Run(leakRate, capacity, first.1, y);
            Run(leakRate, capacity, b, x + y) == (first.0 + second.0, second.1)
    decreases |x|
  {
    if x != [] {
      assert (x + y)[1..] == x[1..] + y;
      var (ok, b') := Step(leakRate, capacity, b, x[0]);
      RunAppend(leakRate, capacity, b', x[1..], y);
      var first := Run(leakRate, capacity, b', x[1..]);
      var second := Run(leakRate, capacity, first.1, y);
      assert [ok] + (first.0 + second.0) == ([ok] + first.0) + second.0;
    } else {
      assert x + y == y;
      assert [] + Run(leakRate, capacity, b, y).0 == Run(leakRate, capacity, b, y).0;
    }
  }

  class LeakyBucketLimiter {
    var preTime: int
    var leakRate: int
    var capacity: int
    var water: int

    /** The fields `limit()` updates, as a value. */
    function Fields(): Bucket
      reads this
    {
      Bucket(preTime, water)
    }

    /** A new, empty bucket; `now` is the clock reading taken when it is created. */
    constructor (leakRate: int, capacity: int, now: int)
      ensures this.leakRate == leakRate && this.capacity == capacity
      ensures preTime == now && water == 0
    {
      this.leakRate := leakRate;
      this.capacity := capacity;
      preTime := now;
      water := 0;
    }

    method Limit(now: int) returns (ok: bool)
      modifies this
      ensures leakRate == old(leakRate) && capacity == old(capacity)
      ensures (ok, Fields()) == Step(leakRate, capacity, old(Fields()), now)
      ensures preTime == now && water >= 0
      ensures ok <==> old(Drained(leakRate, Fields(), now)) + 1 <= capacity
      ensures water == old(Drained(leakRate, Fields(), now)) + (if ok then 1 else 0)
      ensures old(0 <= water <= capacity) && leakRate >= 0 && now >= old(preTime) ==> 0 <= water <= capacity
    {
      water := Max(0, water - WholeSeconds(now - preTime) * leakRate);
      preTime := now;
      if water + 1 <= capacity {
        water := water + 1;
        return true;
      }
      return false;
    }
  }
}
