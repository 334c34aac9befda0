/**
  The token bucket (`TokenBucketLimiter`): the bucket gains `putRate` tokens
  for every whole second since the previous call, never more than
  `capacity`, and each admitted request takes one token. A new bucket holds
  no tokens.
 */
module TokenBucket {
  import opened JavaMath
  import opened Decisions
  import opened Clock

  /** The fields `limit()` updates: the clock reading of the previous call and the token count. */
  datatype Bucket = Bucket(preTime: int, bucket: int)

  /** The tokens available at `now` after refilling since `b.preTime`, capped at `capacity`. */
  function Refilled(putRate: int, capacity: int, b: Bucket, now: int): (k: int)
    ensures k <= capacity
    // at most putRate tokens per whole elapsed second are added
    ensures k <= b.bucket + WholeSeconds(now - b.preTime) * putRate
    // with a clock that does not go back and non-negative parameters, tokens are never lost
    ensures putRate >= 0 && now >= b.preTime && 0 <= b.bucket && 0 <= capacity ==> k >= Min(b.bucket, capacity) >= 0
    // less than a second either way adds nothing
    ensures -1000 < now - b.preTime < 1000 ==> k == Min(capacity, b.bucket)
  {
    Min(capacity, b.bucket + WholeSeconds(now - b.preTime) * putRate)
  }

  /** One call of `limit()` at clock reading `now`: the decision and the new fields. */
  function Step(putRate: int, capacity: int, b: Bucket, now: int): (r: (bool, Bucket))
    // every call, admitted or not, records `now`
    ensures r.1.preTime == now
    // rejected exactly when the refilled bucket holds no token, and then it stays empty
    ensures !r.0 <==> Refilled(putRate, capacity, b, now) == 0
    ensures !r.0 ==> r.1.bucket == 0
    // an admission takes exactly one token from the refilled bucket
    ensures r.0 ==> r.1.bucket == Refilled(putRate, capacity, b, now) - 1
    // the bucket never holds more than capacity
    ensures r.1.bucket <= capacity
    // with a clock that does not go back, the bucket never goes negative
    ensures b.bucket >= 0 && now >= b.preTime && putRate >= 0 && capacity >= 0 ==> r.1.bucket >= 0
  {
    var bucket := Refilled(putRate, capacity, b, now);
    if bucket == 0 then (false, Bucket(now, bucket)) else (true, Bucket(now, bucket - 1))
  }

  /** Calls at the clock readings `times`, in order: their decisions and the final fields. */
  function Run(putRate: int, capacity: int, b: Bucket, times: seq<int>): (r: (seq<bool>, Bucket))
    ensures |r.0| == |times|
    ensures r.1.preTime == LastOr(b.preTime, times)
    decreases |times|
  {
    if times == [] then ([], b)
    else
      var (ok, b') := Step(putRate, capacity, b, times[0]);
      var (rest, last) := Run(putRate, capacity, b', times[1..]);
      ([ok] + rest, last)
  }

  /** One call followed by the rest. */
  lemma RunCons(putRate: int, capacity: int, b: Bucket, t: int, rest: seq<int>)
    ensures var (ok, b') := Step(putRate, capacity, b, t);
            var after := Run(putRate, capacity, b', rest);
            Run(putRate, capacity, b, [t] + rest) == ([ok] + after.0, after.1)
  {
    assert ([t] + rest)[1..] == rest;
  }

  /**
    Calls less than a second apart, from a bucket within capacity: no token
    is added, so the first `bucket` calls are admitted and every later one
    is rejected.
   */
  lemma {:induction false} SubSecondDrain(putRate: int, capacity: int, b: Bucket, times: seq<int>)
    requires 0 <= b.bucket <= capacity
    requires SubSecondGaps(b.preTime, times)
    ensures var n := Min(|times|, b.bucket);
            var (d, last) := Run(putRate, capacity, b, times);
            d == AdmitFirst(n, |times|) && last.bucket == b.bucket - n
    decreases |times|
  {
    if times != [] {
      var n := Min(|times|, b.bucket);
      var b' := Step(putRate, capacity, b, times[0]).1;
      SubSecondDrain(putRate, capacity, b', times[1..]);
      AdmitFirstCons(n, |times|);
    }
  }

  /**
    A new limiter holds no token: if every call comes less than a second
    after the one before it (the first measured from construction at `t0`),
    every call is rejected.
   */
  lemma FreshLimiterStarves(putRate: int, capacity: int, t0: int, times: seq<int>)
    requires capacity >= 0
    requires SubSecondGaps(t0, times)
    ensures forall i :: 0 <= i < |times| ==> !Run(putRate, capacity, Bucket(t0, 0), times).0[i]
  {
    SubSecondDrain(putRate, capacity, Bucket(t0, 0), times);
  }

  /** A full bucket lets through a burst of `capacity` calls at one instant and rejects the next. */
  lemma FullBucketBurst(putRate: int, capacity: int, t: int)
    requires capacity >= 0
    ensures Run(putRate, capacity, Bucket(t, capacity), Repeat(t, capacity + 1)).0 == AdmitFirst(capacity, capacity + 1)
  {
    SameInstant(t, capacity + 1);
    SubSecondDrain(putRate, capacity, Bucket(t, capacity), Repeat(t, capacity + 1));
  }

  /**
    Over any run on a clock that does not go back, the bucket never goes
    negative, and admissions plus the tokens left never exceed the starting
    tokens plus `putRate` per whole second between the previous call and the
    last one.
   */
  lemma {:induction false} RunAccounting(putRate: int, capacity: int, b: Bucket, times: seq<int>)
    requires 0 <= b.bucket && putRate >= 0 && capacity >= 0
    requires Monotone(b.preTime, times)
    ensures var (d, last) := Run(putRate, capacity, b, times);
            0 <= last.bucket &&
            last.bucket + Admissions(d) <= b.bucket + putRate * WholeSeconds(LastOr(b.preTime, times) - b.preTime)
    decreases |times|
  {
    if times == [] {
      assert WholeSeconds(0) == 0;
    } else {
      var t := times[0];
      var (ok, b') := Step(putRate, capacity, b, t);
      RunAccounting(putRate, capacity, b', times[1..]);
      var (rest, last) := Run(putRate, capacity, b', times[1..]);
      assert ([ok] + rest)[1..] == rest;
      var end := LastOr(t, times[1..]);
      MonotoneLast(t, times[1..]);
      var s1, s2 := WholeSeconds(t - b.preTime), WholeSeconds(end - t);
      WholeSecondsSuperadditive(t - b.preTime, end - t);
      Distribute(putRate, s1, s2, WholeSeconds(end - b.preTime));
    }
  }

  /**
    The rate guarantee: on a clock that does not go back, a bucket holding
    `bucket` tokens admits at most `bucket` calls plus `putRate` per whole
    second elapsed.
   */
  lemma RateBound(putRate: int, capacity: int, b: Bucket, times: seq<int>)
    requires 0 <= b.bucket && putRate >= 0 && capacity >= 0
    requires Monotone(b.preTime, times)
    ensures Admissions(Run(putRate, capacity, b, times).0)
              <= b.bucket + putRate * WholeSeconds(LastOr(b.preTime, times) - b.preTime)
  {
    RunAccounting(putRate, capacity, b, times);
  }

  /**
    The code does not clamp a backward clock: an empty bucket whose clock
    goes back a second or more ends up with a negative count, which is not
    0, so the call is admitted and the count drops further.
   */
  lemma BackwardClockAdmitsFromEmpty(putRate: int, capacity: int, b: Bucket, now: int)
    requires putRate >= 1 && capacity >= 0 && b.bucket == 0
    requires now <= b.preTime - 1000
    ensures Step(putRate, capacity, b, now).0
    ensures Step(putRate, capacity, b, now).1.bucket < 0
  {
    var s := WholeSeconds(now - b.preTime);
    assert s <= -1;
    ScaleMonotone(putRate, s, -1);
  }

  /**
    The constructor does not reject a negative capacity: the refilled count
    is then negative, never 0, so every call is admitted and the count keeps
    falling.
   */
  lemma NegativeCapacityAdmits(putRate: int, capacity: int, b: Bucket, now: int)
    requires capacity < 0
    ensures Step(putRate, capacity, b, now).0
    ensures Step(putRate, capacity, b, now).1.bucket < capacity
  {
  }

  /**
    Put rate 1 and capacity 5, a full bucket at `t`: five calls at `t` are
    admitted, the sixth is rejected; 1000 ms later exactly one more is
    admitted.
   */
  lemma BurstThenThrottleScenario(t: int)
    ensures var (d, last) := Run(1, 5, Bucket(t, 5), Repeat(t, 6) + Repeat(t + 1000, 2));
            d == AdmitFirst(5, 6) + AdmitFirst(1, 2) && last == Bucket(t + 1000, 0)
  {
    var first, second := Repeat(t, 6), Repeat(t + 1000, 2);
    var empty := Bucket(t, 0);
    assert Run(1, 5, Bucket(t, 5), first) == (AdmitFirst(5, 6), empty) by {
      SameInstant(t, 6);
      SubSecondDrain(1, 5, Bucket(t, 5), first);
    }
    assert Run(1, 5, empty, second) == (AdmitFirst(1, 2), Bucket(t + 1000, 0)) by {
      assert second == [t + 1000] + Repeat(t + 1000, 1);
      RunCons(1, 5, empty, t + 1000, Repeat(t + 1000, 1));
      assert WholeSeconds(1000) == 1;
      assert Step(1, 5, empty, t + 1000) == (true, Bucket(t + 1000, 0));
      SameInstant(t + 1000, 1);
      SubSecondDrain(1, 5, Bucket(t + 1000, 0), Repeat(t + 1000, 1));
      AdmitFirstCons(1, 2);
    }
    RunAppend(1, 5, Bucket(t, 5), first, second);
  }

  /** Running two batches of calls one after the other. */
  lemma {:induction false} RunAppend(putRate: int, capacity: int, b: Bucket, x: seq<int>, y: seq<int>)
    ensures var first := Run(putRate, capacity, b, x);
            var second := Run(putRate, capacity, first.1, y);
            Run(putRate, capacity, b, x + y) == (first.0 + second.0, second.1)
    decreases |x|
  {
    if x != [] {
      assert (x + y)[1..] == x[1..] + y;
      var (ok, b') := Step(putRate, capacity, b, x[0]);
      RunAppend(putRate, capacity, b', x[1..], y);
      var first := Run(putRate, capacity, b', x[1..]);
      var second := Run(putRate, capacity, first.1, y);
      assert [ok] + (first.0 + second.0) == ([ok] + first.0) + second.0;
    } else {
      assert x + y == y;
      assert [] + Run(putRate, capacity, b, y).0 == Run(putRate, capacity, b, y).0;
    }
  }

  class TokenBucketLimiter {
    var preTime: int
    var putRate: int
    var capacity: int
    var bucket: int

    /** The fields `limit()` updates, as a value. */
    function Fields(): Bucket
      reads this
    {
      Bucket(preTime, bucket)
    }

    /** A new bucket with no token; `now` is the clock reading taken when it is created. */
    constructor (putRate: int, capacity: int, now: int)
      ensures this.putRate == putRate && this.capacity == capacity
      ensures preTime == now && bucket == 0
    {
      this.putRate := putRate;
      this.capacity := capacity;
      preTime := now;
      bucket := 0;
    }

    method Limit(now: int) returns (ok: bool)
      modifies this
      ensures putRate == old(putRate) && capacity == old(capacity)
      ensures (ok, Fields()) == Step(putRate, capacity, old(Fields()), now)
      ensures preTime == now && bucket <= capacity
      ensures !ok <==> old(Refilled(putRate, capacity, Fields(), now)) == 0
      ensures bucket == old(Refilled(putRate, capacity, Fields(), now)) - (if ok then 1 else 0)
      ensures old(bucket >= 0) && now >= old(preTime) && putRate >= 0 && capacity >= 0 ==> bucket >= 0
    {
      bucket := Min(capacity, bucket + WholeSeconds(now - preTime) * putRate);
      preTime := now;
      if bucket == 0 {
        return false;
      }
      bucket := bucket - 1;
      return true;
    }
  }
}
