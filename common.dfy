/**
  Helpers shared by the four limiters: the Java arithmetic they use
  (`Math.max`, `Math.min`, long division by 1000), the shape of a sequence
  of clock readings, and the bookkeeping of admit/reject decisions.
 */
module JavaMath {

  /** `Math.max` */
  function Max(a: int, b: int): (m: int)
    ensures m >= a && m >= b && (m == a || m == b)
  {
    if a >= b then a else b
  }

  /** `Math.min` */
  function Min(a: int, b: int): (m: int)
    ensures m <= a && m <= b && (m == a || m == b)
  {
    if a <= b then a else b
  }

  /**
    Whole seconds in a span of `ms` milliseconds, as Java's long division
    `ms / 1000` computes it: the quotient is truncated toward zero, so a
    negative span of less than a second also gives 0 (Dafny's own `/` is
    Euclidean and would give -1 there).
   */
  function WholeSeconds(ms: int): (s: int)
    ensures ms >= 0 ==> s >= 0 && s * 1000 <= ms < s * 1000 + 1000
    ensures ms < 0 ==> s <= 0 && s * 1000 - 1000 < ms <= s * 1000
    ensures s == 0 <==> -1000 < ms < 1000
  {
    if ms >= 0 then ms / 1000 else -((-ms) / 1000)
  }

  /** Splitting a non-negative span never gains a whole second. */
  lemma WholeSecondsSuperadditive(a: int, b: int)
    requires a >= 0 && b >= 0
    ensures WholeSeconds(a) + WholeSeconds(b) <= WholeSeconds(a + b)
  {
  }

  /** Scaling by a non-negative rate keeps the order of two counts. */
  lemma {:induction false} ScaleMonotone(rate: int, x: int, y: int)
    requires rate >= 0 && x <= y
    ensures rate * x <= rate * y
    decreases rate
  {
    if rate > 0 {
      ScaleMonotone(rate - 1, x, y);
      assert rate * x == (rate - 1) * x + x;
      assert rate * y == (rate - 1) * y + y;
    }
  }

  /** The arithmetic that joins one call's whole seconds to the rest of a run's. */
  lemma Distribute(rate: int, s1: int, s2: int, s: int)
    requires rate >= 0 && s1 + s2 <= s
    ensures s1 * rate + rate * s2 <= rate * s
  {
    ScaleMonotone(rate, s1 + s2, s);
    assert rate * (s1 + s2) == rate * s1 + rate * s2;
  }
}

module Decisions {

  /** `n` copies of `x`. */
  function Repeat<T>(x: T, n: nat): (r: seq<T>)
    ensures |r| == n
    ensures forall i :: 0 <= i < n ==> r[i] == x
  {
    seq(n, _ => x)
  }

  /** The decisions of `len` calls of which exactly the first `n` are admitted. */
  function AdmitFirst(n: nat, len: nat): (d: seq<bool>)
    requires n <= len
    ensures |d| == len
    ensures forall i :: 0 <= i < len ==> (d[i] <==> i < n)
  {
    seq(len, i => i < n)
  }

  /** Number of admitted calls in a sequence of decisions. */
  function Admissions(d: seq<bool>): (n: nat)
    ensures n <= |d|
  {
    if d == [] then 0 else (if d[0] then 1 else 0) + Admissions(d[1..])
  }

  lemma {:induction false} AdmissionsAppend(a: seq<bool>, b: seq<bool>)
    ensures Admissions(a + b) == Admissions(a) + Admissions(b)
    decreases |a|
  {
    if a != [] {
      assert (a + b)[1..] == a[1..] + b;
      AdmissionsAppend(a[1..], b);
    } else {
      assert a + b == b;
    }
  }

  /** Peeling the first call off `AdmitFirst`. */
  lemma AdmitFirstCons(n: nat, len: nat)
    requires n <= len && len >= 1
    ensures n > 0 ==> AdmitFirst(n, len) == [true] + AdmitFirst(n - 1, len - 1)
    ensures n == 0 ==> AdmitFirst(n, len) == [false] + AdmitFirst(0, len - 1)
  {
    if n > 0 {
      assert AdmitFirst(n, len) == [true] + AdmitFirst(n - 1, len - 1);
    } else {
      assert AdmitFirst(n, len) == [false] + AdmitFirst(0, len - 1);
    }
  }

  lemma {:induction false} AdmissionsAdmitFirst(n: nat, len: nat)
    requires n <= len
    ensures Admissions(AdmitFirst(n, len)) == n
    decreases len
  {
    if len > 0 {
      AdmitFirstCons(n, len);
      if n > 0 {
        AdmissionsAdmitFirst(n - 1, len - 1);
        assert AdmitFirst(n, len)[1..] == AdmitFirst(n - 1, len - 1);
      } else {
        AdmissionsAdmitFirst(0, len - 1);
        assert AdmitFirst(n, len)[1..] == AdmitFirst(0, len - 1);
      }
    }
  }
}

/** Shapes of a sequence of clock readings, each compared with the one before it. */
module Clock {
  import opened Decisions

  /** No reading goes back in time, starting from the reading `start`. */
  predicate Monotone(start: int, times: seq<int>)
    decreases |times|
  {
    times == [] || (start <= times[0] && Monotone(times[0], times[1..]))
  }

  /**
    Each reading is less than a second away from the one before it (in
    either direction), starting from the reading `start`.
   */
  predicate SubSecondGaps(start: int, times: seq<int>)
    decreases |times|
  {
    times == [] || (-1000 < times[0] - start < 1000 && SubSecondGaps(times[0], times[1..]))
  }

  /** The last reading, or `start` when there is none. */
  function LastOr(start: int, times: seq<int>): (t: int)
    ensures times != [] ==> t == times[|times| - 1]
    ensures times == [] ==> t == start
    decreases |times|
  {
    if times == [] then start else LastOr(times[0], times[1..])
  }

  /** A monotone clock never ends before it starts. */
  lemma {:induction false} MonotoneLast(start: int, times: seq<int>)
    requires Monotone(start, times)
    ensures start <= LastOr(start, times)
    decreases |times|
  {
    if times != [] {
      MonotoneLast(times[0], times[1..]);
    }
  }

  /** Calls at one instant are both monotone and less than a second apart. */
  lemma {:induction false} SameInstant(t: int, n: nat)
    ensures Monotone(t, Repeat(t, n)) && SubSecondGaps(t, Repeat(t, n))
    decreases n
  {
    if n > 0 {
      assert Repeat(t, n)[1..] == Repeat(t, n - 1);
      SameInstant(t, n - 1);
    }
  }
}
