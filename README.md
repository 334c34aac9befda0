# Single-machine rate limiters, modelled in Dafny

The repository holds four in-process rate limiters. Each one decides, on each call of `limit()`, whether one request may proceed now:

- **Fixed window counter** (`CountLimiter`). A window opens at `firstReqTime` and lasts `intervalWindow` ms. Within it, requests are admitted while `count + 1 <= max`. A request arriving strictly after `firstReqTime + intervalWindow` opens a new window and is admitted with `count = 1`.
- **Sliding window log** (`SlidingWindowLimiter`). A FIFO `list` holds the clock readings of admitted requests, at most `max` of them. While the list has room, the request is admitted and appended. When the list is full, the request is admitted only if the oldest entry is more than `intervalWindow` ms old; that entry is then evicted and `now` appended.
- **Leaky bucket** (`LeakyBucketLimiter`). The `water` level first drains by `leakRate` per whole second since the previous call (`preTime`), never below 0. The call always records `now` in `preTime`. The request is admitted, adding one unit, when one more unit fits under `capacity`.
- **Token bucket** (`TokenBucketLimiter`). The `bucket` first gains `putRate` tokens per whole second since `preTime`, capped at `capacity`. The call records `now` in `preTime`. The request is rejected when the bucket is exactly 0; otherwise it is admitted and takes one token. A new bucket holds 0 tokens.

Each limiter is a module with three layers:

- a Dafny `class` with the Java fields and a `Limit(now)` method (`modifies this`) written as the Java code is;
- a pure `Step` function over a datatype of the mutable fields, which `Limit`'s postcondition equals;
- a `Run` function that feeds a sequence of clock readings through `Step`. The lemmas about whole traces of calls are stated over `Run`.

The clock is a parameter. `now` is passed to `Limit`, and the constructors take the reading taken at creation, which the Java field initialisers store in `firstReqTime` or `preTime`.

Java's long division `(now - preTime) / 1000` truncates toward zero. `JavaMath.WholeSeconds` models it exactly, so the operations need no precondition on the clock. Properties that hold only on a clock that does not go back say so in their hypotheses (`Clock.Monotone`, `now >= preTime`).

`common.dfy` holds the shared helpers:

- `JavaMath`: `Math.max`, `Math.min` and the truncating division.
- `Clock`: the shapes of a sequence of clock readings.
- `Decisions`: counting admissions, and `AdmitFirst(n, len)`, the decisions of `len` calls of which exactly the first `n` are admitted.

### Where the code differs from the usual description of these strategies

The model follows the code in each of these cases:

- The fixed window resets only when `now > firstReqTime + intervalWindow` (strict), not at `>=`.
- The token bucket rejects only when the refilled count is exactly 0, not when it is below 1.
- A backward clock step is not clamped to zero elapsed time. A full leaky bucket then overfills past `capacity` (`LeakyBucket.BackwardClockOverfills`). An empty token bucket goes negative and still admits (`TokenBucket.BackwardClockAdmitsFromEmpty`).
- The constructors do not reject non-positive parameters. With `max <= 0`, the fixed window still admits the request that opens each window. With `max <= 0`, the sliding window's first call on an empty list reaches `getFirst()` and throws; this is modelled as the outcome `NoSuchElement`, with the list unchanged.
- With `capacity < 0`, the token bucket's refilled count is negative and so never 0: every call is admitted, including those on a fresh limiter (`TokenBucket.NegativeCapacityAdmits`). This is why `FreshLimiterStarves`, `FullBucketBurst` and `RunAccounting` assume `capacity >= 0`.

## Model

| member | source | states |
|---|---|---|
| `JavaMath.WholeSeconds` | src/com/study/limiter/LeakyBucketLimiter.java:60 | elapsed ms divided by 1000 truncated toward zero: for a non-negative span `s*1000 <= ms < s*1000+1000`, for a negative one `s*1000-1000 < ms <= s*1000`; the result is 0 exactly when the span is under a second either way |
| `FixedWindow.Step` | src/com/study/limiter/CountLimiter.java:62-74 | admitted iff the window expired (strict `>`) or `count + 1 <= max`; an expired window resets to `(now, 1)` and admits; an unexpired window with room admits as `(firstReqTime, count + 1)`; a rejection changes nothing; `0 <= count <= max` is kept when `max >= 1`; `firstReqTime` changes only on a reset and then to `now`, never backwards when `intervalWindow >= 0` |
| `FixedWindow.WithinWindow` | src/com/study/limiter/CountLimiter.java:69-73 | while no call passes the window end, exactly the first `max - count` calls are admitted and the rest rejected; the window start stays and the count rises by the number admitted |
| `FixedWindow.AtMostMaxPerWindow` | src/com/study/limiter/CountLimiter.java:62-74 | between a reset and the next reset, exactly `min(calls, max)` calls are admitted, so at most `max` (for `max >= 1`) |
| `FixedWindow.BoundaryBurst` | src/com/study/limiter/CountLimiter.java:18-21 | for any `intervalWindow >= 0` and `max >= 1`, `max` calls at the last instant of a fresh window and `max` calls 1 ms later are all admitted: `2*max` admissions in 1 ms |
| `FixedWindow.WindowResetScenario` | src/com/study/limiter/CountLimiter.java:62-74 | window 1000 ms, max 2, created at 0: calls at 0, 100, 200, 1001 give admit, admit, reject, admit, ending with window `(1001, 1)` |
| `FixedWindow.CountLimiter.constructor` | src/com/study/limiter/CountLimiter.java:46-56 | stores the parameters; `count` starts at 0 and `firstReqTime` at the creation reading |
| `FixedWindow.CountLimiter.Limit` | src/com/study/limiter/CountLimiter.java:62-74 | equals `Step`; reset branch sets `(now, 1)` and admits; in-window with room increments `count` only and admits; in-window without room rejects and changes nothing; `intervalWindow` and `max` unchanged; the count bound and forward-only window start hold |
| `SlidingWindow.Step` | src/com/study/limiter/SlidingWindowLimiter.java:51-68 | a list with room admits; only an admission changes the list; `NoSuchElement` exactly when the list has no room and is empty; a full list rejects iff `now - list[0] <= intervalWindow`; an admission appends `now` to the list, or to the list without its oldest entry when full; the length never decreases and `<= max` is kept |
| `SlidingWindow.StepKeepsSorted` | src/com/study/limiter/SlidingWindowLimiter.java:54-67 | when `now` is not before the newest entry, a sorted list stays sorted |
| `SlidingWindow.StepSpaced` | src/com/study/limiter/SlidingWindowLimiter.java:59-67 | one call keeps the list equal to the last `min(|history|, max)` admissions and keeps every two admissions `max` apart more than `intervalWindow` apart in time |
| `SlidingWindow.RunSpaced` | src/com/study/limiter/SlidingWindowLimiter.java:51-68 | the same two facts hold over any sequence of calls, for the history extended by the admitted readings |
| `SlidingWindow.TrailingWindow` | src/com/study/limiter/SlidingWindowLimiter.java:6-9 | from a new limiter on a clock that does not go back, admissions `i..j` within `intervalWindow` of each other number at most `max`: no trailing window holds more than `max` admissions |
| `SlidingWindow.StepRoom` | src/com/study/limiter/SlidingWindowLimiter.java:54-67 | when the list holds the last admissions of a sorted history, one call is admitted exactly when fewer than `max` of those admissions lie at most `intervalWindow` ms before `now` |
| `SlidingWindow.WithinSuffix` | src/com/study/limiter/SlidingWindowLimiter.java:59-60 | in sorted readings, at least `m` lie within the window exactly when the `m`-th newest does, so testing the oldest of the last `max` entries decides the count |
| `SlidingWindow.AdmittedIffRoom` | src/com/study/limiter/SlidingWindowLimiter.java:10 | from a new limiter on a clock that does not go back, the call at `times[k]` is admitted exactly when fewer than `max` of the earlier admissions lie at most `intervalWindow` ms before it (for every `max`, including `max <= 0`, where nothing is admitted) |
| `SlidingWindow.SlidingScenario` | src/com/study/limiter/SlidingWindowLimiter.java:51-68 | window 1000 ms, max 2: calls at 0, 500, 600, 1001 give admit, admit, reject, admit, leaving the list `[500, 1001]` |
| `SlidingWindow.SlidingWindowLimiter.constructor` | src/com/study/limiter/SlidingWindowLimiter.java:30-44 | stores the parameters; the list starts empty |
| `SlidingWindow.SlidingWindowLimiter.Limit` | src/com/study/limiter/SlidingWindowLimiter.java:51-68 | equals `Step`; not full: appends `now` and admits; full with an empty list: `NoSuchElement`, nothing changes; full and head within the window: rejects, list unchanged; otherwise evicts the head, appends `now`, size unchanged, admits; `intervalWindow` and `max` unchanged |
| `LeakyBucket.Drained` | src/com/study/limiter/LeakyBucketLimiter.java:60 | the drained level is never negative; it is at least `water - wholeSeconds*leakRate`; on a forward clock with `leakRate >= 0` it is at most `max(0, water)`; a gap under a second either way drains nothing |
| `LeakyBucket.Step` | src/com/study/limiter/LeakyBucketLimiter.java:57-69 | `preTime := now` on every call; admitted iff drained + 1 <= `capacity`; the new level is the drained level plus 1 on admission and plus 0 on rejection; the level is never negative; `0 <= water <= capacity` is kept on a forward clock with `leakRate >= 0` |
| `LeakyBucket.SubSecondNeverDrains` | src/com/study/limiter/LeakyBucketLimiter.java:60-61 | calls each under a second after the previous one never lower the level: the final level is the starting level plus the number admitted |
| `LeakyBucket.SubSecondFill` | src/com/study/limiter/LeakyBucketLimiter.java:60-68 | for such calls from a level in `[0, capacity]`, exactly the first `capacity - water` are admitted and the rest rejected |
| `LeakyBucket.BurstFromEmpty` | src/com/study/limiter/LeakyBucketLimiter.java:57-69 | from an empty bucket, `capacity` calls at one instant are admitted and the next is rejected |
| `LeakyBucket.RunAccounting` | src/com/study/limiter/LeakyBucketLimiter.java:57-69 | over any run on a forward clock, the level stays in `[0, capacity]`, and start level + admissions <= final level + `leakRate` × whole seconds elapsed |
| `LeakyBucket.RateBound` | src/com/study/limiter/LeakyBucketLimiter.java:7-11 | on a forward clock, admissions <= `capacity - water` + `leakRate` × whole seconds elapsed: a constant outflow rate |
| `LeakyBucket.BackwardClockOverfills` | src/com/study/limiter/LeakyBucketLimiter.java:60-66 | a full bucket whose clock goes back a second or more rejects the call, and its level ends above `capacity` |
| `LeakyBucket.DrainScenario` | src/com/study/limiter/LeakyBucketLimiter.java:57-69 | rate 1, capacity 5, empty at `t`: six calls at `t` admit five, then 3000 ms later three of four are admitted, ending at level 5 |
| `LeakyBucket.LeakyBucketLimiter.constructor` | src/com/study/limiter/LeakyBucketLimiter.java:30-50 | stores the parameters; `water` starts at 0 and `preTime` at the creation reading |
| `LeakyBucket.LeakyBucketLimiter.Limit` | src/com/study/limiter/LeakyBucketLimiter.java:57-69 | equals `Step`; `preTime == now`; admitted iff drained + 1 <= `capacity`; new level is drained plus 1 or 0; never negative; bound kept on a forward clock; `leakRate` and `capacity` unchanged |
| `TokenBucket.Refilled` | src/com/study/limiter/TokenBucketLimiter.java:49 | the refilled count is at most `capacity` and at most `bucket + wholeSeconds*putRate`; on a forward clock with non-negative parameters it is at least `min(bucket, capacity) >= 0`; a gap under a second either way adds nothing |
| `TokenBucket.Step` | src/com/study/limiter/TokenBucketLimiter.java:46-56 | `preTime := now` on every call; rejected iff the refilled count is 0, and then it stays 0; an admission takes exactly one token; the count never exceeds `capacity`; it stays non-negative on a forward clock with non-negative parameters |
| `TokenBucket.SubSecondDrain` | src/com/study/limiter/TokenBucketLimiter.java:49-55 | calls each under a second after the previous one add no token: exactly the first `bucket` calls are admitted and the rest rejected, and the count drops by the number admitted |
| `TokenBucket.FreshLimiterStarves` | src/com/study/limiter/TokenBucketLimiter.java:24-55 | a new limiter holds 0 tokens, so if every call is under a second after the previous one (the first measured from creation), every call is rejected |
| `TokenBucket.FullBucketBurst` | src/com/study/limiter/TokenBucketLimiter.java:6-10 | a full bucket admits a burst of `capacity` calls at one instant and rejects the next |
| `TokenBucket.RunAccounting` | src/com/study/limiter/TokenBucketLimiter.java:46-56 | over any run on a forward clock, the count stays non-negative, and tokens left + admissions <= starting tokens + `putRate` × whole seconds elapsed |
| `TokenBucket.RateBound` | src/com/study/limiter/TokenBucketLimiter.java:8-10 | on a forward clock, admissions <= starting tokens + `putRate` × whole seconds elapsed |
| `TokenBucket.BackwardClockAdmitsFromEmpty` | src/com/study/limiter/TokenBucketLimiter.java:49-55 | an empty bucket whose clock goes back a second or more gets a negative count, which is not 0, so the call is admitted and the count stays negative |
| `TokenBucket.NegativeCapacityAdmits` | src/com/study/limiter/TokenBucketLimiter.java:41-55 | with `capacity < 0` every call is admitted and the count ends below `capacity`, because the refilled count is never 0 |
| `TokenBucket.BurstThenThrottleScenario` | src/com/study/limiter/TokenBucketLimiter.java:46-56 | rate 1, capacity 5, full at `t`: six calls at `t` admit five, then 1000 ms later exactly one of two is admitted, leaving 0 tokens |
| `TokenBucket.TokenBucketLimiter.constructor` | src/com/study/limiter/TokenBucketLimiter.java:24-44 | stores the parameters; `bucket` starts at 0 and `preTime` at the creation reading |
| `TokenBucket.TokenBucketLimiter.Limit` | src/com/study/limiter/TokenBucketLimiter.java:46-56 | equals `Step`; `preTime == now`; `bucket <= capacity`; rejected iff the refilled count is 0; new count is the refilled count minus 1 or 0; stays non-negative on a forward clock; `putRate` and `capacity` unchanged |

## Left out

- Reading the clock (`System.currentTimeMillis()`): it becomes the `now` parameter of `Limit` and of each constructor.
- The `main` methods: they are demonstration drivers that print the indices of rejected calls (the leaky bucket one also sleeps 100 ms between calls).
- Getters and setters: the setters overwrite state arbitrarily, and `setList` aliases a caller's list, so they would break every invariant above.
- `Serializable` and `serialVersionUID`: Java serialization plumbing with no bearing on the decisions.
- Thread safety: the code is not synchronised, and the model describes one caller at a time.
- The Redis/Lua distributed variants: they appear only in comments.
- Java `int`/`long` overflow and the narrowing `(int)` cast of the elapsed-seconds quotient: all arithmetic is on unbounded integers.
- The `LinkedList` itself: the sliding window's list is a `seq<int>` that `Limit` reassigns, so the O(1) cost of the deque operations is not modelled.
