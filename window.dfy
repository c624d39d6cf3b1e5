/**
 * The sliding-window-log admission decision of `isRequestAllowed`, stated on the
 * logical contents of one key's queue, and what it guarantees over a run of calls.
 *
 * A log is the queue's contents, oldest first. `now` is the caller's clock reading.
 */
module SlidingWindow {

  /** Policy of a limiter: at most `limit` requests per `window`, logs of `capacity` slots. */
  datatype Policy = Policy(limit: int, window: int, capacity: nat)

  /** Outcome of one admission check: the answer and the log that is left behind. */
  datatype Decision = Decision(allowed: bool, log: seq<int>)

  predicate NonDecreasing(s: seq<int>)
  {
    forall i, j :: 0 <= i < j < |s| ==> s[i] <= s[j]
  }

  /** Largest log length the admission check ever leaves: min(limit, capacity), and 0 for limit <= 0. */
  function MaxLogLength(p: Policy): nat
  {
    if p.limit <= 0 then 0
    else if p.limit < p.capacity then p.limit
    else p.capacity
  }

  /**
   * The eviction loop: drops head timestamps while `now - head >= window`; the new head
   * (if any) has not expired.
   */
  function Evict(log: seq<int>, now: int, window: int): (live: seq<int>)
    ensures |live| <= |log|
    ensures live != [] ==> now - live[0] < window
    decreases |log|
  {
    if log != [] && now - log[0] >= window then Evict(log[1..], now, window) else log
  }

  /** Eviction removes a prefix of the log, and every timestamp in that prefix had expired. */
  lemma {:induction false} EvictIsSuffix(log: seq<int>, now: int, window: int)
    ensures var live := Evict(log, now, window);
            live == log[|log| - |live|..] && forall i :: 0 <= i < |log| - |live| ==> now - log[i] >= window
    decreases |log|
  {
    if log != [] && now - log[0] >= window {
      EvictIsSuffix(log[1..], now, window);
      var live := Evict(log, now, window);
      assert log[1..][|log| - 1 - |live|..] == log[|log| - |live|..];
    }
  }

  /**
   * One call of `isRequestAllowed` on a key whose queue holds `log`: evict, deny when the
   * live log already has `limit` entries, otherwise enqueue `now` (which the queue drops
   * when it is full) and allow.
   */
  function Admit(log: seq<int>, now: int, p: Policy): (d: Decision)
    ensures d.allowed <==> |Evict(log, now, p.window)| < p.limit
    ensures p.limit <= 0 ==> !d.allowed
    ensures |log| <= p.capacity ==> |d.log| <= p.capacity
  {
    var live := Evict(log, now, p.window);
    if |live| >= p.limit then Decision(false, live)
    else Decision(true, if |live| == p.capacity then live else live + [now])
  }

  /** The timestamps of `s`, in order, that are younger than the window at time `now`. */
  function Recent(s: seq<int>, now: int, window: int): (r: seq<int>)
    ensures |r| <= |s|
    decreases |s|
  {
    if s == [] then []
    else (if now - s[0] < window then [s[0]] else []) + Recent(s[1..], now, window)
  }

  lemma {:induction false} RecentConcat(a: seq<int>, b: seq<int>, now: int, window: int)
    ensures Recent(a + b, now, window) == Recent(a, now, window) + Recent(b, now, window)
    decreases |a|
  {
    if a != [] {
      assert (a + b)[1..] == a[1..] + b;
      RecentConcat(a[1..], b, now, window);
    } else {
      assert a + b == b;
    }
  }

  /** Filtering at an earlier time and then at a later one is filtering at the later one. */
  lemma {:induction false} RecentOfRecent(s: seq<int>, earlier: int, now: int, window: int)
    requires earlier <= now
    ensures Recent(Recent(s, earlier, window), now, window) == Recent(s, now, window)
    decreases |s|
  {
    if s != [] {
      var head := if earlier - s[0] < window then [s[0]] else [];
      RecentConcat(head, Recent(s[1..], earlier, window), now, window);
      RecentOfRecent(s[1..], earlier, now, window);
    }
  }

  /** On a log recorded in non-decreasing order, eviction removes exactly the expired timestamps. */
  lemma {:induction false} EvictSortedIsRecent(log: seq<int>, now: int, window: int)
    requires NonDecreasing(log)
    ensures Evict(log, now, window) == Recent(log, now, window)
    decreases |log|
  {
    if log != [] {
      if now - log[0] >= window {
        EvictSortedIsRecent(log[1..], now, window);
      } else {
        RecentOfFresh(log, now, window);
      }
    }
  }

  lemma {:induction false} RecentOfFresh(s: seq<int>, now: int, window: int)
    requires forall i :: 0 <= i < |s| ==> now - s[i] < window
    ensures Recent(s, now, window) == s
    decreases |s|
  {
    if s != [] {
      RecentOfFresh(s[1..], now, window);
    }
  }

  /** Recent keeps exactly the members of `s` that are younger than the window. */
  lemma {:induction false} RecentMembers(s: seq<int>, now: int, window: int)
    ensures forall x :: x in Recent(s, now, window) <==> x in s && now - x < window
    decreases |s|
  {
    if s != [] {
      RecentMembers(s[1..], now, window);
      assert s == [s[0]] + s[1..];
    }
  }

  /**
   * Eviction correctness: on an ordered log the timestamps eviction keeps are exactly those
   * younger than the window.
   */
  lemma EvictedLogIsInWindow(log: seq<int>, now: int, window: int)
    requires NonDecreasing(log)
    ensures forall x :: x in Evict(log, now, window) <==> x in log && now - x < window
  {
    EvictSortedIsRecent(log, now, window);
    RecentMembers(log, now, window);
  }

  /** Evicting at an earlier time before evicting at a later one changes nothing. */
  lemma {:induction false} EvictTwice(log: seq<int>, earlier: int, now: int, window: int)
    requires earlier <= now
    ensures Evict(Evict(log, earlier, window), now, window) == Evict(log, now, window)
    decreases |log|
  {
    if log != [] && earlier - log[0] >= window {
      EvictTwice(log[1..], earlier, now, window);
    }
  }

  /** A denial leaves the queue as if the denied call had never been made, for any later call. */
  lemma DeniedCallIsInvisible(log: seq<int>, at: int, later: int, p: Policy)
    requires !Admit(log, at, p).allowed && at <= later
    ensures Admit(Admit(log, at, p).log, later, p) == Admit(log, later, p)
  {
    EvictTwice(log, at, later, p.window);
  }

  /** The queue never holds more than min(limit, capacity) timestamps. */
  lemma AdmitKeepsBound(log: seq<int>, now: int, p: Policy)
    requires |log| <= MaxLogLength(p)
    ensures |Admit(log, now, p).log| <= MaxLogLength(p)
  {
  }

  lemma AppendKeepsOrder(s: seq<int>, x: int)
    requires NonDecreasing(s) && forall i :: 0 <= i < |s| ==> s[i] <= x
    ensures NonDecreasing(s + [x])
  {
  }

  /** Eviction keeps a log ordered and bounded by the same time. */
  lemma EvictKeepsOrder(log: seq<int>, now: int, window: int, bound: int)
    requires NonDecreasing(log) && forall i :: 0 <= i < |log| ==> log[i] <= bound
    ensures var live := Evict(log, now, window);
            NonDecreasing(live) && forall i :: 0 <= i < |live| ==> live[i] <= bound
  {
    EvictIsSuffix(log, now, window);
  }

  /** Calls made in non-decreasing time keep the log ordered. */
  lemma AdmitKeepsOrder(log: seq<int>, now: int, p: Policy)
    requires NonDecreasing(log)
    requires forall i :: 0 <= i < |log| ==> log[i] <= now
    ensures NonDecreasing(Admit(log, now, p).log)
    ensures forall i :: 0 <= i < |Admit(log, now, p).log| ==> Admit(log, now, p).log[i] <= now
  {
    var live := Evict(log, now, p.window);
    EvictKeepsOrder(log, now, p.window, now);
    if |live| < p.limit && |live| != p.capacity {
      AppendKeepsOrder(live, now);
    }
  }

  /** The state of one key after a run of calls at `times`, starting from a fresh queue. */
  datatype Trace = Trace(log: seq<int>, decisions: seq<bool>, admitted: seq<int>)

  /** One more call, at `now`, after the run summarised by `prev`. */
  function Step(prev: Trace, now: int, p: Policy): Trace
  {
    var d := Admit(prev.log, now, p);
    Trace(d.log, prev.decisions + [d.allowed], prev.admitted + if d.allowed then [now] else [])
  }

  function Replay(times: seq<int>, p: Policy): (t: Trace)
    ensures |t.decisions| == |times|
    decreases |times|
  {
    if times == [] then Trace([], [], [])
    else Step(Replay(times[..|times| - 1], p), times[|times| - 1], p)
  }

  lemma ReplaySnoc(times: seq<int>, now: int, p: Policy)
    ensures Replay(times + [now], p) == Step(Replay(times, p), now, p)
  {
    assert (times + [now])[..|times|] == times;
  }

  /** The replay of one more call of a run extends the replay of the calls before it by one Step. */
  lemma ReplayPrefix(times: seq<int>, i: nat, p: Policy)
    requires i < |times|
    ensures Replay(times[..i + 1], p) == Step(Replay(times[..i], p), times[i], p)
  {
    assert times[..i + 1] == times[..i] + [times[i]];
    ReplaySnoc(times[..i], times[i], p);
  }

  /** Calls made in non-decreasing time leave an ordered log whose entries are not later than the last call. */
  lemma {:induction false} ReplayKeepsOrder(times: seq<int>, p: Policy, bound: int)
    requires NonDecreasing(times)
    requires forall i :: 0 <= i < |times| ==> times[i] <= bound
    ensures NonDecreasing(Replay(times, p).log)
    ensures forall i :: 0 <= i < |Replay(times, p).log| ==> Replay(times, p).log[i] <= bound
    decreases |times|
  {
    if times != [] {
      var prefix, now := times[..|times| - 1], times[|times| - 1];
      ReplayKeepsOrder(prefix, p, now);
      AdmitKeepsOrder(Replay(prefix, p).log, now, p);
    }
  }

  /** Along any run the queue holds at most min(limit, capacity) timestamps. */
  lemma {:induction false} ReplayKeepsBound(times: seq<int>, p: Policy)
    ensures |Replay(times, p).log| <= MaxLogLength(p)
    decreases |times|
  {
    if times != [] {
      var prefix, now := times[..|times| - 1], times[|times| - 1];
      ReplayKeepsBound(prefix, p);
      AdmitKeepsBound(Replay(prefix, p).log, now, p);
    }
  }

  /** The denied case of LiveLogStep. */
  lemma LiveLogDenied(live: seq<int>, admitted: seq<int>, now: int, at: int, window: int)
    requires now <= at && NonDecreasing(live)
    requires live == Recent(admitted, now, window)
    ensures Evict(live, at, window) == Recent(admitted, at, window)
  {
    RecentOfRecent(admitted, now, at, window);
    EvictSortedIsRecent(live, at, window);
  }

  /** The allowed case of LiveLogStep. */
  lemma LiveLogAllowed(live: seq<int>, admitted: seq<int>, now: int, at: int, window: int)
    requires now <= at && NonDecreasing(live) && forall i :: 0 <= i < |live| ==> live[i] <= now
    requires live == Recent(admitted, now, window)
    ensures Evict(live + [now], at, window) == Recent(admitted + [now], at, window)
  {
    RecentOfRecent(admitted, now, at, window);
    AppendKeepsOrder(live, now);
    EvictSortedIsRecent(live + [now], at, window);
    RecentConcat(live, [now], at, window);
    RecentConcat(admitted, [now], at, window);
  }

  /** One call preserves the correspondence between the live log and the admitted timestamps. */
  lemma LiveLogStep(log: seq<int>, admitted: seq<int>, now: int, at: int, p: Policy)
    requires p.limit <= p.capacity && now <= at
    requires NonDecreasing(log) && forall i :: 0 <= i < |log| ==> log[i] <= now
    requires Evict(log, now, p.window) == Recent(admitted, now, p.window)
    ensures var d := Admit(log, now, p);
            Evict(d.log, at, p.window) == Recent(admitted + if d.allowed then [now] else [], at, p.window)
  {
    var live := Evict(log, now, p.window);
    EvictKeepsOrder(log, now, p.window, now);
    if |live| < p.limit {
      assert Admit(log, now, p) == Decision(true, live + [now]);
      LiveLogAllowed(live, admitted, now, at, p.window);
    } else {
      assert Admit(log, now, p) == Decision(false, live);
      LiveLogDenied(live, admitted, now, at, p.window);
      assert admitted + [] == admitted;
    }
  }

  /**
   * The live log is the record of admissions: at any moment `at` no earlier than the calls,
   * evicting the log leaves exactly the admitted timestamps younger than the window
   * (provided the limit fits in the queue, so no admitted timestamp was dropped).
   */
  lemma {:induction false} LiveLogIsRecentAdmissions(times: seq<int>, p: Policy, at: int)
    requires p.limit <= p.capacity
    requires NonDecreasing(times)
    requires forall i :: 0 <= i < |times| ==> times[i] <= at
    ensures Evict(Replay(times, p).log, at, p.window) == Recent(Replay(times, p).admitted, at, p.window)
    decreases |times|
  {
    if times != [] {
      var prefix, now := times[..|times| - 1], times[|times| - 1];
      LiveLogIsRecentAdmissions(prefix, p, now);
      ReplayKeepsOrder(prefix, p, now);
      LiveLogStep(Replay(prefix, p).log, Replay(prefix, p).admitted, now, at, p);
    }
  }

  /**
   * Sliding-window fairness: for calls in non-decreasing time, the admitted requests in the
   * trailing window ending at any moment `at` no earlier than the last call are never more
   * than `limit`.
   */
  lemma SlidingWindowFairness(times: seq<int>, p: Policy, at: int)
    requires p.limit <= p.capacity
    requires NonDecreasing(times)
    requires forall i :: 0 <= i < |times| ==> times[i] <= at
    ensures |Recent(Replay(times, p).admitted, at, p.window)| <= if p.limit <= 0 then 0 else p.limit
  {
    LiveLogIsRecentAdmissions(times, p, at);
    ReplayKeepsBound(times, p);
  }

  lemma SliceSnoc<T>(s: seq<T>, k: nat, x: T)
    requires k <= |s|
    ensures (s + [x])[k..] == s[k..] + [x]
  {
  }

  /**
   * Idempotent denial: removing a denied call from a run changes neither the later decisions
   * nor the log they leave.
   */
  lemma {:induction false} DropDeniedCall(before: seq<int>, denied: int, after: seq<int>, p: Policy)
    requires after != [] && denied <= after[0]
    requires !Admit(Replay(before, p).log, denied, p).allowed
    ensures DeniedCallDropped(before, denied, after, p)
    decreases |after|
  {
    if |after| == 1 {
      assert after == [after[0]];
      DropDeniedCallBase(before, denied, after[0], p);
    } else {
      DropDeniedCall(before, denied, after[..|after| - 1], p);
      DropDeniedCallExtend(before, denied, after, p);
    }
  }

  /** Removing the call at `denied` leaves the final log and the later decisions as they were. */
  ghost predicate DeniedCallDropped(before: seq<int>, denied: int, after: seq<int>, p: Policy)
  {
    Replay(before + [denied] + after, p).log == Replay(before + after, p).log &&
    Replay(before + [denied] + after, p).decisions
      == Replay(before, p).decisions + [false] + Replay(before + after, p).decisions[|before|..]
  }

  lemma DropDeniedCallExtend(before: seq<int>, denied: int, after: seq<int>, p: Policy)
    requires |after| >= 2
    requires DeniedCallDropped(before, denied, after[..|after| - 1], p)
    ensures DeniedCallDropped(before, denied, after, p)
  {
    var shorter, last := after[..|after| - 1], after[|after| - 1];
    assert after == shorter + [last];
    assert before + [denied] + after == (before + [denied] + shorter) + [last];
    assert before + after == (before + shorter) + [last];
    ReplaySnoc(before + [denied] + shorter, last, p);
    ReplaySnoc(before + shorter, last, p);
    DropDeniedCallNext(Replay(before + [denied] + shorter, p), Replay(before + shorter, p), |before|,
                       Replay(before, p).decisions + [false], last, p);
  }

  lemma DropDeniedCallBase(before: seq<int>, denied: int, next: int, p: Policy)
    requires denied <= next
    requires !Admit(Replay(before, p).log, denied, p).allowed
    ensures DeniedCallDropped(before, denied, [next], p)
  {
    assert before + [denied] + [next] == (before + [denied]) + [next];
    ReplaySnoc(before, denied, p);
    ReplaySnoc(before + [denied], next, p);
    ReplaySnoc(before, next, p);
    DropDeniedCallFirst(Replay(before, p), denied, next, p);
  }

  /** The call right after the denied one sees the same log as if the denial had not happened. */
  lemma DropDeniedCallFirst(prev: Trace, denied: int, next: int, p: Policy)
    requires denied <= next
    requires !Admit(prev.log, denied, p).allowed
    ensures Step(Step(prev, denied, p), next, p).log == Step(prev, next, p).log
    ensures Step(Step(prev, denied, p), next, p).decisions
         == prev.decisions + [false] + Step(prev, next, p).decisions[|prev.decisions|..]
  {
    DeniedCallIsInvisible(prev.log, denied, next, p);
    var allowed := Admit(prev.log, next, p).allowed;
    assert (prev.decisions + [allowed])[|prev.decisions|..] == [allowed];
  }

  /** Two runs that agree on their log keep agreeing, and their decisions keep the same offset. */
  lemma DropDeniedCallNext(with: Trace, without: Trace, k: nat, head: seq<bool>, next: int, p: Policy)
    requires with.log == without.log
    requires k <= |without.decisions|
    requires with.decisions == head + without.decisions[k..]
    ensures Step(with, next, p).log == Step(without, next, p).log
    ensures Step(with, next, p).decisions == head + Step(without, next, p).decisions[k..]
  {
    var allowed := Admit(without.log, next, p).allowed;
    SliceSnoc(without.decisions, k, allowed);
  }

  /** `n` calls at the same instant. */
  function Repeat(t: int, n: nat): (s: seq<int>)
    ensures |s| == n
  {
    if n == 0 then [] else Repeat(t, n - 1) + [t]
  }

  lemma {:induction false} RepeatAll(t: int, n: nat)
    ensures forall i :: 0 <= i < n ==> Repeat(t, n)[i] == t
  {
    if n > 0 { RepeatAll(t, n - 1); }
  }

  lemma OverCapacityStep(t: int, m: nat, p: Policy)
    requires 0 < p.window && p.capacity < p.limit && m <= p.capacity
    ensures Admit(Repeat(t, m), t, p) == Decision(true, if m < p.capacity then Repeat(t, m + 1) else Repeat(t, m))
  {
    RepeatAll(t, m);
    assert Evict(Repeat(t, m), t, p.window) == Repeat(t, m);
  }

  lemma {:induction false} OverCapacityRun(t: int, n: nat, p: Policy)
    requires 0 < p.window && p.capacity < p.limit
    ensures Replay(Repeat(t, n), p).admitted == Repeat(t, n)
    ensures Replay(Repeat(t, n), p).log == Repeat(t, if n < p.capacity then n else p.capacity)
    decreases n
  {
    if n > 0 {
      var m := if n - 1 < p.capacity then n - 1 else p.capacity;
      var times := Repeat(t, n);
      assert times[..n - 1] == Repeat(t, n - 1);
      assert times[n - 1] == t;
      OverCapacityRun(t, n - 1, p);
      var prev := Replay(Repeat(t, n - 1), p);
      assert prev.log == Repeat(t, m);
      OverCapacityStep(t, m, p);
      var d := Admit(prev.log, t, p);
      assert Replay(times, p) == Trace(d.log, prev.decisions + [d.allowed], prev.admitted + [t]);
      assert Repeat(t, n - 1) + [t] == Repeat(t, n);
    }
  }

  /**
   * As written, `createRateLimiter` accepts a limit above the queue capacity; then `limit + 1`
   * calls at one instant are all allowed, more than `limit` in one window.
   */
  lemma OverCapacityAdmitsBeyondLimit(t: int, p: Policy)
    requires 0 < p.window && p.capacity < p.limit
    ensures NonDecreasing(Repeat(t, p.limit + 1))
    ensures |Recent(Replay(Repeat(t, p.limit + 1), p).admitted, t, p.window)| == p.limit + 1
  {
    var n: nat := p.limit + 1;
    OverCapacityRun(t, n, p);
    RepeatIsFresh(t, n, p.window);
    RepeatIsOrdered(t, n);
  }

  lemma RepeatIsFresh(t: int, n: nat, window: int)
    requires 0 < window
    ensures Recent(Repeat(t, n), t, window) == Repeat(t, n)
  {
    RepeatAll(t, n);
    RecentOfFresh(Repeat(t, n), t, window);
  }

  lemma RepeatIsOrdered(t: int, n: nat)
    ensures NonDecreasing(Repeat(t, n))
  {
    RepeatAll(t, n);
  }

  datatype ConfigError = InvalidConfig

  datatype Result<T> = Ok(value: T) | Err(error: ConfigError)

  /** Configuration that refuses a limit the per-key queue cannot hold. */
  function Configure(requestsLimit: int, timeWindow: int, capacity: nat): (r: Result<Policy>)
    ensures r.Ok? <==> requestsLimit <= capacity
    ensures r.Ok? ==> r.value.limit == requestsLimit && r.value.window == timeWindow && r.value.capacity == capacity
  {
    if requestsLimit > capacity then Err(InvalidConfig) else Ok(Policy(requestsLimit, timeWindow, capacity))
  }

  /** Every configuration that Configure accepts enforces at most `limit` admissions per window. */
  lemma ConfiguredLimiterIsFair(requestsLimit: int, timeWindow: int, capacity: nat, times: seq<int>, at: int)
    requires Configure(requestsLimit, timeWindow, capacity).Ok?
    requires NonDecreasing(times)
    requires forall i :: 0 <= i < |times| ==> times[i] <= at
    ensures var p := Configure(requestsLimit, timeWindow, capacity).value;
            |Recent(Replay(times, p).admitted, at, timeWindow)| <= if requestsLimit <= 0 then 0 else requestsLimit
  {
    SlidingWindowFairness(times, Configure(requestsLimit, timeWindow, capacity).value, at);
  }

  /*
   * The demonstration driver: 3 requests per 5 seconds and five calls one second apart from
   * whatever the clock read at first (t0). The first three are allowed and the next two
   * denied; a sixth call two seconds after the fifth would be allowed again, once the two
   * oldest admissions have left the window.
   */

  /** The demonstration's policy: createRateLimiter(3, 5) with queues of 1000 slots. */
  function DemoPolicy(): Policy
  {
    Policy(3, 5, 1000)
  }

  /** The log of the demonstration's key after its first n calls: the first min(n, 3) readings. */
  function DemoLog(t0: int, n: nat): (log: seq<int>)
    ensures |log| == (if n < 3 then n else 3)
    ensures n > 0 ==> log[0] == t0
  {
    if n == 0 then [] else if n <= 3 then DemoLog(t0, n - 1) + [t0 + n - 1] else DemoLog(t0, 3)
  }

  /** Call n (from 0) of the demonstration is allowed exactly when n < 3, and extends the log while it is. */
  lemma DemoStep(t0: int, n: nat)
    requires n < 5
    ensures Admit(DemoLog(t0, n), t0 + n, DemoPolicy()) == Decision(n < 3, DemoLog(t0, n + 1))
  {
    assert Evict(DemoLog(t0, n), t0 + n, 5) == DemoLog(t0, n);
  }

  /** The demonstration's call times: one a second from t0. */
  function DemoTimes(t0: int, n: nat): (times: seq<int>)
    ensures |times| == n && (n > 0 ==> times[0] == t0)
  {
    if n == 0 then [] else DemoTimes(t0, n - 1) + [t0 + n - 1]
  }

  /** The answers to the demonstration's first n calls: call j is allowed iff j < 3. */
  function DemoDecisions(n: nat): (answers: seq<bool>)
    ensures |answers| == n
  {
    if n == 0 then [] else DemoDecisions(n - 1) + [n - 1 < 3]
  }

  /** After its first n calls the demonstration's key has log DemoLog(t0, n) and the answers DemoDecisions(n). */
  lemma {:induction false} DemoReplay(t0: int, n: nat)
    requires n <= 5
    ensures Replay(DemoTimes(t0, n), DemoPolicy()).log == DemoLog(t0, n)
    ensures Replay(DemoTimes(t0, n), DemoPolicy()).decisions == DemoDecisions(n)
  {
    if n > 0 {
      var prefix := DemoTimes(t0, n - 1);
      DemoReplay(t0, n - 1);
      ReplaySnoc(prefix, t0 + n - 1, DemoPolicy());
      DemoStep(t0, n - 1);
    }
  }

  /** The demonstration's five calls: allow, allow, allow, deny, deny. */
  lemma DemoRun(t0: int)
    ensures Replay(DemoTimes(t0, 5), DemoPolicy()).decisions == [true, true, true, false, false]
  {
    DemoReplay(t0, 5);
    assert DemoDecisions(5) == [true, true, true, false, false];
  }

  /** At t0 + 6 the admissions at t0 and t0 + 1 have expired, so a sixth call is allowed. */
  lemma DemoAdmitsAfterExpiry(t0: int)
    ensures Admit([t0, t0 + 1, t0 + 2], t0 + 6, DemoPolicy()) == Decision(true, [t0 + 2, t0 + 6])
  {
    var log := [t0, t0 + 1, t0 + 2];
    assert log[1..][1..] == [t0 + 2];
    assert Evict(log, t0 + 6, 5) == Evict(log[1..], t0 + 6, 5);
    assert Evict(log[1..], t0 + 6, 5) == Evict(log[1..][1..], t0 + 6, 5);
    assert Evict([t0 + 2], t0 + 6, 5) == [t0 + 2];
  }
}
