# Sliding-window-log rate limiter, modelled in Dafny

`rate_limiter.c` is a per-key rate limiter. It allows at most `requests_limit` requests per
`time_window` seconds for each user id. Each key owns a fixed-capacity ring buffer of request
timestamps (`Queue`, 1000 slots). The keys live in a registry of 100 hash buckets, each a
chain of `(user_id, queue)` nodes, indexed by djb2 of the key. `isRequestAllowed`:

1. finds or creates the key's node;
2. evicts head timestamps whose age is at least the window (ties are evicted);
3. denies when at least `requests_limit` timestamps remain;
4. otherwise enqueues the current time and allows.

The model has four modules:

- `KeyHash` (`keys.dfy`): keys as NUL-free byte strings, the djb2 hash with its `unsigned int`
  arithmetic written out modulo 2^32, and the 49-byte truncation of stored ids.
- `TimestampQueue` (`queue.dfy`): the ring buffer as a class over an `array<int>` with the
  C cursors `front`, `rear` and `size`. A ghost `Contents` holds the logical queue, oldest first.
  `Valid()` ties the two together.
- `SlidingWindow` (`window.dfy`): the admission decision as pure functions on a log of
  timestamps (`Evict`, `Admit`), and `Replay` of a run of calls. The run properties are
  lemmas: the window bound, ordering, that a denial has no effect, and sliding-window
  fairness.
- `RateLimiting` (`limiter.dfy`): the registry as a class.
  - Its `table` is an array of 100 chains, each a `seq` of entries with the newest first.
  - Ghost maps record each queue's stored id and contents, so every key has a `Log`.
  - `FindOrCreateUser` and `IsRequestAllowed` are methods proved against `Find`, `Admit` and
    that log.
  - `Run` shows that a sequence of calls for one key answers exactly as `Replay` does, which
    links the class to the fairness lemmas. `DemoRateLimiter` is the five-call demonstration.

The current time is a parameter `now` of `IsRequestAllowed`; the clock is never read.

The model follows the code, which is permissive in three places:

- `createRateLimiter` accepts any `requests_limit` and `time_window`, with no `InvalidConfig`
  error.
- Over-long keys are silently truncated, neither rejected nor reported.
- The timestamps are whatever the caller passes, so they need not be non-decreasing. The
  ordering and fairness lemmas assume calls in non-decreasing time.

## Model

| member | source | states |
|---|---|---|
| KeyHash.SignedChar | rate_limiter.c:77-79 | The value `int c` takes for a byte when `char` is signed: it lies in [-128, 128) and equals the byte modulo 256. |
| KeyHash.Djb2 | rate_limiter.c:76-80 | The hash accumulator always fits an `unsigned int`: 0 <= h < 2^32. |
| KeyHash.Bucket | rate_limiter.c:81 | The bucket of every key is less than HASH_SIZE (100). |
| KeyHash.Hash | rate_limiter.c:75-82 | The hashing loop returns exactly `Bucket(key)`, i.e. djb2 (h = h*33 + c mod 2^32 from 5381) reduced modulo 100, which is in [0, 100). |
| KeyHash.Truncate | rate_limiter.c:112-113 | The stored id is a prefix of the key of fewer than 50 bytes; it equals the key exactly when the key is shorter than 50 bytes, and a longer key is cut to exactly 49 bytes. |
| TimestampQueue.ModIsWrap | rate_limiter.c:56-64 | The `% capacity` of the cursor updates equals a single wrap-around on the range the cursors reach. |
| TimestampQueue.Queue.Cursors | rate_limiter.c:13-19 | A valid queue has 0 <= size <= capacity, 0 <= front < capacity and, when non-empty, rear == (front + size - 1) mod capacity. |
| TimestampQueue.Queue.constructor | rate_limiter.c:36-44 | createQueue yields a valid, empty queue with front 0, rear -1, size 0, the given capacity and a fresh buffer. |
| TimestampQueue.Queue.IsEmpty | rate_limiter.c:46-48 | Answers true exactly when the logical contents are empty. |
| TimestampQueue.Queue.IsFull | rate_limiter.c:50-52 | Answers true exactly when the contents fill the capacity. |
| TimestampQueue.Queue.Peek | rate_limiter.c:69-72 | Returns the oldest timestamp of a non-empty queue and 0 for an empty one, changing nothing. |
| TimestampQueue.Queue.Enqueue | rate_limiter.c:54-59 | Keeps the ring-buffer invariant; on a non-full queue the contents become old contents + [timestamp]; on a full queue the timestamp is dropped and nothing changes. |
| TimestampQueue.Queue.Dequeue | rate_limiter.c:61-67 | Keeps the invariant; on a non-empty queue returns the head and the contents lose it; on an empty queue returns 0 and nothing changes. |
| SlidingWindow.Evict | rate_limiter.c:127-130 | The eviction loop never lengthens the log and leaves a head (if any) that is younger than the window. |
| SlidingWindow.EvictIsSuffix | rate_limiter.c:127-130 | Eviction removes only a prefix of the log, and every removed timestamp satisfied now - ts >= window (ties are evicted). |
| SlidingWindow.Admit | rate_limiter.c:126-139 | A call is allowed exactly when fewer than `limit` timestamps survive eviction; a limit <= 0 always denies; the log never outgrows the queue capacity. |
| SlidingWindow.EvictedLogIsInWindow | rate_limiter.c:126-130 | On a log recorded in non-decreasing order, the timestamps eviction keeps are exactly those younger than the window. |
| SlidingWindow.EvictTwice | rate_limiter.c:126-130 | Evicting at an earlier time and then at a later one is the same as evicting at the later one. |
| SlidingWindow.DeniedCallIsInvisible | rate_limiter.c:133-135 | A denied call leaves a log on which every later call decides (and leaves) exactly what it would have without the denied call. |
| SlidingWindow.AdmitKeepsBound | rate_limiter.c:133-139 | One call keeps the queue within min(limit, capacity) timestamps (0 for limit <= 0). |
| SlidingWindow.EvictKeepsOrder | rate_limiter.c:127-130 | Eviction keeps a log ordered and bounded above by the same time. |
| SlidingWindow.AdmitKeepsOrder | rate_limiter.c:126-139 | A call at a time no earlier than every logged timestamp keeps the log ordered and no later than that time. |
| SlidingWindow.ReplayPrefix | rate_limiter.c:121-140 | The replay of the first i + 1 calls of a run is one more Step of the replay of the first i. |
| SlidingWindow.ReplayKeepsOrder | rate_limiter.c:121-140 | Calls made in non-decreasing time leave an ordered log bounded by the last call's time. |
| SlidingWindow.ReplayKeepsBound | rate_limiter.c:121-140 | Along any run of calls the queue holds at most min(limit, capacity) timestamps. |
| SlidingWindow.LiveLogIsRecentAdmissions | rate_limiter.c:121-140 | With limit <= capacity and calls in non-decreasing time, evicting the log at any later moment leaves exactly the admitted timestamps younger than the window. |
| SlidingWindow.SlidingWindowFairness | rate_limiter.c:121-140 | With limit <= capacity and calls in non-decreasing time, the requests admitted in the trailing window ending at any moment no earlier than the last call number at most `limit` (0 for limit <= 0). |
| SlidingWindow.DropDeniedCall | rate_limiter.c:133-135 | Removing a denied call from a run changes neither the decisions of the later calls nor the final log. |
| SlidingWindow.OverCapacityAdmitsBeyondLimit | rate_limiter.c:133-139 | As written, with limit > capacity, limit + 1 calls at one instant are all admitted: more than `limit` in one window. |
| SlidingWindow.Configure | rate_limiter.c:85-96 | The corrected configuration accepts exactly the limits the per-key queue can hold (limit <= capacity) and keeps the given limit, window and capacity. |
| SlidingWindow.ConfiguredLimiterIsFair | rate_limiter.c:85-96 | Every accepted configuration admits at most `limit` requests per trailing window, for calls in non-decreasing time. |
| SlidingWindow.DemoStep | rate_limiter.c:166-170 | Under the demonstration's 3-per-5-seconds policy, call n (one second apart) is allowed exactly when n < 3 and extends the log only then. |
| SlidingWindow.DemoReplay | rate_limiter.c:161-171 | After the first n demonstration calls the log holds the first min(n, 3) call times and call j was allowed exactly when j < 3. |
| SlidingWindow.DemoRun | rate_limiter.c:161-171 | The five demonstration calls answer allow, allow, allow, deny, deny. |
| SlidingWindow.DemoAdmitsAfterExpiry | rate_limiter.c:126-139 | With the demonstration's policy and log t0, t0+1, t0+2, a call at t0+6 evicts the two oldest admissions and is allowed. |
| RateLimiting.Find | rate_limiter.c:103-108 | The chain walk stops at the first node whose id equals the key, and finds nothing exactly when no node of the chain has that id. |
| RateLimiting.FindAfterPush | rate_limiter.c:115-116 | After a node is pushed at a chain's head, a search for its id stops there and every other search finds what it found before. |
| RateLimiting.PushedTable | rate_limiter.c:115-116 | Pushing a node on one bucket changes only the lookup of that node's id in that bucket. |
| RateLimiting.CanonicalIdsAreUnique | rate_limiter.c:98-119 | In a registry built by findOrCreateUser, an id shorter than 49 bytes is stored by at most one node. |
| RateLimiting.PushKeepsCanonical | rate_limiter.c:110-116 | Pushing a node whose short id is absent from its own bucket keeps every short id in its own bucket and first of its kind. |
| RateLimiting.RateLimiter.Owned | rate_limiter.c:98-119 | The queue found for a key is registered under that key and holds the key's log; a key of 50 bytes or more is never found, because the stored ids are truncated. |
| RateLimiting.RateLimiter.constructor | rate_limiter.c:85-96 | createRateLimiter stores the limit and window, empties all 100 buckets, so no key is found and every log is empty. |
| RateLimiting.RateLimiter.Resident | rate_limiter.c:103-108 | A queue that is found is found by exactly one key, in that key's bucket. |
| RateLimiting.RateLimiter.FindOrCreateUser | rate_limiter.c:98-119 | Returns the existing node for the key with nothing changed, or pushes exactly one node holding Truncate(key) and a fresh empty queue of 1000 slots at the head of the key's bucket. No other key's lookup or log changes, and the registry stays canonical. |
| RateLimiting.RateLimiter.Search | rate_limiter.c:100-108 | The while loop over the chain returns exactly `Find(chain, key)`. |
| RateLimiting.RateLimiter.PushUser | rate_limiter.c:110-118 | The creation path: the new node holds the truncated id and an empty fresh queue. Only the bucket of the key changes, and only the lookup of the stored id changes. |
| RateLimiting.RateLimiter.Register | rate_limiter.c:115-116 | Prepends the node to its chain and registers its queue, keeping the registry valid. |
| RateLimiting.RateLimiter.IsRequestAllowed | rate_limiter.c:121-140 | The answer is `Admit` on the key's previous log. A key stored whole gets the log `Admit` leaves. A longer key is decided on an empty log, and its truncated id takes the resulting log only if it hashes to the key's bucket (otherwise it keeps its own). Every other key's log is unchanged, and a canonical registry stays canonical, so ids shorter than 49 bytes stay unique. |
| RateLimiting.RateLimiter.Decide | rate_limiter.c:123-139 | Runs the decision on a registered node's queue. The answer is `Admit` on its contents, that queue's log becomes the log `Admit` leaves, and no other log changes. |
| RateLimiting.RateLimiter.QueueStepKeepsRegistry | rate_limiter.c:126-139 | Changing one registered queue in place keeps the whole registry valid. |
| RateLimiting.AdmitInto | rate_limiter.c:126-139 | The eviction loop, the limit check and the enqueue on a queue compute exactly `Admit`: the answer and the new contents. |
| RateLimiting.Run | rate_limiter.c:166-171 | A sequence of calls for a key stored whole, starting from an empty log, answers as `Replay` of the same times and leaves its log. |
| RateLimiting.RunStep | rate_limiter.c:167 | One call of such a sequence is one more Step of the replay. |
| RateLimiting.DemoRateLimiter | rate_limiter.c:161-174 | The demonstration (3 requests per 5 seconds, five calls for "user1" one second apart) answers allow, allow, allow, deny, deny. |

## Left out

- `time(NULL)` (rate_limiter.c:124): the clock is the parameter `now`, and `sleep(1)` in the demonstration becomes call times one second apart from a first reading `t0`.
- `destroyQueue` and `destroyRateLimiter` (rate_limiter.c:142-158): memory release has no counterpart under garbage collection.
- `printf` and `main` (rate_limiter.c:165-179): output only. The demonstration's answers are returned as a sequence.
- Allocation failure: `malloc` results are never checked in the source, so every allocation is assumed to succeed.
- `time_t` and `int` widths: timestamps, the limit and the window are unbounded integers. Overflow of `current_time - peek(queue)` is not modelled.
- C string mechanics: keys are NUL-free byte sequences. The NUL terminator and the zero padding `strncpy` writes are not represented; the stored id is exactly `Truncate(key)`.
- KeyHash.SignedChar: the hash reads each byte as a signed `char`. On platforms where `char` is unsigned, bytes of 128 and above hash differently.
- TimestampQueue.Queue.constructor: requires a positive capacity. `createQueue` is only called with 1000. A queue of capacity 0 is both empty and full, so every enqueue is dropped and the cursor arithmetic never runs; the invariant `0 <= front < capacity` cannot describe such a queue.
- The `next` links of the chain nodes: a chain is a sequence of entries, newest first. Nodes with different ids never share a queue; the registry invariant states this instead of modelling aliasing between nodes. It does not rule out two nodes with the same id sharing one queue, although `FindOrCreateUser` always gives a new node a fresh queue.
- Keys of 50 bytes or more are stored truncated and are never found again by `strcmp`. Every call with such a key therefore pushes another node with an empty queue and is decided on an empty log. A key equal to the 49-byte prefix finds the newest such node when it hashes to the same bucket as the long key. Uniqueness (CanonicalIdsAreUnique) is stated only for ids shorter than 49 bytes.
- SlidingWindow.Configure: rejects only a limit above the queue capacity. It does not also reject a non-positive limit or window: the code accepts both, and they cannot break the bound.

## Findings

| source | as written | input that shows it | evidently intended | confidence | as-written member | corrected member |
|---|---|---|---|---|---|---|
| rate_limiter.c:85-96, 133-139 | `createRateLimiter` accepts any `requests_limit`. When it exceeds the queue capacity (1000), `enqueue` on the full queue silently drops the timestamp while `isRequestAllowed` still answers true. | `createRateLimiter(1001, 5)`, then 1002 calls for one key within one second: all 1002 are allowed | at most `requests_limit` admissions per window, with a limit above the queue capacity refused at configuration time | not executed | SlidingWindow.OverCapacityAdmitsBeyondLimit | SlidingWindow.Configure (with SlidingWindow.ConfiguredLimiterIsFair) |
