/**
 * The rate limiter: a registry of HashSize buckets, each a chain of (user id, queue) nodes
 * with the newest node first, and `isRequestAllowed`, which runs the sliding-window check
 * of SlidingWindow.Admit on the queue of the caller's key.
 *
 * The clock is not read here: every call receives the time `now` from its caller.
 */
module RateLimiting {
  import opened KeyHash
  import opened TimestampQueue
  import opened SlidingWindow

  /** Capacity of every key's queue (MAX_QUEUE_SIZE). */
  const MaxQueueSize: nat := 1000

  datatype Option<T> = None | Some(value: T)

  /** A node of a bucket chain: the id it stores (possibly truncated) and the key's queue. */
  datatype Entry = Entry(userId: Key, queue: Queue)

  /** Position of the first entry of `bucket` whose id equals `key`: where the chain walk stops. */
  function Find(bucket: seq<Entry>, key: Key): (r: Option<nat>)
    ensures r.Some? ==> r.value < |bucket| && bucket[r.value].userId == key
    ensures r.Some? ==> forall j :: 0 <= j < r.value ==> bucket[j].userId != key
    ensures r.None? <==> forall j :: 0 <= j < |bucket| ==> bucket[j].userId != key
    decreases |bucket|
  {
    if bucket == [] then None
    else if bucket[0].userId == key then Some(0)
    else match Find(bucket[1..], key)
      case None => None
      case Some(i) => Some(i + 1)
  }

  /** The queue of the first entry of `bucket` whose id equals `key`, if any. */
  function FindQueue(bucket: seq<Entry>, key: Key): Option<Queue>
  {
    match Find(bucket, key)
    case None => None
    case Some(i) => Some(bucket[i].queue)
  }

  /** Pushing a node on a chain: a search for its id stops at the new head, any other search passes it. */
  lemma FindAfterPush(e: Entry, bucket: seq<Entry>, key: Key)
    ensures FindQueue([e] + bucket, key) == if e.userId == key then Some(e.queue) else FindQueue(bucket, key)
  {
    assert ([e] + bucket)[1..] == bucket;
  }

  /** Pushing `user` on chain `index` changes only the search for its own id in that chain. */
  lemma PushedTable(before: seq<seq<Entry>>, after: seq<seq<Entry>>, index: nat, user: Entry)
    requires |before| == HashSize && index < HashSize
    requires after == before[index := [user] + before[index]]
    ensures forall k: Key :: FindQueue(after[Bucket(k)], k) ==
                             (if Bucket(k) == index && k == user.userId then Some(user.queue) else FindQueue(before[Bucket(k)], k))
  {
    forall k: Key
      ensures FindQueue(after[Bucket(k)], k) ==
        (if Bucket(k) == index && k == user.userId then Some(user.queue) else FindQueue(before[Bucket(k)], k))
    {
      FindAfterPush(user, before[index], k);
    }
  }

  /** The log of `key` in a registry whose chain for `key` is `bucket` and whose queues hold `logs`. */
  ghost function Recorded(bucket: seq<Entry>, logs: map<Queue, seq<int>>, key: Key): seq<int>
  {
    match FindQueue(bucket, key)
    case None => []
    case Some(q) => if q in logs then logs[q] else []
  }

  /** Recording new contents for queue `q` changes exactly the log of the key that finds `q`. */
  lemma RecordedAfterUpdate(bucket: seq<Entry>, logs: map<Queue, seq<int>>, key: Key, q: Queue, v: seq<int>)
    ensures Recorded(bucket, logs[q := v], key) == if FindQueue(bucket, key) == Some(q) then v else Recorded(bucket, logs, key)
  {
  }

  /** A node whose id fits the id buffer and is the id recorded against its queue in `owners`. */
  ghost predicate Listed(e: Entry, owners: map<Queue, Key>)
  {
    |e.userId| < MaxUserId && e.queue in owners && owners[e.queue] == e.userId
  }

  /** Every node of every chain is listed in `owners`. */
  ghost predicate AllListed(chains: seq<seq<Entry>>, owners: map<Queue, Key>)
  {
    forall b, i :: 0 <= b < |chains| && 0 <= i < |chains[b]| ==> Listed(chains[b][i], owners)
  }

  /** Pushing a node whose queue is new to `owners`, and listing it, keeps every chain listed. */
  lemma PushListed(chains: seq<seq<Entry>>, index: nat, user: Entry, owners: map<Queue, Key>)
    requires AllListed(chains, owners) && index < |chains|
    requires |user.userId| < MaxUserId && user.queue !in owners
    ensures AllListed(chains[index := [user] + chains[index]], owners[user.queue := user.userId])
  {
    var after: seq<seq<Entry>> := chains[index := [user] + chains[index]];
    forall b, i | 0 <= b < |after| && 0 <= i < |after[b]|
      ensures Listed(after[b][i], owners[user.queue := user.userId])
    {
      if b != index || i != 0 {
        var e := if b == index then chains[index][i - 1] else chains[b][i];
        assert after[b][i] == e;
        assert Listed(e, owners);
      }
    }
  }

  /**
   * Every node whose id is shorter than MaxUserId - 1 bytes sits in the chain of its id's
   * bucket and is the first node of that chain with that id. Ids of MaxUserId - 1 bytes may
   * instead be truncations of longer keys, which sit in the longer key's bucket.
   */
  ghost predicate Canonical(chains: seq<seq<Entry>>)
  {
    forall b, i {:trigger chains[b][i]} :: 0 <= b < |chains| && 0 <= i < |chains[b]| && |chains[b][i].userId| < MaxUserId - 1 ==>
      Bucket(chains[b][i].userId) == b && Find(chains[b], chains[b][i].userId) == Some(i)
  }

  /** In canonical chains an id shorter than MaxUserId - 1 bytes is stored by at most one node. */
  lemma CanonicalIdsAreUnique(chains: seq<seq<Entry>>, b: nat, i: nat, c: nat, j: nat)
    requires Canonical(chains) && b < |chains| && i < |chains[b]| && c < |chains| && j < |chains[c]|
    requires chains[b][i].userId == chains[c][j].userId && |chains[b][i].userId| < MaxUserId - 1
    ensures b == c && i == j
  {
    assert Find(chains[b], chains[b][i].userId) == Some(i);
    assert Find(chains[c], chains[c][j].userId) == Some(j);
  }

  /**
   * Pushing a node keeps the chains canonical when a short id goes to its own bucket and is not
   * yet in that chain.
   */
  lemma PushKeepsCanonical(chains: seq<seq<Entry>>, index: nat, user: Entry)
    requires Canonical(chains) && index < |chains|
    requires |user.userId| < MaxUserId - 1 ==>
               Bucket(user.userId) == index && Find(chains[index], user.userId) == None
    ensures Canonical(chains[index := [user] + chains[index]])
  {
    var after: seq<seq<Entry>> := chains[index := [user] + chains[index]];
    forall b, i | 0 <= b < |after| && 0 <= i < |after[b]| && |after[b][i].userId| < MaxUserId - 1
      ensures Bucket(after[b][i].userId) == b && Find(after[b], after[b][i].userId) == Some(i)
    {
      PushedNodeIsCanonical(chains, index, user, b, i);
    }
  }

  /** One node of the chains after the push of PushKeepsCanonical is where Canonical puts it. */
  lemma PushedNodeIsCanonical(chains: seq<seq<Entry>>, index: nat, user: Entry, b: nat, i: nat)
    requires Canonical(chains) && index < |chains|
    requires |user.userId| < MaxUserId - 1 ==>
               Bucket(user.userId) == index && Find(chains[index], user.userId) == None
    requires b < |chains| && i < |chains[index := [user] + chains[index]][b]|
    requires |chains[index := [user] + chains[index]][b][i].userId| < MaxUserId - 1
    ensures var e := chains[index := [user] + chains[index]][b][i];
            Bucket(e.userId) == b && Find(chains[index := [user] + chains[index]][b], e.userId) == Some(i)
  {
    if b != index {
      var e := chains[b][i];
      assert Bucket(e.userId) == b && Find(chains[b], e.userId) == Some(i);
    } else if i > 0 {
      var pushed := [user] + chains[index];
      var e := chains[index][i - 1];
      assert pushed[1..] == chains[index] && pushed[i] == e;
      assert Bucket(e.userId) == b && Find(chains[index], e.userId) == Some(i - 1);
      assert user.userId != e.userId;
      assert Find(pushed, e.userId) == Some(i);
    }
  }

  class RateLimiter {
    const table: array<seq<Entry>>
    const requestsLimit: int
    const timeWindow: int
    /** The id stored next to each queue of the registry. */
    ghost var owners: map<Queue, Key>
    /** The queue that owns each buffer of the registry. */
    ghost var buffers: map<array<int>, Queue>
    /** The timestamps each queue of the registry holds. */
    ghost var logs: map<Queue, seq<int>>
    ghost var Repr: set<object>

    ghost predicate Valid()
      reads this, Repr
    {
      this in Repr && table in Repr && table.Length == HashSize &&
      AllListed(table[..], owners) &&
      forall q :: q in owners ==> Stores(q)
    }

    /**
     * A queue of the registry: a valid queue of MaxQueueSize slots that owns its buffer and
     * holds the log recorded for it.
     */
    ghost predicate Stores(q: Queue)
      reads this, Repr
    {
      q in Repr && q.timestamps in Repr && q.Valid() && q.capacity == MaxQueueSize &&
      q.timestamps in buffers && buffers[q.timestamps] == q && q in logs && logs[q] == q.Contents
    }

    /** The limiter's configuration as a sliding-window policy over queues of MaxQueueSize slots. */
    function Limits(): Policy
    {
      Policy(requestsLimit, timeWindow, MaxQueueSize)
    }

    /** The queue a search for `key` finds, if any. */
    ghost function Lookup(key: Key): Option<Queue>
      requires table.Length == HashSize
      reads table
    {
      FindQueue(table[Bucket(key)], key)
    }

    /** The timestamps recorded for `key`; a key without a node has an empty log. */
    ghost function Log(key: Key): seq<int>
      requires table.Length == HashSize
      reads this, table
    {
      Recorded(table[Bucket(key)], logs, key)
    }

    /**
     * In a valid registry the queue found for `key` is registered under `key` and its contents
     * are the key's log; a key too long to be stored is never found.
     */
    lemma Owned(key: Key)
      requires Valid()
      ensures Lookup(key).Some? ==>
        (Lookup(key).value in Repr && Lookup(key).value in owners && owners[Lookup(key).value] == key &&
         Log(key) == Lookup(key).value.Contents)
      ensures |key| >= MaxUserId ==> Lookup(key) == None
    {
    }

    /** createRateLimiter: a limiter whose HashSize buckets are all empty. */
    constructor (requestsLimit: int, timeWindow: int)
      ensures Valid() && fresh(Repr) && Canonical(table[..])
      ensures this.requestsLimit == requestsLimit && this.timeWindow == timeWindow
      ensures forall key :: Lookup(key) == None && Log(key) == []
      ensures forall i :: 0 <= i < HashSize ==> table[i] == []
    {
      this.requestsLimit := requestsLimit;
      this.timeWindow := timeWindow;
      var buckets := new seq<Entry>[HashSize];
      for i := 0 to HashSize
        invariant forall j :: 0 <= j < i ==> buckets[j] == []
      {
        buckets[i] := [];
      }
      table := buckets;
      owners, buffers, logs := map[], map[], map[];
      Repr := {this, buckets};
    }

    /** A key that is found here is found exactly by itself, and its log is its queue's contents. */
    lemma Resident(key: Key)
      requires Valid() && Lookup(key).Some?
      ensures Log(key) == Lookup(key).value.Contents
      ensures forall k :: Lookup(k) == Some(Lookup(key).value) <==> Bucket(k) == Bucket(key) && k == key
    {
      Owned(key);
      forall k: Key
        ensures Lookup(k) == Some(Lookup(key).value) <==> Bucket(k) == Bucket(key) && k == key
      {
        Owned(k);
      }
    }

    /**
     * findOrCreateUser: walks the chain of bucket `Bucket(key)` for a node whose id equals
     * `key` and returns it; otherwise pushes a node holding `Truncate(key)` and an empty
     * queue of MaxQueueSize slots at the head of that chain and returns it.
     */
    method FindOrCreateUser(key: Key) returns (user: Entry)
      requires Valid()
      modifies this, table
      ensures Valid() && old(Repr) <= Repr && fresh(Repr - old(Repr)) && Listed(user, owners)
      ensures old(Lookup(key)).Some? ==>
        (user.userId == key && user.queue == old(Lookup(key)).value && unchanged(this, table))
      ensures old(Lookup(key)).None? ==>
        (user.userId == Truncate(key) && fresh(user.queue) &&
         table[..] == old(table[..])[Bucket(key) := [user] + old(table[Bucket(key)])])
      ensures user.queue.Contents == old(Log(key))
      ensures forall k :: Lookup(k) ==
                          (if Bucket(k) == Bucket(key) && k == user.userId then Some(user.queue) else old(Lookup(k)))
      ensures forall k :: Lookup(k) == Some(user.queue) <==> Bucket(k) == Bucket(key) && k == user.userId
      ensures forall k :: Log(k) ==
                          (if Lookup(k) == Some(user.queue) then user.queue.Contents else old(Log(k)))
      ensures Canonical(old(table[..])) ==> Canonical(table[..])
    {
      var index := Hash(key);
      var found := Search(index, key);
      if found.Some? {
        user := table[index][found.value];
        Resident(key);
        return;
      }
      user := PushUser(index, key);
      if Canonical(old(table[..])) {
        PushKeepsCanonical(old(table[..]), index, user);
      }
    }

    /** The walk of findOrCreateUser along chain `index`: the position of the first node whose id is `key`. */
    method Search(index: nat, key: Key) returns (found: Option<nat>)
      requires table.Length == HashSize && index < HashSize
      ensures found == Find(table[index], key)
    {
      var bucket := table[index];
      var i := 0;
      while i < |bucket|
        invariant 0 <= i <= |bucket|
        invariant forall j :: 0 <= j < i ==> bucket[j].userId != key
      {
        if bucket[i].userId == key {
          assert Find(bucket, key) == Some(i);
          return Some(i);
        }
        i := i + 1;
      }
      return None;
    }

    /** The creation path of findOrCreateUser: a node with the truncated id and an empty queue becomes the chain's head. */
    method PushUser(index: nat, key: Key) returns (user: Entry)
      requires Valid() && index == Bucket(key)
      modifies this, table
      ensures Valid() && old(Repr) <= Repr && fresh(Repr - old(Repr))
      ensures Listed(user, owners)
      ensures user.userId == Truncate(key) && fresh(user.queue) && user.queue.Contents == []
      ensures table[..] == old(table[..])[index := [user] + old(table[index])]
      ensures forall k :: Lookup(k) ==
                          (if Bucket(k) == index && k == user.userId then Some(user.queue) else old(Lookup(k)))
      ensures forall k :: Lookup(k) == Some(user.queue) <==> Bucket(k) == index && k == user.userId
      ensures forall k :: Log(k) == (if Lookup(k) == Some(user.queue) then [] else old(Log(k)))
    {
      forall k: Key
        ensures Lookup(k).Some? ==> Lookup(k).value in Repr
      {
        Owned(k);
      }
      var q := new Queue(MaxQueueSize);
      user := Entry(Truncate(key), q);
      Register(index, user);
      PushedTable(old(table[..]), table[..], index, user);
      forall k: Key
        ensures Log(k) == if Lookup(k) == Some(q) then [] else old(Log(k))
      {
        RecordedAfterUpdate(table[Bucket(k)], old(logs), k, q, []);
      }
    }

    /** Registers the fresh queue of `user` under its id and pushes `user` on chain `index`. */
    method Register(index: nat, user: Entry)
      requires Valid() && index < HashSize && |user.userId| < MaxUserId
      requires user.queue !in Repr && user.queue.timestamps !in Repr
      requires user.queue.Valid() && user.queue.capacity == MaxQueueSize && user.queue.Contents == []
      modifies this, table
      ensures Valid() && Repr == old(Repr) + {user.queue, user.queue.timestamps}
      ensures Listed(user, owners)
      ensures table[..] == old(table[..])[index := [user] + old(table[index])]
      ensures logs == old(logs)[user.queue := []]
    {
      var q := user.queue;
      ghost var before := table[..];
      assert q !in owners;
      table[index], owners, buffers, logs, Repr :=
        [user] + table[index], owners[q := user.userId], buffers[q.timestamps := q], logs[q := []], Repr + {q, q.timestamps};
      assert table[..] == before[index := [user] + before[index]];
      PushListed(before, index, user, old(owners));
      forall r | r in owners
        ensures Stores(r)
      {
        if r != q {
          assert old(Stores(r));
          assert r.timestamps != q.timestamps;
          assert unchanged(r, r.timestamps);
        }
      }
    }

    /**
     * isRequestAllowed at time `now`: finds or creates the key's node and runs the
     * sliding-window check on its queue.
     */
    method IsRequestAllowed(key: Key, now: int) returns (allowed: bool)
      requires Valid()
      modifies Repr
      ensures Valid() && old(Repr) <= Repr && fresh(Repr - old(Repr))
      ensures allowed == Admit(old(Log(key)), now, Limits()).allowed
      ensures |key| < MaxUserId ==> Log(key) == Admit(old(Log(key)), now, Limits()).log
      ensures |key| >= MaxUserId ==> Log(Truncate(key)) ==
                                       (if Bucket(Truncate(key)) == Bucket(key) then Admit([], now, Limits()).log else old(Log(Truncate(key))))
      ensures forall k :: k != key && k != Truncate(key) ==> Log(k) == old(Log(k))
      ensures Canonical(old(table[..])) ==> Canonical(table[..])
    {
      var user := FindOrCreateUser(key);
      allowed := Decide(user, now);
    }

    /** The sliding-window check of isRequestAllowed on the queue of a registered node. */
    method Decide(user: Entry, now: int) returns (allowed: bool)
      requires Valid() && Listed(user, owners)
      modifies this, user.queue, user.queue.timestamps
      ensures Valid() && Repr == old(Repr)
      ensures allowed == Admit(old(user.queue.Contents), now, Limits()).allowed
      ensures forall k :: Log(k) ==
                          (if Lookup(k) == Some(user.queue) then Admit(old(user.queue.Contents), now, Limits()).log else old(Log(k)))
    {
      var q := user.queue;
      ghost var after := Admit(q.Contents, now, Limits()).log;
      allowed := AdmitInto(q, now, Limits());
      logs := logs[q := q.Contents];
      QueueStepKeepsRegistry(q);
      forall k: Key
        ensures Log(k) == if Lookup(k) == Some(q) then after else old(Log(k))
      {
        RecordedAfterUpdate(table[Bucket(k)], old(logs), k, q, after);
      }
    }

    /** A step that changes one queue of the registry, keeps it valid and records its contents keeps the registry valid. */
    twostate lemma QueueStepKeepsRegistry(q: Queue)
      requires old(Valid()) && old(q in owners)
      requires unchanged(table) && Repr == old(Repr) && owners == old(owners) && buffers == old(buffers)
      requires q.Valid() && logs == old(logs)[q := q.Contents]
      requires unchanged(old(Repr) - {this, q, q.timestamps})
      ensures Valid()
    {
      assert old(Stores(q));
      forall r | r in owners
        ensures Stores(r)
      {
        if r != q {
          assert old(Stores(r));
        }
      }
    }
  }

  /**
   * The body of isRequestAllowed on the key's queue: drops head timestamps while
   * `now - head >= window`, denies when `limit` timestamps remain, and otherwise enqueues
   * `now` (which a full queue drops) and allows.
   */
  method AdmitInto(q: Queue, now: int, p: Policy) returns (allowed: bool)
    requires q.Valid() && q.capacity == p.capacity
    modifies q, q.timestamps
    ensures q.Valid()
    ensures allowed == Admit(old(q.Contents), now, p).allowed
    ensures q.Contents == Admit(old(q.Contents), now, p).log
  {
    while !q.IsEmpty() && now - q.Peek() >= p.window
      invariant q.Valid()
      invariant Evict(q.Contents, now, p.window) == Evict(old(q.Contents), now, p.window)
      modifies q
      decreases |q.Contents|
    {
      var _ := q.Dequeue();
    }
    if q.size >= p.limit {
      return false;
    }
    q.Enqueue(now);
    return true;
  }

  /**
   * Calls for one key at `times`, one after the other: for a key stored whole whose log
   * starts empty, the answers and the final log are those of Replay on the same times.
   */
  method Run(limiter: RateLimiter, key: Key, times: seq<int>) returns (answers: seq<bool>)
    requires limiter.Valid() && |key| < MaxUserId && limiter.Log(key) == []
    modifies limiter.Repr
    ensures limiter.Valid() && old(limiter.Repr) <= limiter.Repr && fresh(limiter.Repr - old(limiter.Repr))
    ensures answers == Replay(times, limiter.Limits()).decisions
    ensures limiter.Log(key) == Replay(times, limiter.Limits()).log
  {
    answers := [];
    for i := 0 to |times|
      invariant limiter.Valid() && old(limiter.Repr) <= limiter.Repr && fresh(limiter.Repr - old(limiter.Repr))
      invariant answers == Replay(times[..i], limiter.Limits()).decisions
      invariant limiter.Log(key) == Replay(times[..i], limiter.Limits()).log
    {
      var allowed := RunStep(limiter, key, times, i);
      answers := answers + [allowed];
    }
    assert times[..|times|] == times;
  }

  /** Call i of Run: one more Step of the replay. */
  method RunStep(limiter: RateLimiter, key: Key, times: seq<int>, i: nat) returns (allowed: bool)
    requires limiter.Valid() && |key| < MaxUserId && i < |times|
    requires limiter.Log(key) == Replay(times[..i], limiter.Limits()).log
    modifies limiter.Repr
    ensures limiter.Valid() && old(limiter.Repr) <= limiter.Repr && fresh(limiter.Repr - old(limiter.Repr))
    ensures Replay(times[..i + 1], limiter.Limits()).decisions == Replay(times[..i], limiter.Limits()).decisions + [allowed]
    ensures limiter.Log(key) == Replay(times[..i + 1], limiter.Limits()).log
  {
    allowed := limiter.IsRequestAllowed(key, times[i]);
    ReplayPrefix(times, i, limiter.Limits());
  }

  /**
   * demoRateLimiter: a limiter of 3 requests per 5 seconds and five calls for "user1", one
   * second apart from a first clock reading t0. The first three are allowed, the last two denied.
   */
  method DemoRateLimiter(t0: int) returns (answers: seq<bool>)
    ensures answers == [true, true, true, false, false]
  {
    var limiter := new RateLimiter(3, 5);
    answers := Run(limiter, DemoUser, DemoTimes(t0, 5));
    DemoRun(t0);
  }

  /** The demonstration's key, "user1". */
  const DemoUser: Key := [117, 115, 101, 114, 49]
}
