/**
 * The fixed-capacity circular queue of timestamps that each key owns.
 *
 * `timestamps` is the ring buffer; `front` is the slot of the oldest timestamp, `rear`
 * the slot of the newest one (or the slot before `front` when nothing has been written
 * yet) and `size` the number of live timestamps. `Contents` is the logical queue,
 * oldest first.
 */
module TimestampQueue {

  /** `x` reduced into `[0, n)` when it lies in `[0, 2n)`: the position a cursor wraps to. */
  function Wrap(x: int, n: int): int
  {
    if x < n then x else x - n
  }

  /** The C remainder the cursors use agrees with Wrap on the range the cursors reach. */
  lemma ModIsWrap(x: int, n: int)
    requires 0 < n && 0 <= x < 2 * n
    ensures x % n == Wrap(x, n)
  {
    if x < n {
      assert x == 0 * n + x;
    } else {
      assert x == 1 * n + (x - n);
    }
  }

  class Queue {
    const timestamps: array<int>
    const capacity: int
    var front: int
    var rear: int
    var size: int
    ghost var Contents: seq<int>

    ghost predicate Valid()
      reads this, timestamps
    {
      0 < capacity && timestamps.Length == capacity &&
      0 <= size <= capacity && 0 <= front < capacity && -1 <= rear < capacity &&
      // the slot after `rear` is the slot after the last live timestamp
      Wrap(rear + 1, capacity) == Wrap(front + size, capacity) &&
      // `rear` is -1 only before the first enqueue
      (rear == -1 ==> front == 0 && size == 0) &&
      |Contents| == size &&
      forall i :: 0 <= i < size ==> Contents[i] == timestamps[Wrap(front + i, capacity)]
    }

    /**
     * The cursors of a valid queue: the live timestamps occupy the `size` slots from `front`
     * onwards, so a non-empty queue has its newest timestamp at `(front + size - 1) % capacity`.
     */
    lemma Cursors()
      requires Valid()
      ensures 0 <= size <= capacity && 0 <= front < capacity
      ensures size > 0 ==> rear == (front + size - 1) % capacity
    {
      if size > 0 {
        ModIsWrap(front + size - 1, capacity);
      }
    }

    /** createQueue: an empty queue over a fresh buffer of `capacity` slots. */
    constructor (capacity: int)
      requires 0 < capacity
      ensures Valid() && fresh(timestamps)
      ensures this.capacity == capacity && Contents == []
      ensures front == 0 && rear == -1 && size == 0
    {
      this.capacity := capacity;
      timestamps := new int[capacity];
      front, rear, size := 0, -1, 0;
      Contents := [];
    }

    /** isQueueEmpty */
    function IsEmpty(): (empty: bool)
      requires Valid()
      reads this, timestamps
      ensures empty <==> Contents == []
    {
      size == 0
    }

    /** isQueueFull */
    function IsFull(): (full: bool)
      requires Valid()
      reads this, timestamps
      ensures full <==> |Contents| == capacity
    {
      size == capacity
    }

    /** peek: the oldest timestamp, or 0 when the queue is empty. */
    function Peek(): (head: int)
      requires Valid()
      reads this, timestamps
      ensures Contents != [] ==> head == Contents[0]
      ensures Contents == [] ==> head == 0
    {
      if IsEmpty() then 0 else timestamps[front]
    }

    /** enqueue: appends `timestamp`; on a full queue the timestamp is dropped and nothing changes. */
    method Enqueue(timestamp: int)
      requires Valid()
      modifies this, timestamps
      ensures Valid()
      ensures old(|Contents|) < capacity ==> Contents == old(Contents) + [timestamp]
      ensures old(|Contents|) == capacity ==> unchanged(this) && unchanged(timestamps)
    {
      if IsFull() {
        return;
      }
      ModIsWrap(rear + 1, capacity);
      rear := (rear + 1) % capacity;
      timestamps[rear] := timestamp;
      size := size + 1;
      Contents := Contents + [timestamp];
    }

    /**
     * dequeue: removes and returns the oldest timestamp; on an empty queue it returns 0
     * and changes nothing. The buffer itself is never written.
     */
    method Dequeue() returns (timestamp: int)
      requires Valid()
      modifies this
      ensures Valid()
      ensures old(Contents) != [] ==> timestamp == old(Contents)[0] && Contents == old(Contents)[1..]
      ensures old(Contents) == [] ==> timestamp == 0 && unchanged(this)
    {
      if IsEmpty() {
        return 0;
      }
      timestamp := timestamps[front];
      ModIsWrap(front + 1, capacity);
      front := (front + 1) % capacity;
      size := size - 1;
      Contents := Contents[1..];
    }
  }
}
