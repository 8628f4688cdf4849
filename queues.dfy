/** The bounded circular queues that live in the shared region (ipc_shared.h):
    where a queue's cells are, what the queue holds, and what enqueueing and
    dequeueing do to the region. The cook queue and every waiter's inbound queue
    are instances of the same shape, differing only in their addresses and in
    the number of cells per record. */
module Queues {
  import opened Layout

  /** A queue's cells: its front, rear and pending-count cells, the first cell
      of its data area, and the number of cells in one record. */
  datatype Queue = Queue(front: int, rear: int, pending: int, data: int, width: int)

  /** The cook queue: (waiter, customer, party size) triples; its pending count
      is the global PENDING_ORDERS cell. */
  const CookQueue: Queue := Queue(COOK_FRONT, COOK_REAR, PENDING_ORDERS, COOK_QUEUE_DATA, 3)

  /** Waiter `w`'s inbound queue: (customer, party size) pairs. */
  function WaiterQueue(w: int): Queue {
    Queue(WaiterFront(w), WaiterRear(w), WaiterPendingOrders(w), WaiterQueueStart(w), 2)
  }

  /** Three distinct header cells before a data area of QUEUE_SIZE records that fits the region. */
  predicate Shaped(q: Queue) {
    && 0 <= q.front && 0 <= q.rear && 0 <= q.pending
    && q.front != q.rear && q.front != q.pending && q.rear != q.pending
    && q.front < q.data && q.rear < q.data && q.pending < q.data
    && 0 < q.width && q.data + QUEUE_SIZE * q.width <= SHM_SIZE
  }

  /** The region has the right size and the queue's front and rear are slot numbers. */
  predicate Indexed(s: seq<int>, q: Queue) {
    Shaped(q) && |s| == SHM_SIZE && 0 <= s[q.front] < QUEUE_SIZE && 0 <= s[q.rear] < QUEUE_SIZE
  }

  /** `i` records of `w` cells: i * w, written as repeated addition so that
      the solver reasons about slot offsets linearly. */
  function Times(i: nat, w: int): int {
    if i == 0 then 0 else Times(i - 1, w) + w
  }

  lemma {:induction false} TimesIsProduct(i: nat, w: int)
    ensures Times(i, w) == i * w
  {
    if i > 0 { TimesIsProduct(i - 1, w); }
  }

  lemma {:induction false} TimesMono(a: nat, b: nat, w: int)
    requires a <= b && 0 <= w
    ensures Times(a, w) <= Times(b, w)
    decreases b
  {
    if a < b { TimesMono(a, b - 1, w); }
  }

  /** First cell of slot `i`. */
  function SlotAt(q: Queue, i: nat): int {
    q.data + Times(i, q.width)
  }

  lemma SlotBounds(q: Queue, i: nat)
    requires Shaped(q) && i < QUEUE_SIZE
    ensures q.data <= SlotAt(q, i)
    ensures SlotAt(q, i) + q.width <= q.data + QUEUE_SIZE * q.width
  {
    TimesMono(0, i, q.width);
    TimesMono(i + 1, QUEUE_SIZE, q.width);
    TimesIsProduct(QUEUE_SIZE, q.width);
  }

  /** Distinct slots occupy disjoint cells. */
  lemma SlotsApart(q: Queue, i: nat, j: nat)
    requires Shaped(q) && i < j
    ensures SlotAt(q, i) + q.width <= SlotAt(q, j)
  {
    TimesMono(i + 1, j, q.width);
  }

  // Slot positions modulo QUEUE_SIZE

  lemma RearFromOccupancy(f: int, r: int)
    requires 0 <= f < QUEUE_SIZE && 0 <= r < QUEUE_SIZE
    ensures (f + (r - f) % QUEUE_SIZE) % QUEUE_SIZE == r
  {
  }

  lemma PositionsDistinct(f: int, k: int, n: int)
    requires 0 <= f < QUEUE_SIZE && 0 <= k < n < QUEUE_SIZE
    ensures (f + k) % QUEUE_SIZE != (f + n) % QUEUE_SIZE
  {
  }

  lemma OccupancyAfterPush(f: int, r: int)
    requires 0 <= f < QUEUE_SIZE && 0 <= r < QUEUE_SIZE
    requires (r - f) % QUEUE_SIZE < QUEUE_SIZE - 1
    ensures ((r + 1) % QUEUE_SIZE - f) % QUEUE_SIZE == (r - f) % QUEUE_SIZE + 1
  {
  }

  lemma OccupancyAfterPop(f: int, r: int)
    requires 0 <= f < QUEUE_SIZE && 0 <= r < QUEUE_SIZE
    requires (r - f) % QUEUE_SIZE > 0
    ensures (r - (f + 1) % QUEUE_SIZE) % QUEUE_SIZE == (r - f) % QUEUE_SIZE - 1
  {
  }

  lemma PositionAfterPop(f: int, k: int)
    requires 0 <= f < QUEUE_SIZE && 0 <= k < QUEUE_SIZE
    ensures ((f + 1) % QUEUE_SIZE + k) % QUEUE_SIZE == (f + k + 1) % QUEUE_SIZE
  {
  }

  /** The record stored in slot `i`. */
  function Record(s: seq<int>, q: Queue, i: nat): (r: seq<int>)
    requires Indexed(s, q) && 0 <= i < QUEUE_SIZE
    ensures |r| == q.width
  {
    SlotBounds(q, i);
    s[SlotAt(q, i) .. SlotAt(q, i) + q.width]
  }

  /** The number of records held, as front and rear count it. */
  function Occupancy(s: seq<int>, q: Queue): (n: int)
    requires Indexed(s, q)
    ensures 0 <= n < QUEUE_SIZE
    ensures n == 0 <==> s[q.front] == s[q.rear]
  {
    (s[q.rear] - s[q.front]) % QUEUE_SIZE
  }

  /** The records held, oldest first. */
  function Contents(s: seq<int>, q: Queue): (c: seq<seq<int>>)
    requires Indexed(s, q)
    ensures |c| == Occupancy(s, q)
    ensures forall k :: 0 <= k < |c| ==> |c[k]| == q.width
  {
    var c := seq(Occupancy(s, q), k requires 0 <= k < Occupancy(s, q) => Record(s, q, (s[q.front] + k) % QUEUE_SIZE));
    assert forall k :: 0 <= k < |c| ==> c[k] == Record(s, q, (s[q.front] + k) % QUEUE_SIZE);
    c
  }

  /** The pending-count cell equals the queue's occupancy. */
  predicate Balanced(s: seq<int>, q: Queue)
    requires Indexed(s, q)
  {
    s[q.pending] == Occupancy(s, q)
  }

  /** The record at the front slot. */
  function Head(s: seq<int>, q: Queue): (r: seq<int>)
    requires Indexed(s, q)
    ensures |r| == q.width
  {
    Record(s, q, s[q.front])
  }

  /** Enqueue: write the record into the rear slot, advance rear modulo
      QUEUE_SIZE, then increment the pending count. */
  function Pushed(s: seq<int>, q: Queue, rec: seq<int>): (t: seq<int>)
    requires Indexed(s, q) && |rec| == q.width
    ensures Indexed(t, q)
  {
    var at := SlotAt(q, s[q.rear]);
    SlotBounds(q, s[q.rear]);
    var written := s[..at] + rec + s[at + q.width..];
    var advanced := written[q.rear := (s[q.rear] + 1) % QUEUE_SIZE];
    advanced[q.pending := advanced[q.pending] + 1]
  }

  /** Dequeue: advance front modulo QUEUE_SIZE, then decrement the pending count. */
  function Popped(s: seq<int>, q: Queue): (t: seq<int>)
    requires Indexed(s, q)
    ensures Indexed(t, q)
  {
    var moved := s[q.front := (s[q.front] + 1) % QUEUE_SIZE];
    moved[q.pending := moved[q.pending] - 1]
  }

  /** Enqueueing changes the rear slot's cells, the rear cell and the pending
      cell, and no other cell. */
  lemma PushedCell(s: seq<int>, q: Queue, rec: seq<int>, i: int)
    requires Indexed(s, q) && |rec| == q.width && 0 <= i < |s|
    ensures var at := SlotAt(q, s[q.rear]);
      Pushed(s, q, rec)[i] ==
        if i == q.rear then (s[q.rear] + 1) % QUEUE_SIZE
        else if i == q.pending then s[q.pending] + 1
        else if at <= i < at + q.width then rec[i - at]
        else s[i]
  {
    SlotBounds(q, s[q.rear]);
  }

  /** Dequeueing changes the front cell and the pending cell, and no other cell:
      the record read stays in its slot. */
  lemma PoppedCell(s: seq<int>, q: Queue, i: int)
    requires Indexed(s, q) && 0 <= i < |s|
    ensures Popped(s, q)[i] ==
      if i == q.front then (s[q.front] + 1) % QUEUE_SIZE
      else if i == q.pending then s[q.pending] - 1
      else s[i]
  {
  }

  /** A record depends only on the cells of its slot. */
  lemma RecordFrame(s: seq<int>, t: seq<int>, q: Queue, j: nat)
    requires Indexed(s, q) && Indexed(t, q) && 0 <= j < QUEUE_SIZE
    requires forall i :: 0 <= i < |s| && SlotAt(q, j) <= i < SlotAt(q, j) + q.width ==> s[i] == t[i]
    ensures Record(s, q, j) == Record(t, q, j)
  {
    SlotBounds(q, j);
    var a := SlotAt(q, j);
    assert forall m :: 0 <= m < q.width ==> Record(s, q, j)[m] == s[a + m] == t[a + m] == Record(t, q, j)[m];
  }

  /** The cells a queue's view depends on: the header and the whole data area. */
  predicate SameQueueCells(s: seq<int>, t: seq<int>, q: Queue)
    requires Indexed(s, q) && |t| == |s|
  {
    && s[q.front] == t[q.front] && s[q.rear] == t[q.rear] && s[q.pending] == t[q.pending]
    && forall i :: q.data <= i < q.data + QUEUE_SIZE * q.width ==> s[i] == t[i]
  }

  /** A queue whose cells are unchanged holds the same records and keeps its balance. */
  lemma ContentsFrame(s: seq<int>, t: seq<int>, q: Queue)
    requires Indexed(s, q) && |t| == |s| && SameQueueCells(s, t, q)
    ensures Indexed(t, q) && Contents(t, q) == Contents(s, q)
    ensures Balanced(t, q) <==> Balanced(s, q)
  {
    forall k | 0 <= k < Occupancy(s, q)
      ensures Contents(t, q)[k] == Contents(s, q)[k]
    {
      var j := (s[q.front] + k) % QUEUE_SIZE;
      SlotBounds(q, j);
      RecordFrame(s, t, q, j);
    }
  }

  /** Enqueueing leaves every record but the rear slot's in place. */
  lemma PushedKeepsRecord(s: seq<int>, q: Queue, rec: seq<int>, j: nat)
    requires Indexed(s, q) && |rec| == q.width && j < QUEUE_SIZE && j != s[q.rear]
    ensures Record(Pushed(s, q, rec), q, j) == Record(s, q, j)
  {
    var t := Pushed(s, q, rec);
    SlotBounds(q, j);
    SlotBounds(q, s[q.rear]);
    if j < s[q.rear] { SlotsApart(q, j, s[q.rear]); } else { SlotsApart(q, s[q.rear], j); }
    forall i | 0 <= i < |s| && SlotAt(q, j) <= i < SlotAt(q, j) + q.width
      ensures s[i] == t[i]
    {
      PushedCell(s, q, rec, i);
    }
    RecordFrame(s, t, q, j);
  }

  /** Enqueueing stores the record in the rear slot. */
  lemma PushedWritesRecord(s: seq<int>, q: Queue, rec: seq<int>)
    requires Indexed(s, q) && |rec| == q.width
    ensures Record(Pushed(s, q, rec), q, s[q.rear]) == rec
  {
    var at := SlotAt(q, s[q.rear]);
    SlotBounds(q, s[q.rear]);
    forall m | 0 <= m < q.width
      ensures Record(Pushed(s, q, rec), q, s[q.rear])[m] == rec[m]
    {
      PushedCell(s, q, rec, at + m);
    }
  }

  /** Enqueueing below capacity keeps front and raises the occupancy by one. */
  lemma PushedOccupancy(s: seq<int>, q: Queue, rec: seq<int>)
    requires Indexed(s, q) && |rec| == q.width
    requires Occupancy(s, q) < QUEUE_SIZE - 1
    ensures Pushed(s, q, rec)[q.front] == s[q.front]
    ensures Occupancy(Pushed(s, q, rec), q) == Occupancy(s, q) + 1
  {
    SlotBounds(q, s[q.rear]);
    PushedCell(s, q, rec, q.front);
    PushedCell(s, q, rec, q.rear);
    OccupancyAfterPush(s[q.front], s[q.rear]);
  }

  /** Enqueueing below capacity appends the record to the queue's contents. */
  lemma PushedContents(s: seq<int>, q: Queue, rec: seq<int>)
    requires Indexed(s, q) && |rec| == q.width
    requires Occupancy(s, q) < QUEUE_SIZE - 1
    ensures Occupancy(Pushed(s, q, rec), q) == Occupancy(s, q) + 1
    ensures Contents(Pushed(s, q, rec), q) == Contents(s, q) + [rec]
  {
    var t := Pushed(s, q, rec);
    var f, r, n := s[q.front], s[q.rear], Occupancy(s, q);
    PushedOccupancy(s, q, rec);
    forall k | 0 <= k < n
      ensures Contents(t, q)[k] == Contents(s, q)[k]
    {
      PositionsDistinct(f, k, n);
      RearFromOccupancy(f, r);
      PushedKeepsRecord(s, q, rec, (f + k) % QUEUE_SIZE);
    }
    RearFromOccupancy(f, r);
    PushedWritesRecord(s, q, rec);
    assert Contents(t, q)[n] == rec;
  }

  /** Dequeueing leaves every record in place. */
  lemma PoppedKeepsRecord(s: seq<int>, q: Queue, j: nat)
    requires Indexed(s, q) && j < QUEUE_SIZE
    ensures Record(Popped(s, q), q, j) == Record(s, q, j)
  {
    SlotBounds(q, j);
    forall i | 0 <= i < |s| && SlotAt(q, j) <= i < SlotAt(q, j) + q.width
      ensures s[i] == Popped(s, q)[i]
    {
      PoppedCell(s, q, i);
    }
    RecordFrame(s, Popped(s, q), q, j);
  }

  /** Dequeueing a non-empty queue yields its oldest record and drops it from the contents. */
  lemma PoppedContents(s: seq<int>, q: Queue)
    requires Indexed(s, q) && Occupancy(s, q) > 0
    ensures Head(s, q) == Contents(s, q)[0]
    ensures Occupancy(Popped(s, q), q) == Occupancy(s, q) - 1
    ensures Contents(Popped(s, q), q) == Contents(s, q)[1..]
  {
    var t := Popped(s, q);
    var f, n := s[q.front], Occupancy(s, q);
    PoppedOccupancy(s, q);
    assert (f + 0) % QUEUE_SIZE == f;
    forall k | 0 <= k < n - 1
      ensures Contents(t, q)[k] == Contents(s, q)[k + 1]
    {
      PositionAfterPop(f, k);
      PoppedKeepsRecord(s, q, (f + k + 1) % QUEUE_SIZE);
    }
  }

  /** Dequeueing from a non-empty queue advances front and lowers the occupancy by one. */
  lemma PoppedOccupancy(s: seq<int>, q: Queue)
    requires Indexed(s, q) && Occupancy(s, q) > 0
    ensures Popped(s, q)[q.front] == (s[q.front] + 1) % QUEUE_SIZE
    ensures Occupancy(Popped(s, q), q) == Occupancy(s, q) - 1
  {
    PoppedCell(s, q, q.front);
    PoppedCell(s, q, q.rear);
    OccupancyAfterPop(s[q.front], s[q.rear]);
  }

  /** When the pending count is balanced, "pending > 0" (the waiter's test) and
      "front != rear" (the cook's test) decide emptiness alike. */
  lemma BalancedEmptiness(s: seq<int>, q: Queue)
    requires Indexed(s, q) && Balanced(s, q)
    ensures s[q.pending] > 0 <==> s[q.front] != s[q.rear]
    ensures s[q.pending] == 0 <==> s[q.front] == s[q.rear]
  {
  }

  /** Enqueue below capacity and dequeue of a non-empty queue keep the pending
      count equal to (rear - front) mod QUEUE_SIZE. */
  lemma BalancePreserved(s: seq<int>, q: Queue, rec: seq<int>)
    requires Indexed(s, q) && Balanced(s, q) && |rec| == q.width
    ensures Occupancy(s, q) < QUEUE_SIZE - 1 ==> Balanced(Pushed(s, q, rec), q)
    ensures Occupancy(s, q) > 0 ==> Balanced(Popped(s, q), q)
  {
    PushedCell(s, q, rec, q.pending);
    if Occupancy(s, q) < QUEUE_SIZE - 1 {
      PushedContents(s, q, rec);
    }
    if Occupancy(s, q) > 0 {
      PoppedContents(s, q);
    }
  }

  /** A run of enqueues, one per record, in order. */
  function PushAll(s: seq<int>, q: Queue, recs: seq<seq<int>>): (t: seq<int>)
    requires Indexed(s, q) && forall r <- recs :: |r| == q.width
    ensures Indexed(t, q)
    decreases |recs|
  {
    if recs == [] then s else PushAll(Pushed(s, q, recs[0]), q, recs[1..])
  }

  /** A run of `n` dequeues: the records read, in order, and the final region. */
  function PopAll(s: seq<int>, q: Queue, n: nat): (out: (seq<seq<int>>, seq<int>))
    requires Indexed(s, q)
    ensures |out.0| == n && Indexed(out.1, q)
    decreases n
  {
    if n == 0 then ([], s)
    else
      var rest := PopAll(Popped(s, q), q, n - 1);
      ([Head(s, q)] + rest.0, rest.1)
  }

  lemma AppendOne<T>(a: seq<T>, x: T, rest: seq<T>)
    ensures (a + [x]) + rest == a + ([x] + rest)
  {
  }

  lemma {:induction false} PushAllContents(s: seq<int>, q: Queue, recs: seq<seq<int>>)
    requires Indexed(s, q) && forall r <- recs :: |r| == q.width
    requires Occupancy(s, q) + |recs| < QUEUE_SIZE
    ensures Contents(PushAll(s, q, recs), q) == Contents(s, q) + recs
    decreases |recs|
  {
    if recs != [] {
      var t := Pushed(s, q, recs[0]);
      var rest := recs[1..];
      assert recs == [recs[0]] + rest;
      PushedContents(s, q, recs[0]);
      assert forall r <- rest :: |r| == q.width;
      PushAllContents(t, q, rest);
      AppendOne(Contents(s, q), recs[0], rest);
    }
  }

  lemma {:induction false} PopAllContents(s: seq<int>, q: Queue, n: nat)
    requires Indexed(s, q) && n <= Occupancy(s, q)
    ensures PopAll(s, q, n).0 == Contents(s, q)[..n]
    ensures Contents(PopAll(s, q, n).1, q) == Contents(s, q)[n..]
    decreases n
  {
    if n > 0 {
      PoppedContents(s, q);
      PopAllContents(Popped(s, q), q, n - 1);
      assert Contents(s, q)[1..][..n - 1] == Contents(s, q)[1..n];
      assert Contents(s, q)[1..][n - 1..] == Contents(s, q)[n..];
    }
  }

  /** FIFO round trip: while fewer than QUEUE_SIZE records are outstanding,
      enqueueing `recs` and then dequeueing everything yields the records that
      were already queued followed by `recs`, in insertion order, each exactly
      once, and leaves the queue empty. */
  lemma FifoRoundTrip(s: seq<int>, q: Queue, recs: seq<seq<int>>)
    requires Indexed(s, q) && forall r <- recs :: |r| == q.width
    requires Occupancy(s, q) + |recs| < QUEUE_SIZE
    ensures PopAll(PushAll(s, q, recs), q, Occupancy(s, q) + |recs|).0 == Contents(s, q) + recs
    ensures Contents(PopAll(PushAll(s, q, recs), q, Occupancy(s, q) + |recs|).1, q) == []
  {
    var t := PushAll(s, q, recs);
    PushAllContents(s, q, recs);
    var n := Occupancy(s, q) + |recs|;
    PopAllContents(t, q, n);
    assert |Contents(t, q)| == n;
    assert Contents(t, q)[..n] == Contents(t, q);
    assert Contents(t, q)[n..] == [];
  }
}
