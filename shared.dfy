/** The operations every actor shares (ipc_shared.h): the counter bank's put
    and take, the cook queue's enqueue and dequeue, the clock's merge rule, and
    the consistency of the region that every critical section relies on. */
module Shared {
  import opened Layout
  import opened Queues

  // ----- Counter bank -----

  /** `take` and `put` store their counter number in the `sem_num` field of a
      `struct sembuf`, an `unsigned short`: the number is reduced modulo 65536
      before the bank is indexed. */
  const SEM_NUM_RANGE: int := 65536

  function SemNum(i: int): (n: int)
    ensures 0 <= n < SEM_NUM_RANGE
    ensures 0 <= i < SEM_NUM_RANGE ==> n == i
    ensures (n - i) % SEM_NUM_RANGE == 0
  {
    i % SEM_NUM_RANGE
  }

  /** The bank after a put on counter number `i`; a truncated number outside
      the bank makes the put fail (the actor then exits) and changes nothing. */
  function Posted(bank: seq<int>, i: int): seq<int> {
    var n := SemNum(i);
    if n < |bank| then bank[n := bank[n] + 1] else bank
  }

  /** The bank after a take on counter number `i`, which only proceeds once the
      counter is positive; a truncated number outside the bank makes it fail. */
  function Taken(bank: seq<int>, i: int): seq<int>
    requires SemNum(i) < |bank| ==> bank[SemNum(i)] > 0
  {
    var n := SemNum(i);
    if n < |bank| then bank[n := bank[n] - 1] else bank
  }

  /** A take undoes a put on the same counter, and a put raises exactly one
      counter: the one its truncated number names. */
  lemma PutTakeInverse(bank: seq<int>, i: int)
    requires forall j :: 0 <= j < |bank| ==> bank[j] >= 0
    ensures Taken(Posted(bank, i), i) == bank
    ensures |Posted(bank, i)| == |bank|
    ensures forall j :: 0 <= j < |bank| ==> Posted(bank, i)[j] == bank[j] + (if j == SemNum(i) then 1 else 0)
  {
  }

  method Put(sems: array<int>, i: int) returns (ok: bool)
    modifies sems
    ensures ok <==> SemNum(i) < sems.Length
    ensures sems[..] == Posted(old(sems[..]), i)
  {
    var n := SemNum(i);
    ok := n < sems.Length;
    if ok {
      sems[n] := sems[n] + 1;
    }
  }

  /** The step that follows a take runs only once the counter is positive: the
      wait itself is not modelled. */
  method Take(sems: array<int>, i: int) returns (ok: bool)
    requires SemNum(i) < sems.Length ==> sems[SemNum(i)] > 0
    modifies sems
    ensures ok <==> SemNum(i) < sems.Length
    ensures sems[..] == Taken(old(sems[..]), i)
  {
    var n := SemNum(i);
    ok := n < sems.Length;
    if ok {
      sems[n] := sems[n] - 1;
    }
  }

  /** A counter number past the bank can still wrap onto a counter inside it:
      65536, one past the last `unsigned short`, names the mutex. */
  lemma WrappedNumberHitsBank(bank: seq<int>)
    requires |bank| == TOTAL_SEMS
    ensures SemNum(SEM_NUM_RANGE + MUTEX_SEM) == MUTEX_SEM
    ensures Posted(bank, SEM_NUM_RANGE + MUTEX_SEM) == bank[MUTEX_SEM := bank[MUTEX_SEM] + 1]
    ensures Posted(bank, -1) == bank
  {
  }

  // ----- Simulated clock -----

  /** The clock's merge rule: the larger of the current value and the candidate. */
  function Merge(current: int, candidate: int): (t: int)
    ensures t >= current && t >= candidate
    ensures t == current || t == candidate
  {
    if candidate > current then candidate else current
  }

  /** Advance the clock by `minutes` from the value captured on entry. The pause
      between the capture and the write-back is not under the mutex, so other
      actors may move the clock meanwhile: `timeAtWriteback` is the value the
      clock holds when the pause ends. */
  method UpdateTime(shm: array<int>, minutes: int, timeAtWriteback: int)
    requires shm.Length == SHM_SIZE
    modifies shm
    ensures shm[..] == old(shm[..])[TIME := Merge(timeAtWriteback, old(shm[TIME]) + minutes)]
  {
    var currTime := shm[TIME];
    shm[TIME] := timeAtWriteback;
    if currTime + minutes > shm[TIME] {
      shm[TIME] := currTime + minutes;
    }
  }

  /** The clock never goes back: after a merge it is at least the captured value
      plus `minutes`, at least the value it had at write-back, and one of the two. */
  lemma ClockNeverLowered(captured: int, minutes: int, atWriteback: int)
    requires minutes >= 0
    ensures Merge(atWriteback, captured + minutes) >= captured + minutes >= captured
    ensures Merge(atWriteback, captured + minutes) >= atWriteback
    ensures atWriteback >= captured + minutes ==> Merge(atWriteback, captured + minutes) == atWriteback
  {
  }

  // ----- Cook queue -----

  /** Write (waiter, customer, count) into the rear slot of the cook queue,
      advance rear and count one more pending order. */
  method AddCookingRequest(shm: array<int>, waiterId: int, customerId: int, count: int)
    requires Indexed(shm[..], CookQueue)
    modifies shm
    ensures shm[..] == Pushed(old(shm[..]), CookQueue, [waiterId, customerId, count])
  {
    ghost var s := shm[..];
    var rear := shm[COOK_REAR];
    shm[COOK_QUEUE_DATA + rear * 3] := waiterId;
    shm[COOK_QUEUE_DATA + rear * 3 + 1] := customerId;
    shm[COOK_QUEUE_DATA + rear * 3 + 2] := count;
    shm[COOK_REAR] := (rear + 1) % QUEUE_SIZE;
    shm[PENDING_ORDERS] := shm[PENDING_ORDERS] + 1;
    TimesIsProduct(rear, 3);
    forall i | 0 <= i < SHM_SIZE
      ensures shm[i] == Pushed(s, CookQueue, [waiterId, customerId, count])[i]
    {
      PushedCell(s, CookQueue, [waiterId, customerId, count], i);
    }
  }

  /** Read the triple at the front slot of the cook queue, advance front and
      count one pending order fewer; the data cells are left as they were. */
  method GetCookingRequest(shm: array<int>) returns (waiterId: int, customerId: int, count: int)
    requires Indexed(shm[..], CookQueue)
    modifies shm
    ensures [waiterId, customerId, count] == Head(old(shm[..]), CookQueue)
    ensures shm[..] == Popped(old(shm[..]), CookQueue)
  {
    var front := shm[COOK_FRONT];
    TimesIsProduct(front, 3);
    waiterId := shm[COOK_QUEUE_DATA + front * 3];
    customerId := shm[COOK_QUEUE_DATA + front * 3 + 1];
    count := shm[COOK_QUEUE_DATA + front * 3 + 2];
    shm[COOK_FRONT] := (front + 1) % QUEUE_SIZE;
    shm[PENDING_ORDERS] := shm[PENDING_ORDERS] - 1;
  }

  // ----- Region consistency -----

  /** Every outstanding cooking request names a waiter. */
  predicate RequestsNameWaiters(s: seq<int>)
    requires Indexed(s, CookQueue)
  {
    forall k :: 0 <= k < |Contents(s, CookQueue)| ==> 0 <= Contents(s, CookQueue)[k][0] < NUM_WAITERS
  }

  /** The waiter headers are well formed: front and rear are slot numbers and the
      pending count equals (rear - front) mod QUEUE_SIZE. */
  predicate WaitersConsistent(s: seq<int>) {
    forall w :: 0 <= w < NUM_WAITERS ==> Indexed(s, WaiterQueue(w)) && Balanced(s, WaiterQueue(w))
  }

  /** What every critical section relies on: the cursor names a waiter, and the
      cook queue and every waiter queue have slot-number indices and a pending
      count equal to their occupancy. */
  predicate Consistent(s: seq<int>) {
    && |s| == SHM_SIZE
    && 0 <= s[NEXT_WAITER] < NUM_WAITERS
    && Indexed(s, CookQueue) && Balanced(s, CookQueue) && RequestsNameWaiters(s)
    && WaitersConsistent(s)
  }

  /** The waiter headers hold the same values in `s` and `t`. */
  predicate SameWaiterHeaders(s: seq<int>, t: seq<int>)
    requires |s| == |t| == SHM_SIZE
  {
    forall w, i :: 0 <= w < NUM_WAITERS && 0 <= i < 4 ==> s[HeaderCell(w, i)] == t[HeaderCell(w, i)]
  }

  lemma WaitersFrame(s: seq<int>, t: seq<int>)
    requires |s| == |t| == SHM_SIZE && SameWaiterHeaders(s, t) && WaitersConsistent(s)
    ensures WaitersConsistent(t)
  {
    forall w | 0 <= w < NUM_WAITERS
      ensures Indexed(t, WaiterQueue(w)) && Balanced(t, WaiterQueue(w))
    {
      assert s[HeaderCell(w, 0)] == t[HeaderCell(w, 0)];
      assert s[HeaderCell(w, 1)] == t[HeaderCell(w, 1)];
      assert s[HeaderCell(w, 3)] == t[HeaderCell(w, 3)];
      assert Indexed(s, WaiterQueue(w)) && Balanced(s, WaiterQueue(w));
    }
  }

  /** Writing the clock keeps the region consistent: no queue depends on it. */
  lemma ClockKeepsConsistent(s: seq<int>, time: int)
    requires Consistent(s)
    ensures Consistent(s[TIME := time])
  {
    var t := s[TIME := time];
    assert SameQueueCells(s, t, CookQueue);
    ContentsFrame(s, t, CookQueue);
    assert SameWaiterHeaders(s, t);
    WaitersFrame(s, t);
  }

  /** Adding a cooking request leaves every cell before the cook queue alone, but
      for PENDING_ORDERS. */
  lemma CookPushLeavesWaiters(s: seq<int>, rec: seq<int>, i: int)
    requires Indexed(s, CookQueue) && |rec| == 3 && 0 <= i < COOK_FRONT && i != PENDING_ORDERS
    ensures Pushed(s, CookQueue, rec)[i] == s[i]
  {
    SlotBounds(CookQueue, s[COOK_REAR]);
    PushedCell(s, CookQueue, rec, i);
  }

  /** Adding a request for a waiter below capacity appends it to the cook queue,
      counts it in PENDING_ORDERS, and keeps the region consistent. */
  lemma AddKeepsConsistent(s: seq<int>, waiterId: int, customerId: int, count: int)
    requires Consistent(s) && 0 <= waiterId < NUM_WAITERS
    requires Occupancy(s, CookQueue) < QUEUE_SIZE - 1
    ensures Contents(Pushed(s, CookQueue, [waiterId, customerId, count]), CookQueue)
         == Contents(s, CookQueue) + [[waiterId, customerId, count]]
    ensures Pushed(s, CookQueue, [waiterId, customerId, count])[PENDING_ORDERS] == s[PENDING_ORDERS] + 1
    ensures Consistent(Pushed(s, CookQueue, [waiterId, customerId, count]))
  {
    var rec := [waiterId, customerId, count];
    var t := Pushed(s, CookQueue, rec);
    PushedContents(s, CookQueue, rec);
    BalancePreserved(s, CookQueue, rec);
    SlotBounds(CookQueue, s[COOK_REAR]);
    PushedCell(s, CookQueue, rec, NEXT_WAITER);
    PushedCell(s, CookQueue, rec, PENDING_ORDERS);
    forall w, i | 0 <= w < NUM_WAITERS && 0 <= i < 4
      ensures s[HeaderCell(w, i)] == t[HeaderCell(w, i)]
    {
      PushedCell(s, CookQueue, rec, HeaderCell(w, i));
    }
    WaitersFrame(s, t);
    assert forall k :: 0 <= k < |Contents(t, CookQueue)| ==>
      Contents(t, CookQueue)[k] == if k < |Contents(s, CookQueue)| then Contents(s, CookQueue)[k] else rec;
  }

  /** Taking a request from a non-empty cook queue yields its oldest request,
      removes it and keeps the region consistent. */
  lemma GetKeepsConsistent(s: seq<int>)
    requires Consistent(s) && s[COOK_FRONT] != s[COOK_REAR]
    ensures Contents(s, CookQueue) != [] && Head(s, CookQueue) == Contents(s, CookQueue)[0]
    ensures Contents(Popped(s, CookQueue), CookQueue) == Contents(s, CookQueue)[1..]
    ensures Popped(s, CookQueue)[PENDING_ORDERS] == s[PENDING_ORDERS] - 1
    ensures Consistent(Popped(s, CookQueue))
  {
    var t := Popped(s, CookQueue);
    PoppedContents(s, CookQueue);
    BalancePreserved(s, CookQueue, Head(s, CookQueue));
    forall w, i | 0 <= w < NUM_WAITERS && 0 <= i < 4
      ensures s[HeaderCell(w, i)] == t[HeaderCell(w, i)]
    {
      PoppedCell(s, CookQueue, HeaderCell(w, i));
    }
    WaitersFrame(s, t);
    assert forall k :: 0 <= k < |Contents(t, CookQueue)| ==> Contents(t, CookQueue)[k] == Contents(s, CookQueue)[k + 1];
  }
}
