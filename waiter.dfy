/** One round of a waiter's loop (waiter.c): woken on its own counter, the
    waiter checks, in this order, whether the session is over for it, whether a
    dish is waiting in its food-ready cell, and whether a seated customer's order
    is waiting in its queue; an order is forwarded to the cook queue. */
module Waiter {
  import opened Layout
  import opened Queues
  import opened Shared

  /** Minutes a waiter spends taking an order. */
  const ORDER_TIME: int := 1

  /** What a waiter does in one round. */
  datatype Dispatch = ExitLoop | Serve(customer: int) | TakeOrder(customer: int, count: int) | Idle

  /** The session is over for waiter `w`: past closing time with no pending order. */
  predicate Closing(s: seq<int>, w: int)
    requires |s| == SHM_SIZE && 0 <= w < NUM_WAITERS
  {
    s[TIME] >= CLOSING_TIME && s[WaiterPendingOrders(w)] == 0
  }

  /** What the round reads is addressable: when it takes an order, the waiter's
      queue and the cook queue have slot-number indices. */
  predicate WaiterReady(s: seq<int>, w: int) {
    && |s| == SHM_SIZE && 0 <= w < NUM_WAITERS
    && (!Closing(s, w) && s[WaiterFoodReady(w)] == NO_FOOD && s[WaiterPendingOrders(w)] > 0 ==>
          Indexed(s, WaiterQueue(w)) && Indexed(s, CookQueue))
  }

  /** The waiter's decision, in the source's priority order. */
  function Choose(s: seq<int>, w: int): Dispatch
    requires WaiterReady(s, w)
  {
    if Closing(s, w) then ExitLoop
    else if s[WaiterFoodReady(w)] != NO_FOOD then Serve(s[WaiterFoodReady(w)])
    else if s[WaiterPendingOrders(w)] > 0 then
      var order := Head(s, WaiterQueue(w));
      TakeOrder(order[0], order[1])
    else Idle
  }

  /** The region after an order is taken: dequeued from the waiter's queue, the
      clock advanced by ORDER_TIME from the captured value, and the request
      (waiter, customer, party size) added to the cook queue. */
  function Forwarded(s: seq<int>, w: int, timeAtWriteback: int): (t: seq<int>)
    requires WaiterReady(s, w) && Choose(s, w).TakeOrder?
    ensures |t| == SHM_SIZE
  {
    var d := Choose(s, w);
    var taken := Popped(s, WaiterQueue(w));
    var clocked := taken[TIME := Merge(timeAtWriteback, taken[TIME] + ORDER_TIME)];
    Pushed(clocked, CookQueue, [w, d.customer, d.count])
  }

  /** The region after one round. */
  function AfterRound(s: seq<int>, w: int, timeAtWriteback: int): (t: seq<int>)
    requires WaiterReady(s, w)
    ensures |t| == SHM_SIZE
  {
    match Choose(s, w)
    case Serve(_) => s[WaiterFoodReady(w) := NO_FOOD]
    case TakeOrder(_, _) => Forwarded(s, w, timeAtWriteback)
    case _ => s
  }

  /** The counter bank after the round's closing put: the served customer's
      counter, or the cook pool's counter once an order is forwarded. */
  function Signalled(bank: seq<int>, d: Dispatch): seq<int> {
    match d
    case Serve(c) => Posted(bank, CUSTOMER_SEM_BASE + c)
    case TakeOrder(_, _) => Posted(bank, COOK_SEM)
    case _ => bank
  }

  /** Read the pair at the front of waiter `w`'s queue, advance front and count
      one pending order fewer. */
  method DequeueOrder(shm: array<int>, w: int) returns (customerId: int, count: int)
    requires 0 <= w < NUM_WAITERS && Indexed(shm[..], WaiterQueue(w))
    modifies shm
    ensures [customerId, count] == Head(old(shm[..]), WaiterQueue(w))
    ensures shm[..] == Popped(old(shm[..]), WaiterQueue(w))
  {
    var front := shm[WaiterFront(w)];
    TimesIsProduct(front, 2);
    customerId := shm[WaiterQueueStart(w) + front * 2];
    count := shm[WaiterQueueStart(w) + front * 2 + 1];
    shm[WaiterFront(w)] := (front + 1) % QUEUE_SIZE;
    shm[WaiterPendingOrders(w)] := shm[WaiterPendingOrders(w)] - 1;
  }

  /** Take the oldest order, spend ORDER_TIME on it, and add it to the cook queue. */
  method ForwardOrder(shm: array<int>, w: int, timeAtWriteback: int) returns (customerId: int, count: int)
    requires shm.Length == SHM_SIZE && WaiterReady(shm[..], w) && Choose(shm[..], w).TakeOrder?
    modifies shm
    ensures Choose(old(shm[..]), w) == TakeOrder(customerId, count)
    ensures shm[..] == Forwarded(old(shm[..]), w, timeAtWriteback)
  {
    customerId, count := DequeueOrder(shm, w);
    UpdateTime(shm, ORDER_TIME, timeAtWriteback);
    AddCookingRequest(shm, w, customerId, count);
  }

  /** One round of waiter `w`'s loop, from the take on its own counter. `ok` is
      false when the served customer's id, truncated to a 16-bit counter number,
      has no counter: the put fails and the waiter exits. */
  method WaiterRound(shm: array<int>, sems: array<int>, w: int, timeAtWriteback: int)
    returns (d: Dispatch, ok: bool)
    requires shm.Length == SHM_SIZE && sems.Length == TOTAL_SEMS && shm != sems
    requires WaiterReady(shm[..], w) && sems[WAITER_SEM_BASE + w] > 0
    modifies shm, sems
    ensures d == Choose(old(shm[..]), w)
    ensures shm[..] == AfterRound(old(shm[..]), w, timeAtWriteback)
    ensures sems[..] == Signalled(Taken(old(sems[..]), WAITER_SEM_BASE + w), d)
    ensures ok <==> !(d.Serve? && SemNum(CUSTOMER_SEM_BASE + d.customer) >= TOTAL_SEMS)
  {
    var _ := Take(sems, WAITER_SEM_BASE + w);
    if shm[TIME] >= CLOSING_TIME && shm[WaiterPendingOrders(w)] == 0 {
      return ExitLoop, true;
    }
    if shm[WaiterFoodReady(w)] != NO_FOOD {
      var customerId := shm[WaiterFoodReady(w)];
      shm[WaiterFoodReady(w)] := NO_FOOD;
      ok := Put(sems, CUSTOMER_SEM_BASE + customerId);
      d := Serve(customerId);
    } else if shm[WaiterPendingOrders(w)] > 0 {
      var customerId, count := ForwardOrder(shm, w, timeAtWriteback);
      ok := Put(sems, COOK_SEM);
      d := TakeOrder(customerId, count);
    } else {
      d, ok := Idle, true;
    }
  }

  /** A consistent region is one a waiter's round can read. */
  lemma ConsistentIsWaiterReady(s: seq<int>, w: int)
    requires Consistent(s) && 0 <= w < NUM_WAITERS
    ensures WaiterReady(s, w)
  {
  }

  /** The session ends for the waiter exactly when the clock is past closing and
      it has no pending order; leaving the loop changes no cell. */
  lemma ClosingLeavesRegion(s: seq<int>, w: int, timeAtWriteback: int)
    requires WaiterReady(s, w)
    ensures Choose(s, w) == ExitLoop <==> s[TIME] >= CLOSING_TIME && s[WaiterPendingOrders(w)] == 0
    ensures Choose(s, w) == ExitLoop ==> AfterRound(s, w, timeAtWriteback) == s
  {
  }

  /** A waiting dish comes first: its customer is served, the food-ready cell is
      reset to NO_FOOD and no other cell changes (the queue and the pending count
      included), and the customer's counter is raised. */
  lemma ServeFirst(s: seq<int>, w: int, timeAtWriteback: int, bank: seq<int>)
    requires WaiterReady(s, w) && !Closing(s, w) && s[WaiterFoodReady(w)] != NO_FOOD
    ensures Choose(s, w) == Serve(s[WaiterFoodReady(w)])
    ensures AfterRound(s, w, timeAtWriteback)[WaiterFoodReady(w)] == NO_FOOD
    ensures forall i :: 0 <= i < SHM_SIZE && i != WaiterFoodReady(w) ==> AfterRound(s, w, timeAtWriteback)[i] == s[i]
    ensures Signalled(bank, Choose(s, w)) == Posted(bank, CUSTOMER_SEM_BASE + s[WaiterFoodReady(w)])
  {
  }

  /** The closing check comes before the dish check: past closing time with no
      pending order, the waiter leaves the loop even when a dish is waiting, and
      the dish stays in its food-ready cell. */
  lemma ClosingPreemptsDish(s: seq<int>, w: int, timeAtWriteback: int)
    requires WaiterReady(s, w) && s[TIME] >= CLOSING_TIME && s[WaiterPendingOrders(w)] == 0
    requires s[WaiterFoodReady(w)] != NO_FOOD
    ensures Choose(s, w) == ExitLoop
    ensures AfterRound(s, w, timeAtWriteback)[WaiterFoodReady(w)] == s[WaiterFoodReady(w)] != NO_FOOD
  {
  }

  /** With no dish waiting and no pending order, the round changes nothing. */
  lemma IdleRoundChangesNothing(s: seq<int>, w: int, timeAtWriteback: int, bank: seq<int>)
    requires WaiterReady(s, w) && !Closing(s, w)
    requires s[WaiterFoodReady(w)] == NO_FOOD && s[WaiterPendingOrders(w)] <= 0
    ensures Choose(s, w) == Idle
    ensures AfterRound(s, w, timeAtWriteback) == s
    ensures Signalled(bank, Choose(s, w)) == bank
  {
  }

  /** In a consistent region an order is taken exactly when no dish is waiting
      and the pending count is positive; the order taken is the oldest in the
      waiter's queue. */
  lemma TakesOldestOrder(s: seq<int>, w: int)
    requires Consistent(s) && 0 <= w < NUM_WAITERS
    ensures Choose(s, w).TakeOrder? <==>
      !Closing(s, w) && s[WaiterFoodReady(w)] == NO_FOOD && s[WaiterPendingOrders(w)] > 0
    ensures Choose(s, w).TakeOrder? ==>
      && Contents(s, WaiterQueue(w)) != []
      && [Choose(s, w).customer, Choose(s, w).count] == Contents(s, WaiterQueue(w))[0]
  {
    var q := WaiterQueue(w);
    if Choose(s, w).TakeOrder? {
      BalancedEmptiness(s, q);
      PoppedContents(s, q);
    }
  }

  /** Dequeueing an order in a consistent region removes the oldest pair from the
      waiter's queue and keeps the region consistent. */
  lemma DequeueKeepsConsistent(s: seq<int>, w: int)
    requires Consistent(s) && 0 <= w < NUM_WAITERS && s[WaiterPendingOrders(w)] > 0
    ensures Contents(Popped(s, WaiterQueue(w)), WaiterQueue(w)) == Contents(s, WaiterQueue(w))[1..]
    ensures Popped(s, WaiterQueue(w))[WaiterPendingOrders(w)] == s[WaiterPendingOrders(w)] - 1
    ensures Consistent(Popped(s, WaiterQueue(w)))
  {
    var q := WaiterQueue(w);
    var t := Popped(s, q);
    BalancedEmptiness(s, q);
    PoppedContents(s, q);
    BalancePreserved(s, q, Head(s, q));
    assert SameQueueCells(s, t, CookQueue);
    ContentsFrame(s, t, CookQueue);
    forall v | 0 <= v < NUM_WAITERS && v != w
      ensures Indexed(t, WaiterQueue(v)) && Balanced(t, WaiterQueue(v))
    {
      HeaderCellsDistinct(v, w, 0, 0);
      assert Indexed(s, WaiterQueue(v)) && Balanced(s, WaiterQueue(v));
    }
  }

  /** Forwarding: the pair taken from the front of the waiter's queue reaches
      the rear of the cook queue as (waiter, customer, party size), PENDING_ORDERS
      counts it, the waiter's front advances and its pending count drops by one,
      the clock moves on by at least ORDER_TIME, and the region stays consistent.
      (What the waiter's queue then holds is stated on the dequeue itself, in
      DequeueKeepsConsistent: the cook queue's front, rear and the first two
      cells of its slot 0 are also slots 98 and 99 of the last waiter's queue.) */
  lemma OrderForwarded(s: seq<int>, w: int, timeAtWriteback: int)
    requires Consistent(s) && 0 <= w < NUM_WAITERS && Choose(s, w).TakeOrder?
    requires Occupancy(s, CookQueue) < QUEUE_SIZE - 1
    ensures var t := AfterRound(s, w, timeAtWriteback);
      && Contents(s, WaiterQueue(w)) != []
      && Contents(t, CookQueue) == Contents(s, CookQueue) + [[w] + Contents(s, WaiterQueue(w))[0]]
      && t[PENDING_ORDERS] == s[PENDING_ORDERS] + 1
      && t[WaiterFront(w)] == (s[WaiterFront(w)] + 1) % QUEUE_SIZE
      && t[WaiterPendingOrders(w)] == s[WaiterPendingOrders(w)] - 1
      && t[TIME] == Merge(timeAtWriteback, s[TIME] + ORDER_TIME)
      && Consistent(t)
  {
    var q := WaiterQueue(w);
    var d := Choose(s, w);
    var taken := Popped(s, q);
    var clocked := taken[TIME := Merge(timeAtWriteback, taken[TIME] + ORDER_TIME)];
    TakesOldestOrder(s, w);
    DequeuedAndClocked(s, w, Merge(timeAtWriteback, taken[TIME] + ORDER_TIME));
    assert AfterRound(s, w, timeAtWriteback) == Pushed(clocked, CookQueue, [w, d.customer, d.count]);
    AddKeepsConsistent(clocked, w, d.customer, d.count);
    assert [w] + Contents(s, q)[0] == [w, d.customer, d.count];
    CookPushLeavesWaiters(clocked, [w, d.customer, d.count], TIME);
    CookPushLeavesWaiters(clocked, [w, d.customer, d.count], WaiterFront(w));
    CookPushLeavesWaiters(clocked, [w, d.customer, d.count], WaiterPendingOrders(w));
  }

  /** The first half of forwarding: after the dequeue and the clock write the
      region is consistent and the cook queue is as it was. */
  lemma DequeuedAndClocked(s: seq<int>, w: int, time: int)
    requires Consistent(s) && 0 <= w < NUM_WAITERS && s[WaiterPendingOrders(w)] > 0
    ensures var t := Popped(s, WaiterQueue(w))[TIME := time];
      && Consistent(t)
      && Contents(t, CookQueue) == Contents(s, CookQueue)
      && t[PENDING_ORDERS] == s[PENDING_ORDERS]
      && t[WaiterFront(w)] == (s[WaiterFront(w)] + 1) % QUEUE_SIZE
      && t[WaiterPendingOrders(w)] == s[WaiterPendingOrders(w)] - 1
  {
    var taken := Popped(s, WaiterQueue(w));
    DequeueKeepsConsistent(s, w);
    ClockKeepsConsistent(taken, time);
    assert SameQueueCells(s, taken[TIME := time], CookQueue);
    ContentsFrame(s, taken[TIME := time], CookQueue);
  }

  /** Every round keeps the region consistent, provided that an order taken
      finds the cook queue below capacity. */
  lemma RoundKeepsConsistent(s: seq<int>, w: int, timeAtWriteback: int)
    requires Consistent(s) && 0 <= w < NUM_WAITERS
    requires Choose(s, w).TakeOrder? ==> Occupancy(s, CookQueue) < QUEUE_SIZE - 1
    ensures Consistent(AfterRound(s, w, timeAtWriteback))
  {
    match Choose(s, w)
    case TakeOrder(_, _) =>
      OrderForwarded(s, w, timeAtWriteback);
    case Serve(_) =>
      var t := s[WaiterFoodReady(w) := NO_FOOD];
      assert SameQueueCells(s, t, CookQueue);
      ContentsFrame(s, t, CookQueue);
      forall v | 0 <= v < NUM_WAITERS
        ensures Indexed(t, WaiterQueue(v)) && Balanced(t, WaiterQueue(v))
      {
        HeaderCellsDistinct(v, w, 0, 2);
        HeaderCellsDistinct(v, w, 1, 2);
        HeaderCellsDistinct(v, w, 3, 2);
        assert Indexed(s, WaiterQueue(v)) && Balanced(s, WaiterQueue(v));
      }
    case _ =>
  }
}
