/** The cook side (cook.c): seeding the shared region and the counter bank at
    the start of the session, one round of a cook's loop (the closing check, a
    request cooked for its waiter, or nothing), and the last cook's wake-up of
    every waiter. */
module Cook {
  import opened Layout
  import opened Queues
  import opened Shared

  /** Cooking takes this many minutes per person in the party. */
  const MINUTES_PER_PERSON: int := 5

  // ----- Session initialisation -----

  /** The region after the waiter headers of waiters 0 .. n-1 are seeded:
      front, rear and pending 0, and no dish waiting. */
  function SeedWaiters(s: seq<int>, n: nat): (t: seq<int>)
    requires |s| == SHM_SIZE && n <= NUM_WAITERS
    ensures |t| == SHM_SIZE
    decreases n
  {
    if n == 0 then s
    else
      var w := n - 1;
      SeedWaiters(s, w)[WaiterFront(w) := 0][WaiterRear(w) := 0][WaiterFoodReady(w) := NO_FOOD][WaiterPendingOrders(w) := 0]
  }

  /** The region the session starts from: the global cells, every waiter header
      and the cook queue's front and rear seeded, every other cell as it was. */
  function Seeded(s: seq<int>): (t: seq<int>)
    requires |s| == SHM_SIZE
    ensures |t| == SHM_SIZE
  {
    var globals := s[TIME := 0][EMPTY_TABLES := MAX_TABLES][NEXT_WAITER := 0][PENDING_ORDERS := 0];
    SeedWaiters(globals, NUM_WAITERS)[COOK_FRONT := 0][COOK_REAR := 0]
  }

  method CreateSharedMemory(shm: array<int>)
    requires shm.Length == SHM_SIZE
    modifies shm
    ensures shm[..] == Seeded(old(shm[..]))
  {
    shm[TIME] := 0;
    shm[EMPTY_TABLES] := MAX_TABLES;
    shm[NEXT_WAITER] := 0;
    shm[PENDING_ORDERS] := 0;
    ghost var globals := shm[..];
    for i := 0 to NUM_WAITERS
      invariant shm[..] == SeedWaiters(globals, i)
    {
      shm[WaiterFront(i)] := 0;
      shm[WaiterRear(i)] := 0;
      shm[WaiterFoodReady(i)] := NO_FOOD;
      shm[WaiterPendingOrders(i)] := 0;
    }
    shm[COOK_FRONT] := 0;
    shm[COOK_REAR] := 0;
  }

  /** Seeding the first n waiters sets exactly their header cells. */
  lemma {:induction false} SeedWaitersCells(s: seq<int>, n: nat)
    requires |s| == SHM_SIZE && n <= NUM_WAITERS
    ensures forall w, j :: 0 <= w < n && 0 <= j < 4 ==>
      SeedWaiters(s, n)[HeaderCell(w, j)] == if j == 2 then NO_FOOD else 0
    ensures forall i :: 0 <= i < SHM_SIZE && (i < WAITER_AREA_START || i >= COOK_FRONT) ==> SeedWaiters(s, n)[i] == s[i]
    decreases n
  {
    if n > 0 {
      SeedWaitersCells(s, n - 1);
      forall w, j | 0 <= w < n && 0 <= j < 4
        ensures SeedWaiters(s, n)[HeaderCell(w, j)] == if j == 2 then NO_FOOD else 0
      {
        if w < n - 1 {
          HeaderCellsDistinct(w, n - 1, j, 0);
          HeaderCellsDistinct(w, n - 1, j, 1);
          HeaderCellsDistinct(w, n - 1, j, 2);
          HeaderCellsDistinct(w, n - 1, j, 3);
        }
      }
    }
  }

  /** The session starts at 11:00am with every table free, the cursor on waiter
      0, no pending order, every waiter's queue empty with no dish waiting, and
      the cook queue empty: a consistent region. */
  lemma SeededStart(s: seq<int>)
    requires |s| == SHM_SIZE
    ensures var t := Seeded(s);
      && t[TIME] == 0 && t[EMPTY_TABLES] == MAX_TABLES && t[NEXT_WAITER] == 0 && t[PENDING_ORDERS] == 0
      && t[COOK_FRONT] == 0 && t[COOK_REAR] == 0
      && (forall w :: 0 <= w < NUM_WAITERS ==>
            && t[WaiterFront(w)] == 0 && t[WaiterRear(w)] == 0
            && t[WaiterFoodReady(w)] == NO_FOOD && t[WaiterPendingOrders(w)] == 0)
      && Consistent(t)
      && Contents(t, CookQueue) == []
      && (forall w :: 0 <= w < NUM_WAITERS ==> Contents(t, WaiterQueue(w)) == [])
  {
    var globals := s[TIME := 0][EMPTY_TABLES := MAX_TABLES][NEXT_WAITER := 0][PENDING_ORDERS := 0];
    var t := Seeded(s);
    SeedWaitersCells(globals, NUM_WAITERS);
    forall w | 0 <= w < NUM_WAITERS
      ensures && t[WaiterFront(w)] == 0 && t[WaiterRear(w)] == 0
              && t[WaiterFoodReady(w)] == NO_FOOD && t[WaiterPendingOrders(w)] == 0
    {
      assert t[HeaderCell(w, 0)] == 0 && t[HeaderCell(w, 1)] == 0;
      assert t[HeaderCell(w, 2)] == NO_FOOD && t[HeaderCell(w, 3)] == 0;
    }
    assert t[PENDING_ORDERS] == globals[PENDING_ORDERS];
  }

  /** The counter bank the session starts from: the mutex free (1), every other
      counter 0. */
  method CreateSemaphores() returns (values: seq<int>)
    ensures |values| == TOTAL_SEMS
    ensures values[MUTEX_SEM] == 1
    ensures forall i :: 0 <= i < TOTAL_SEMS && i != MUTEX_SEM ==> values[i] == 0
  {
    var a := new int[TOTAL_SEMS];
    a[MUTEX_SEM] := 1;
    a[COOK_SEM] := 0;
    for i := 0 to NUM_WAITERS
      invariant a[MUTEX_SEM] == 1 && a[COOK_SEM] == 0
      invariant forall j :: WAITER_SEM_BASE <= j < WAITER_SEM_BASE + i ==> a[j] == 0
    {
      a[WAITER_SEM_BASE + i] := 0;
    }
    for i := 0 to MAX_CUSTOMERS
      invariant a[MUTEX_SEM] == 1 && a[COOK_SEM] == 0
      invariant forall j :: WAITER_SEM_BASE <= j < CUSTOMER_SEM_BASE ==> a[j] == 0
      invariant forall j :: CUSTOMER_SEM_BASE <= j < CUSTOMER_SEM_BASE + i ==> a[j] == 0
    {
      a[CUSTOMER_SEM_BASE + i] := 0;
    }
    values := a[..];
  }

  /** Every signal owner starts at 0 but the mutex, which starts free. */
  lemma InitialSignals(values: seq<int>, g: Signal)
    requires |values| == TOTAL_SEMS && values[MUTEX_SEM] == 1
    requires forall i :: 0 <= i < TOTAL_SEMS && i != MUTEX_SEM ==> values[i] == 0
    requires ValidSignal(g)
    ensures values[SemIndex(g)] == if g == Mutex then 1 else 0
  {
  }

  // ----- One round of a cook's loop -----

  /** What a cook does in one round: leave as the last cook, cook a request, or nothing. */
  datatype Dispatch = LastCook | Cooked(waiter: int, customer: int, count: int) | Idle

  /** Past closing time with no pending order. */
  predicate Closing(s: seq<int>)
    requires |s| == SHM_SIZE
  {
    s[TIME] >= CLOSING_TIME && s[PENDING_ORDERS] == 0
  }

  /** What the round reads is addressable: a request it cooks sits at a slot
      number and names a waiter, whose food-ready cell it writes. */
  predicate CookReady(s: seq<int>) {
    && |s| == SHM_SIZE
    && (!Closing(s) && s[COOK_FRONT] != s[COOK_REAR] ==>
          Indexed(s, CookQueue) && 0 <= Head(s, CookQueue)[0] < NUM_WAITERS)
  }

  /** The cook's decision. */
  function Choose(s: seq<int>): Dispatch
    requires CookReady(s)
  {
    if Closing(s) then LastCook
    else if s[COOK_FRONT] != s[COOK_REAR] then
      var r := Head(s, CookQueue);
      Cooked(r[0], r[1], r[2])
    else Idle
  }

  /** The minutes a party of `count` takes to cook. */
  function CookingTime(count: int): int {
    count * MINUTES_PER_PERSON
  }

  /** The region after one round: a cooked request is dequeued, the clock moves
      on by its cooking time from the captured value, and the customer's id is
      written into the waiter's food-ready cell. */
  function AfterRound(s: seq<int>, timeAtWriteback: int): (t: seq<int>)
    requires CookReady(s)
    ensures |t| == SHM_SIZE
  {
    match Choose(s)
    case Cooked(w, c, n) =>
      var taken := Popped(s, CookQueue);
      var clocked := taken[TIME := Merge(timeAtWriteback, taken[TIME] + CookingTime(n))];
      clocked[WaiterFoodReady(w) := c]
    case _ => s
  }

  /** The counter bank after `n` puts on the counters lo .. lo+n-1, in order. */
  function PostRange(bank: seq<int>, lo: int, n: nat): (b: seq<int>)
    ensures |b| == |bank|
    decreases n
  {
    if n == 0 then bank else Posted(PostRange(bank, lo, n - 1), lo + n - 1)
  }

  /** The cascade raises each counter in the range exactly once and no other
      (the range's numbers fit the 16-bit counter-number field). */
  lemma {:induction false} PostRangeRaisesEach(bank: seq<int>, lo: int, n: nat)
    requires 0 <= lo && lo + n <= |bank| && lo + n <= SEM_NUM_RANGE
    ensures forall i :: 0 <= i < |bank| ==>
      PostRange(bank, lo, n)[i] == bank[i] + (if lo <= i < lo + n then 1 else 0)
    decreases n
  {
    if n > 0 {
      PostRangeRaisesEach(bank, lo, n - 1);
    }
  }

  /** The last cook's cascade: one put on every waiter's counter. */
  method WakeAllWaiters(sems: array<int>)
    requires sems.Length == TOTAL_SEMS
    modifies sems
    ensures sems[..] == PostRange(old(sems[..]), WAITER_SEM_BASE, NUM_WAITERS)
  {
    for i := 0 to NUM_WAITERS
      invariant sems[..] == PostRange(old(sems[..]), WAITER_SEM_BASE, i)
    {
      var _ := Put(sems, WAITER_SEM_BASE + i);
    }
  }

  /** One round of a cook's loop, from the take on the cook pool's counter;
      the last cook goes on to wake every waiter. */
  method CookRound(shm: array<int>, sems: array<int>, timeAtWriteback: int) returns (d: Dispatch)
    requires shm.Length == SHM_SIZE && sems.Length == TOTAL_SEMS && shm != sems
    requires CookReady(shm[..]) && sems[COOK_SEM] > 0
    modifies shm, sems
    ensures d == Choose(old(shm[..]))
    ensures shm[..] == AfterRound(old(shm[..]), timeAtWriteback)
    ensures sems[..] ==
      match d
      case LastCook => PostRange(Taken(old(sems[..]), COOK_SEM), WAITER_SEM_BASE, NUM_WAITERS)
      case Cooked(w, _, _) => Posted(Taken(old(sems[..]), COOK_SEM), WAITER_SEM_BASE + w)
      case Idle => Taken(old(sems[..]), COOK_SEM)
  {
    var _ := Take(sems, COOK_SEM);
    var isLastCook := false;
    if shm[TIME] >= CLOSING_TIME && shm[PENDING_ORDERS] == 0 {
      isLastCook := true;
      d := LastCook;
    } else if shm[COOK_FRONT] != shm[COOK_REAR] {
      var waiterId, customerId, count := GetCookingRequest(shm);
      UpdateTime(shm, count * MINUTES_PER_PERSON, timeAtWriteback);
      shm[WaiterFoodReady(waiterId)] := customerId;
      var _ := Put(sems, WAITER_SEM_BASE + waiterId);
      d := Cooked(waiterId, customerId, count);
    } else {
      d := Idle;
    }
    if isLastCook {
      WakeAllWaiters(sems);
    }
  }

  /** A consistent region is one a cook's round can read: the request at the
      front, when there is one, names a waiter. */
  lemma ConsistentIsCookReady(s: seq<int>)
    requires Consistent(s)
    ensures CookReady(s)
  {
    if s[COOK_FRONT] != s[COOK_REAR] {
      GetKeepsConsistent(s);
    }
  }

  /** The cook becomes the last cook exactly when the clock is past closing and
      no order is pending; it then leaves every cell as it was. */
  lemma ClosingMakesLastCook(s: seq<int>, timeAtWriteback: int)
    requires CookReady(s)
    ensures Choose(s) == LastCook <==> s[TIME] >= CLOSING_TIME && s[PENDING_ORDERS] == 0
    ensures Choose(s) == LastCook ==> AfterRound(s, timeAtWriteback) == s
  {
  }

  /** A request is cooked only from a non-empty cook queue; else the round
      changes nothing. */
  lemma CooksOnlyWhenQueued(s: seq<int>, timeAtWriteback: int)
    requires CookReady(s)
    ensures Choose(s).Cooked? <==> !Closing(s) && s[COOK_FRONT] != s[COOK_REAR]
    ensures Choose(s) == Idle <==> !Closing(s) && s[COOK_FRONT] == s[COOK_REAR]
    ensures Choose(s) == Idle ==> AfterRound(s, timeAtWriteback) == s
  {
  }

  /** The last cook's cascade raises each waiter's counter by one and leaves the
      mutex, the cook pool and every customer's counter alone. */
  lemma CascadeWakesEachWaiterOnce(bank: seq<int>, g: Signal)
    requires |bank| == TOTAL_SEMS && ValidSignal(g)
    ensures PostRange(bank, WAITER_SEM_BASE, NUM_WAITERS)[SemIndex(g)]
         == bank[SemIndex(g)] + (if g.WaiterSignal? then 1 else 0)
  {
    PostRangeRaisesEach(bank, WAITER_SEM_BASE, NUM_WAITERS);
  }

  /** In a consistent region, a cooked request is the oldest in the cook queue:
      it leaves the queue, PENDING_ORDERS drops by one, the clock reaches at
      least the captured value plus its cooking time, and its customer's id is
      written into its waiter's food-ready cell whatever that cell held, while
      the other food-ready cells keep their dishes. */
  lemma CookingEffects(s: seq<int>, timeAtWriteback: int, v: int)
    requires Consistent(s) && !Closing(s) && s[COOK_FRONT] != s[COOK_REAR] && 0 <= v < NUM_WAITERS
    ensures CookReady(s)
    ensures var t := AfterRound(s, timeAtWriteback);
      var r := Contents(s, CookQueue)[0];
      && Choose(s) == Cooked(r[0], r[1], r[2])
      && Contents(t, CookQueue) == Contents(s, CookQueue)[1..]
      && t[PENDING_ORDERS] == s[PENDING_ORDERS] - 1
      && t[COOK_FRONT] == (s[COOK_FRONT] + 1) % QUEUE_SIZE
      && t[TIME] == Merge(timeAtWriteback, s[TIME] + CookingTime(r[2]))
      && t[TIME] >= s[TIME] + CookingTime(r[2])
      && t[WaiterFoodReady(r[0])] == r[1]
      && (v != r[0] ==> t[WaiterFoodReady(v)] == s[WaiterFoodReady(v)])
  {
    ConsistentIsCookReady(s);
    GetKeepsConsistent(s);
    var r := Contents(s, CookQueue)[0];
    assert r[0] == Head(s, CookQueue)[0];
    HeaderCellsDistinct(v, r[0], 2, 2);
    HeaderCellsDistinct(r[0], 0, 2, 0);
    var t := AfterRound(s, timeAtWriteback);
    var popped := Popped(s, CookQueue);
    assert SameQueueCells(popped, t, CookQueue);
    ContentsFrame(popped, t, CookQueue);
  }

  /** A party of two takes ten minutes: with no other actor moving the clock
      further meanwhile, cooking sets it to exactly ten minutes later. */
  lemma PartyOfTwoTakesTenMinutes(s: seq<int>, timeAtWriteback: int)
    requires CookReady(s) && Choose(s).Cooked? && Choose(s).count == 2
    requires timeAtWriteback <= s[TIME] + 10
    ensures AfterRound(s, timeAtWriteback)[TIME] == s[TIME] + 10
  {
    var w := Choose(s).waiter;
    HeaderCellsDistinct(w, 0, 2, 0);
  }

  /** Every round keeps the region consistent. */
  lemma RoundKeepsConsistent(s: seq<int>, timeAtWriteback: int)
    requires Consistent(s)
    ensures CookReady(s)
    ensures Consistent(AfterRound(s, timeAtWriteback))
  {
    ConsistentIsCookReady(s);
    if Choose(s).Cooked? {
      var w := Choose(s).waiter;
      var c := Choose(s).customer;
      var taken := Popped(s, CookQueue);
      var time := Merge(timeAtWriteback, taken[TIME] + CookingTime(Choose(s).count));
      var clocked := taken[TIME := time];
      var t := clocked[WaiterFoodReady(w) := c];
      GetKeepsConsistent(s);
      ClockKeepsConsistent(taken, time);
      assert SameQueueCells(clocked, t, CookQueue);
      ContentsFrame(clocked, t, CookQueue);
      forall v | 0 <= v < NUM_WAITERS
        ensures Indexed(t, WaiterQueue(v)) && Balanced(t, WaiterQueue(v))
      {
        HeaderCellsDistinct(v, w, 0, 2);
        HeaderCellsDistinct(v, w, 1, 2);
        HeaderCellsDistinct(v, w, 3, 2);
        assert Indexed(clocked, WaiterQueue(v)) && Balanced(clocked, WaiterQueue(v));
      }
    }
  }
}
