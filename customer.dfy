/** The customer actor (customer.c): the arrival critical section (clock merge,
    the closing and table checks, seating with round-robin waiter assignment and
    the enqueue on that waiter's queue), the departure after eating, and the
    validation of the arrival list read by the launcher. */
module Customer {
  import opened Layout
  import opened Queues
  import opened Shared

  /** Minutes a party spends eating. */
  const EATING_TIME: int := 30

  /** How an arrival ends: turned away because the restaurant is closed, turned
      away for lack of a table, or seated and assigned to `waiter`. */
  datatype Arrival = LeftClosed | LeftNoTable | Seated(waiter: int)

  /** The decision an arriving customer takes under the mutex. */
  function Decide(s: seq<int>, arrivalTime: int): Arrival
    requires |s| == SHM_SIZE
  {
    if Merge(s[TIME], arrivalTime) >= CLOSING_TIME then LeftClosed
    else if s[EMPTY_TABLES] <= 0 then LeftNoTable
    else Seated(s[NEXT_WAITER])
  }

  /** What the arrival reads is addressable: when the customer is seated, the
      cursor names a waiter whose front and rear are slot numbers. */
  predicate ArrivalReady(s: seq<int>, arrivalTime: int) {
    |s| == SHM_SIZE &&
    (Decide(s, arrivalTime).Seated? ==> 0 <= s[NEXT_WAITER] < NUM_WAITERS && Indexed(s, WaiterQueue(s[NEXT_WAITER])))
  }

  /** The region once a seated customer has merged the clock, taken a table and
      moved the waiter cursor on. */
  function SeatedRegion(s: seq<int>, arrivalTime: int): (t: seq<int>)
    requires |s| == SHM_SIZE
    ensures |t| == SHM_SIZE
  {
    s[TIME := Merge(s[TIME], arrivalTime)][EMPTY_TABLES := s[EMPTY_TABLES] - 1][NEXT_WAITER := (s[NEXT_WAITER] + 1) % NUM_WAITERS]
  }

  /** The region after the arrival critical section. */
  function AfterArrival(s: seq<int>, customerId: int, arrivalTime: int, partySize: int): (t: seq<int>)
    requires ArrivalReady(s, arrivalTime)
    ensures |t| == SHM_SIZE
  {
    match Decide(s, arrivalTime)
    case Seated(w) => Pushed(SeatedRegion(s, arrivalTime), WaiterQueue(w), [customerId, partySize])
    case _ => s[TIME := Merge(s[TIME], arrivalTime)]
  }

  /** The enqueue on a waiter's queue made by a seated customer: the pair goes
      into the rear slot, rear advances and the waiter's pending count grows. */
  method EnqueueForWaiter(shm: array<int>, w: int, customerId: int, partySize: int)
    requires 0 <= w < NUM_WAITERS && Indexed(shm[..], WaiterQueue(w))
    modifies shm
    ensures shm[..] == Pushed(old(shm[..]), WaiterQueue(w), [customerId, partySize])
  {
    ghost var s := shm[..];
    var rear := shm[WaiterRear(w)];
    shm[WaiterQueueStart(w) + rear * 2] := customerId;
    shm[WaiterQueueStart(w) + rear * 2 + 1] := partySize;
    shm[WaiterRear(w)] := (rear + 1) % QUEUE_SIZE;
    shm[WaiterPendingOrders(w)] := shm[WaiterPendingOrders(w)] + 1;
    TimesIsProduct(rear, 2);
    forall i | 0 <= i < SHM_SIZE
      ensures shm[i] == Pushed(s, WaiterQueue(w), [customerId, partySize])[i]
    {
      PushedCell(s, WaiterQueue(w), [customerId, partySize], i);
    }
  }

  /** The arrival critical section; a seated customer then signals its waiter. */
  method Arrive(shm: array<int>, sems: array<int>, customerId: int, arrivalTime: int, partySize: int)
    returns (a: Arrival)
    requires shm.Length == SHM_SIZE && sems.Length == TOTAL_SEMS && shm != sems
    requires ArrivalReady(shm[..], arrivalTime)
    modifies shm, sems
    ensures a == Decide(old(shm[..]), arrivalTime)
    ensures shm[..] == AfterArrival(old(shm[..]), customerId, arrivalTime, partySize)
    ensures sems[..] == if a.Seated? then Posted(old(sems[..]), WAITER_SEM_BASE + a.waiter) else old(sems[..])
  {
    ghost var s := shm[..];
    if arrivalTime > shm[TIME] {
      shm[TIME] := arrivalTime;
    }
    assert shm[..] == s[TIME := Merge(s[TIME], arrivalTime)];
    if shm[TIME] >= CLOSING_TIME {
      return LeftClosed;
    }
    if shm[EMPTY_TABLES] <= 0 {
      return LeftNoTable;
    }
    shm[EMPTY_TABLES] := shm[EMPTY_TABLES] - 1;
    var waiterId := shm[NEXT_WAITER];
    shm[NEXT_WAITER] := (waiterId + 1) % NUM_WAITERS;
    assert shm[..] == SeatedRegion(s, arrivalTime);
    EnqueueForWaiter(shm, waiterId, customerId, partySize);
    var _ := Put(sems, WAITER_SEM_BASE + waiterId);
    a := Seated(waiterId);
  }

  /** While its rear slot is at most 97, an enqueue on waiter `w`'s queue
      changes no cell outside the waiter's own area. */
  lemma WaiterPushFrame(s: seq<int>, w: int, rec: seq<int>, i: int)
    requires 0 <= w < NUM_WAITERS && Indexed(s, WaiterQueue(w)) && |rec| == 2
    requires s[WaiterRear(w)] <= 97
    requires 0 <= i < SHM_SIZE && !(WaiterArea(w) <= i < WaiterArea(w + 1))
    ensures Pushed(s, WaiterQueue(w), rec)[i] == s[i]
  {
    TimesIsProduct(s[WaiterRear(w)], 2);
    PushedCell(s, WaiterQueue(w), rec, i);
  }

  /** Every arrival merges its arrival time into the clock; a customer turned
      away changes nothing else. */
  lemma ArrivalMergesClock(s: seq<int>, customerId: int, arrivalTime: int, partySize: int)
    requires ArrivalReady(s, arrivalTime)
    ensures AfterArrival(s, customerId, arrivalTime, partySize)[TIME] == Merge(s[TIME], arrivalTime)
    ensures Decide(s, arrivalTime) == LeftClosed <==> Merge(s[TIME], arrivalTime) >= CLOSING_TIME
    ensures Decide(s, arrivalTime) == LeftNoTable <==> Merge(s[TIME], arrivalTime) < CLOSING_TIME && s[EMPTY_TABLES] <= 0
    ensures !Decide(s, arrivalTime).Seated? ==>
      AfterArrival(s, customerId, arrivalTime, partySize) == s[TIME := Merge(s[TIME], arrivalTime)]
  {
    if Decide(s, arrivalTime).Seated? {
      var w := s[NEXT_WAITER];
      var seated := SeatedRegion(s, arrivalTime);
      SlotBounds(WaiterQueue(w), seated[WaiterRear(w)]);
      PushedCell(seated, WaiterQueue(w), [customerId, partySize], TIME);
    }
  }

  /** Seating: the customer takes one of the free tables, is assigned the waiter
      the cursor names, the cursor moves on round-robin, and the customer's
      (id, party size) pair is written at that waiter's rear slot, with rear
      advanced and the waiter's pending count incremented, at any occupancy.
      Below capacity the pair is appended to the queue's contents. */
  lemma SeatingEffects(s: seq<int>, customerId: int, arrivalTime: int, partySize: int)
    requires ArrivalReady(s, arrivalTime) && Decide(s, arrivalTime).Seated?
    ensures var w := s[NEXT_WAITER];
      var t := AfterArrival(s, customerId, arrivalTime, partySize);
      && Decide(s, arrivalTime).waiter == w
      && s[EMPTY_TABLES] > 0 && t[EMPTY_TABLES] == s[EMPTY_TABLES] - 1
      && t[NEXT_WAITER] == (w + 1) % NUM_WAITERS
      && t[WaiterQueueStart(w) + s[WaiterRear(w)] * 2] == customerId
      && t[WaiterQueueStart(w) + s[WaiterRear(w)] * 2 + 1] == partySize
      && t[WaiterRear(w)] == (s[WaiterRear(w)] + 1) % QUEUE_SIZE
      && t[WaiterPendingOrders(w)] == s[WaiterPendingOrders(w)] + 1
      && (Occupancy(s, WaiterQueue(w)) < QUEUE_SIZE - 1 ==>
            Contents(t, WaiterQueue(w)) == Contents(s, WaiterQueue(w)) + [[customerId, partySize]])
  {
    var w := s[NEXT_WAITER];
    var q := WaiterQueue(w);
    var rec := [customerId, partySize];
    var seated := SeatedRegion(s, arrivalTime);
    var r := s[WaiterRear(w)];
    SlotBounds(q, r);
    TimesIsProduct(r, 2);
    PushedCell(seated, q, rec, EMPTY_TABLES);
    PushedCell(seated, q, rec, NEXT_WAITER);
    PushedCell(seated, q, rec, WaiterRear(w));
    PushedCell(seated, q, rec, WaiterPendingOrders(w));
    PushedCell(seated, q, rec, WaiterQueueStart(w) + r * 2);
    PushedCell(seated, q, rec, WaiterQueueStart(w) + r * 2 + 1);
    if Occupancy(s, q) < QUEUE_SIZE - 1 {
      assert SameQueueCells(s, seated, q);
      ContentsFrame(s, seated, q);
      PushedContents(seated, q, rec);
    }
  }

  /** While the rear slot is at most 97, seating changes only the three global
      cells it updates and cells of the assigned waiter's own area: no other
      waiter's cells and no cook-queue cell. */
  lemma SeatingLeavesOthers(s: seq<int>, customerId: int, arrivalTime: int, partySize: int, i: int)
    requires ArrivalReady(s, arrivalTime) && Decide(s, arrivalTime).Seated?
    requires s[WaiterRear(s[NEXT_WAITER])] <= 97
    requires 0 <= i < SHM_SIZE && i != TIME && i != EMPTY_TABLES && i != NEXT_WAITER
    requires !(WaiterArea(s[NEXT_WAITER]) <= i < WaiterArea(s[NEXT_WAITER] + 1))
    ensures AfterArrival(s, customerId, arrivalTime, partySize)[i] == s[i]
  {
    WaiterPushFrame(SeatedRegion(s, arrivalTime), s[NEXT_WAITER], [customerId, partySize], i);
  }

  /** The other side of that bound: a customer seated while the waiter's rear is
      98 writes its id and party size over the next waiter's front and rear (the
      cook queue's front and rear, for the last waiter). */
  lemma SeatingAtSlot98Overwrites(s: seq<int>, customerId: int, arrivalTime: int, partySize: int)
    requires ArrivalReady(s, arrivalTime) && Decide(s, arrivalTime).Seated?
    requires s[WaiterRear(s[NEXT_WAITER])] == 98
    ensures var w := s[NEXT_WAITER];
      var t := AfterArrival(s, customerId, arrivalTime, partySize);
      && t[if w + 1 < NUM_WAITERS then WaiterFront(w + 1) else COOK_FRONT] == customerId
      && t[if w + 1 < NUM_WAITERS then WaiterRear(w + 1) else COOK_REAR] == partySize
  {
    var w := s[NEXT_WAITER];
    var seated := SeatedRegion(s, arrivalTime);
    TimesIsProduct(98, 2);
    LastSlotsOverlapNextHeader(w);
    PushedCell(seated, WaiterQueue(w), [customerId, partySize], WaiterQueueStart(w) + 98 * 2);
    PushedCell(seated, WaiterQueue(w), [customerId, partySize], WaiterQueueStart(w) + 98 * 2 + 1);
  }

  /** Seating with the waiter's rear at most 97 leaves the cook queue as it was. */
  lemma SeatingKeepsCookQueue(s: seq<int>, customerId: int, arrivalTime: int, partySize: int)
    requires Consistent(s) && Decide(s, arrivalTime).Seated?
    requires s[WaiterRear(s[NEXT_WAITER])] <= 97
    ensures var t := AfterArrival(s, customerId, arrivalTime, partySize);
      Indexed(t, CookQueue) && Contents(t, CookQueue) == Contents(s, CookQueue) && Balanced(t, CookQueue)
  {
    var w := s[NEXT_WAITER];
    var rec := [customerId, partySize];
    var seated := SeatedRegion(s, arrivalTime);
    var t := Pushed(seated, WaiterQueue(w), rec);
    WaiterPushFrame(seated, w, rec, PENDING_ORDERS);
    WaiterPushFrame(seated, w, rec, COOK_FRONT);
    WaiterPushFrame(seated, w, rec, COOK_REAR);
    forall i | COOK_QUEUE_DATA <= i < COOK_QUEUE_DATA + QUEUE_SIZE * 3
      ensures t[i] == s[i]
    {
      WaiterPushFrame(seated, w, rec, i);
    }
    assert SameQueueCells(s, t, CookQueue);
    ContentsFrame(s, t, CookQueue);
  }

  /** Seating with the waiter's rear at most 97 leaves every other waiter's
      indices and balance as they were. */
  lemma SeatingKeepsOtherWaiter(s: seq<int>, customerId: int, arrivalTime: int, partySize: int, v: int)
    requires Consistent(s) && Decide(s, arrivalTime).Seated?
    requires s[WaiterRear(s[NEXT_WAITER])] <= 97 && 0 <= v < NUM_WAITERS && v != s[NEXT_WAITER]
    ensures var t := AfterArrival(s, customerId, arrivalTime, partySize);
      Indexed(t, WaiterQueue(v)) && Balanced(t, WaiterQueue(v))
  {
    var w := s[NEXT_WAITER];
    var rec := [customerId, partySize];
    var seated := SeatedRegion(s, arrivalTime);
    HeaderCellsDistinct(v, w, 0, 0);
    WaiterPushFrame(seated, w, rec, WaiterFront(v));
    WaiterPushFrame(seated, w, rec, WaiterRear(v));
    WaiterPushFrame(seated, w, rec, WaiterPendingOrders(v));
    assert Indexed(s, WaiterQueue(v)) && Balanced(s, WaiterQueue(v));
  }

  /** Seating with the waiter's rear at most 97 and its queue below capacity
      keeps every waiter's indices and balance. */
  lemma SeatingKeepsWaiters(s: seq<int>, customerId: int, arrivalTime: int, partySize: int)
    requires Consistent(s) && Decide(s, arrivalTime).Seated?
    requires s[WaiterRear(s[NEXT_WAITER])] <= 97 && Occupancy(s, WaiterQueue(s[NEXT_WAITER])) < QUEUE_SIZE - 1
    ensures WaitersConsistent(AfterArrival(s, customerId, arrivalTime, partySize))
  {
    var w := s[NEXT_WAITER];
    var q := WaiterQueue(w);
    var seated := SeatedRegion(s, arrivalTime);
    assert SameQueueCells(s, seated, q);
    ContentsFrame(s, seated, q);
    BalancePreserved(seated, q, [customerId, partySize]);
    forall v | 0 <= v < NUM_WAITERS && v != w
      ensures var t := AfterArrival(s, customerId, arrivalTime, partySize);
        Indexed(t, WaiterQueue(v)) && Balanced(t, WaiterQueue(v))
    {
      SeatingKeepsOtherWaiter(s, customerId, arrivalTime, partySize, v);
    }
  }

  /** A seated customer keeps the region consistent when its waiter's queue is
      below capacity and its rear slot is at most 97. */
  lemma SeatingKeepsConsistent(s: seq<int>, customerId: int, arrivalTime: int, partySize: int)
    requires Consistent(s) && Decide(s, arrivalTime).Seated?
    requires s[WaiterRear(s[NEXT_WAITER])] <= 97 && Occupancy(s, WaiterQueue(s[NEXT_WAITER])) < QUEUE_SIZE - 1
    ensures Consistent(AfterArrival(s, customerId, arrivalTime, partySize))
  {
    var t := AfterArrival(s, customerId, arrivalTime, partySize);
    SeatingKeepsCookQueue(s, customerId, arrivalTime, partySize);
    SeatingKeepsWaiters(s, customerId, arrivalTime, partySize);
    WaiterPushFrame(SeatedRegion(s, arrivalTime), s[NEXT_WAITER], [customerId, partySize], NEXT_WAITER);
  }

  /** An arrival keeps the region consistent, provided that a seated customer
      finds its waiter's queue below capacity and its rear slot at most 97. */
  lemma ArrivalKeepsConsistent(s: seq<int>, customerId: int, arrivalTime: int, partySize: int)
    requires Consistent(s)
    requires Decide(s, arrivalTime).Seated? ==>
      s[WaiterRear(s[NEXT_WAITER])] <= 97 && Occupancy(s, WaiterQueue(s[NEXT_WAITER])) < QUEUE_SIZE - 1
    ensures Consistent(AfterArrival(s, customerId, arrivalTime, partySize))
  {
    if Decide(s, arrivalTime).Seated? {
      SeatingKeepsConsistent(s, customerId, arrivalTime, partySize);
    } else {
      ClockKeepsConsistent(s, Merge(s[TIME], arrivalTime));
    }
  }

  /** A customer takes a table only when one is free, so an arrival keeps
      0 <= EMPTY_TABLES <= MAX_TABLES. */
  lemma ArrivalKeepsTableBounds(s: seq<int>, customerId: int, arrivalTime: int, partySize: int)
    requires ArrivalReady(s, arrivalTime) && 0 <= s[EMPTY_TABLES] <= MAX_TABLES
    ensures 0 <= AfterArrival(s, customerId, arrivalTime, partySize)[EMPTY_TABLES] <= MAX_TABLES
    ensures AfterArrival(s, customerId, arrivalTime, partySize)[EMPTY_TABLES]
         == TablesAfter(s[EMPTY_TABLES], TableArrival(Merge(s[TIME], arrivalTime) < CLOSING_TIME))
  {
    if Decide(s, arrivalTime).Seated? {
      var w := s[NEXT_WAITER];
      var seated := SeatedRegion(s, arrivalTime);
      SlotBounds(WaiterQueue(w), seated[WaiterRear(w)]);
      PushedCell(seated, WaiterQueue(w), [customerId, partySize], EMPTY_TABLES);
    }
  }

  // ----- Departure -----

  /** The region after the customer has eaten: the clock advanced by
      EATING_TIME from the value captured on entry. */
  function AfterEating(s: seq<int>, timeAtWriteback: int): (t: seq<int>)
    requires |s| == SHM_SIZE
    ensures |t| == SHM_SIZE
  {
    s[TIME := Merge(timeAtWriteback, s[TIME] + EATING_TIME)]
  }

  /** The region after the customer has eaten and freed its table. */
  function AfterDeparture(s: seq<int>, timeAtWriteback: int): (t: seq<int>)
    requires |s| == SHM_SIZE
    ensures |t| == SHM_SIZE
  {
    var eaten := AfterEating(s, timeAtWriteback);
    eaten[EMPTY_TABLES := eaten[EMPTY_TABLES] + 1]
  }

  /** How a departure ends. `NoCounter`: the take on the customer's counter
      fails and the customer exits. `Deadlocked`: the customer's counter number
      wraps onto the mutex, so that take acquires the lock; the mutex is a
      binary lock, and the customer's own take on it before freeing the table
      then blocks forever, leaving the table taken and every other actor
      stalled at its next take on the mutex. `Left`: the table is freed. */
  datatype Departure = Left | NoCounter | Deadlocked

  function DepartureOutcome(bank: seq<int>, customerId: int): (d: Departure)
    ensures d == NoCounter <==> SemNum(CUSTOMER_SEM_BASE + customerId) >= |bank|
    ensures d == Deadlocked <==>
      SemNum(CUSTOMER_SEM_BASE + customerId) == MUTEX_SEM < |bank| && bank[MUTEX_SEM] == 1
    ensures 0 <= customerId < MAX_CUSTOMERS && |bank| == TOTAL_SEMS ==> d == Left
  {
    var n := SemNum(CUSTOMER_SEM_BASE + customerId);
    if n >= |bank| then NoCounter
    else if n == MUTEX_SEM && bank[MUTEX_SEM] == 1 then Deadlocked
    else Left
  }

  /** Woken by its waiter, the customer eats and frees its table, unless its
      counter number lies outside the bank (the customer exits) or lands on
      the mutex (the customer blocks holding the lock, having eaten). */
  method Depart(shm: array<int>, sems: array<int>, customerId: int, timeAtWriteback: int) returns (d: Departure)
    requires shm.Length == SHM_SIZE && sems.Length == TOTAL_SEMS && shm != sems
    requires SemNum(CUSTOMER_SEM_BASE + customerId) < TOTAL_SEMS ==> sems[SemNum(CUSTOMER_SEM_BASE + customerId)] > 0
    modifies shm, sems
    ensures d == DepartureOutcome(old(sems[..]), customerId)
    ensures sems[..] == Taken(old(sems[..]), CUSTOMER_SEM_BASE + customerId)
    ensures shm[..] == match d
      case Left => AfterDeparture(old(shm[..]), timeAtWriteback)
      case NoCounter => old(shm[..])
      case Deadlocked => AfterEating(old(shm[..]), timeAtWriteback)
  {
    var ok := Take(sems, CUSTOMER_SEM_BASE + customerId);
    if !ok {
      return NoCounter;
    }
    UpdateTime(shm, EATING_TIME, timeAtWriteback);
    if SemNum(CUSTOMER_SEM_BASE + customerId) == MUTEX_SEM && sems[MUTEX_SEM] == 0 {
      return Deadlocked;
    }
    shm[EMPTY_TABLES] := shm[EMPTY_TABLES] + 1;
    d := Left;
  }

  /** Departure frees exactly one table, raises the clock to at least 30 minutes
      past the captured value, and touches no other cell. */
  lemma DepartureEffects(s: seq<int>, timeAtWriteback: int, i: int)
    requires |s| == SHM_SIZE && 0 <= i < SHM_SIZE && i != TIME && i != EMPTY_TABLES
    ensures AfterDeparture(s, timeAtWriteback)[EMPTY_TABLES] == TablesAfter(s[EMPTY_TABLES], TableDeparture)
    ensures AfterDeparture(s, timeAtWriteback)[TIME] >= s[TIME] + EATING_TIME
    ensures AfterDeparture(s, timeAtWriteback)[TIME] >= timeAtWriteback
    ensures AfterDeparture(s, timeAtWriteback)[i] == s[i]
  {
  }

  /** Departure keeps the region consistent, whether or not the table gets
      freed: it writes only the clock and the free-table count, which no queue
      reads. */
  lemma DepartureKeepsConsistent(s: seq<int>, timeAtWriteback: int)
    requires Consistent(s)
    ensures Consistent(AfterEating(s, timeAtWriteback))
    ensures Consistent(AfterDeparture(s, timeAtWriteback))
  {
    var eaten := AfterEating(s, timeAtWriteback);
    var t := AfterDeparture(s, timeAtWriteback);
    ClockKeepsConsistent(s, Merge(timeAtWriteback, s[TIME] + EATING_TIME));
    assert SameQueueCells(eaten, t, CookQueue);
    ContentsFrame(eaten, t, CookQueue);
    assert SameWaiterHeaders(eaten, t);
    WaitersFrame(eaten, t);
  }

  /** The read loop accepts any non-negative id, but the counter number is
      truncated to 16 bits: customer 65529 has no counter of its own, and its
      take before eating acquires the mutex. Its departure then deadlocks:
      the table is never freed. */
  lemma LargeIdDeadlocksOnMutex(s: seq<int>, bank: seq<int>, timeAtWriteback: int)
    requires |s| == SHM_SIZE
    requires |bank| == TOTAL_SEMS && bank[MUTEX_SEM] == 1
    ensures Acceptable(CustomerRecord(65529, 0, 1))
    ensures CUSTOMER_SEM_BASE + 65529 >= TOTAL_SEMS
    ensures SemNum(CUSTOMER_SEM_BASE + 65529) == MUTEX_SEM
    ensures Taken(bank, CUSTOMER_SEM_BASE + 65529) == bank[MUTEX_SEM := 0]
    ensures DepartureOutcome(bank, 65529) == Deadlocked
    ensures AfterEating(s, timeAtWriteback)[EMPTY_TABLES] == s[EMPTY_TABLES]
  {
  }

  // ----- Table accounting over a run -----

  /** What happens to the table count: an arrival while open or closed, or a departure. */
  datatype TableEvent = TableArrival(open: bool) | TableDeparture

  /** The EMPTY_TABLES update customer.c makes for one event. */
  function TablesAfter(tables: int, e: TableEvent): int {
    match e
    case TableArrival(open) => if open && tables > 0 then tables - 1 else tables
    case TableDeparture => tables + 1
  }

  /** Replays events from `tables` free tables and `seated` parties at table;
      the result is the final pair. */
  function Replay(tables: int, seated: int, events: seq<TableEvent>): (int, int)
    decreases |events|
  {
    if events == [] then (tables, seated)
    else
      var e := events[0];
      var seats := if e.TableArrival? && e.open && tables > 0 then 1 else if e.TableDeparture? then -1 else 0;
      Replay(TablesAfter(tables, e), seated + seats, events[1..])
  }

  /** Every departure in the run is by a party that is at a table. */
  predicate DeparturesSeated(tables: int, seated: int, events: seq<TableEvent>)
    decreases |events|
  {
    events == [] ||
    (var e := events[0];
     var seats := if e.TableArrival? && e.open && tables > 0 then 1 else if e.TableDeparture? then -1 else 0;
     (e.TableDeparture? ==> seated > 0) && DeparturesSeated(TablesAfter(tables, e), seated + seats, events[1..]))
  }

  /** Over any run in which only seated parties leave, starting from all tables
      free, free tables plus occupied tables stay MAX_TABLES, so
      0 <= EMPTY_TABLES <= MAX_TABLES throughout. */
  lemma {:induction false} TablesStayBounded(tables: int, seated: int, events: seq<TableEvent>)
    requires 0 <= tables && 0 <= seated && tables + seated == MAX_TABLES
    requires DeparturesSeated(tables, seated, events)
    ensures var (t, n) := Replay(tables, seated, events);
      0 <= t <= MAX_TABLES && 0 <= n && t + n == MAX_TABLES
    decreases |events|
  {
    if events != [] {
      var e := events[0];
      var seats := if e.TableArrival? && e.open && tables > 0 then 1 else if e.TableDeparture? then -1 else 0;
      TablesStayBounded(TablesAfter(tables, e), seated + seats, events[1..]);
    }
  }

  // ----- Round-robin assignment -----

  /** The waiters that `n` consecutive seated customers are assigned, starting
      from cursor `cursor`: each seating takes the cursor and moves it to
      (cursor + 1) % NUM_WAITERS, as Arrive does. */
  function Assignments(cursor: int, n: nat): seq<int>
    decreases n
  {
    if n == 0 then [] else [cursor] + Assignments((cursor + 1) % NUM_WAITERS, n - 1)
  }

  lemma CursorSteps(cursor: int, k: int)
    requires 0 <= cursor < NUM_WAITERS && 1 <= k
    ensures ((cursor + 1) % NUM_WAITERS + (k - 1)) % NUM_WAITERS == (cursor + k) % NUM_WAITERS
  {
  }

  /** The k-th seated customer goes to waiter (cursor + k) mod NUM_WAITERS. */
  lemma {:induction false} RoundRobin(cursor: int, n: nat)
    requires 0 <= cursor < NUM_WAITERS
    ensures |Assignments(cursor, n)| == n
    ensures forall k :: 0 <= k < n ==> Assignments(cursor, n)[k] == (cursor + k) % NUM_WAITERS
    decreases n
  {
    if n > 0 {
      var next := (cursor + 1) % NUM_WAITERS;
      RoundRobin(next, n - 1);
      forall k | 1 <= k < n
        ensures Assignments(cursor, n)[k] == (cursor + k) % NUM_WAITERS
      {
        assert Assignments(cursor, n)[k] == Assignments(next, n - 1)[k - 1];
        CursorSteps(cursor, k);
      }
    }
  }

  /** From the initial cursor, six seated customers go to waiters 0,1,2,3,4,0. */
  lemma SixArrivals()
    ensures Assignments(0, 6) == [0, 1, 2, 3, 4, 0]
  {
  }

  /** Seating consumes the cursor exactly as Assignments does. */
  lemma SeatingFollowsAssignments(s: seq<int>, customerId: int, arrivalTime: int, partySize: int, n: nat)
    requires ArrivalReady(s, arrivalTime) && Decide(s, arrivalTime).Seated?
    ensures Assignments(s[NEXT_WAITER], n + 1)
         == [Decide(s, arrivalTime).waiter] + Assignments(AfterArrival(s, customerId, arrivalTime, partySize)[NEXT_WAITER], n)
  {
    var w := s[NEXT_WAITER];
    var seated := SeatedRegion(s, arrivalTime);
    SlotBounds(WaiterQueue(w), seated[WaiterRear(w)]);
    PushedCell(seated, WaiterQueue(w), [customerId, partySize], NEXT_WAITER);
  }

  // ----- Arrival list -----

  /** One line of the arrival list. */
  datatype CustomerRecord = CustomerRecord(id: int, arrivalTime: int, partySize: int)

  /** The launcher either starts every listed customer, or starts every customer
      up to the first bad record (those keep running) and then aborts there. */
  datatype ReadOutcome = Launched(customers: seq<CustomerRecord>) | Aborted(at: int)

  predicate Acceptable(r: CustomerRecord) {
    r.id >= 0 && r.arrivalTime >= 0 && r.partySize >= 0
  }

  /** The launcher's read loop: id -1 ends the list, a record with a negative
      id, arrival time or party size aborts, every other record starts a customer. */
  method ReadCustomers(records: seq<CustomerRecord>) returns (out: ReadOutcome)
    ensures out.Launched? ==>
      && |out.customers| <= |records|
      && out.customers == records[..|out.customers|]
      && (forall r <- out.customers :: Acceptable(r))
      && (|out.customers| == |records| || records[|out.customers|].id == -1)
    ensures out.Aborted? ==>
      && 0 <= out.at < |records|
      && records[out.at].id != -1 && !Acceptable(records[out.at])
      && forall j :: 0 <= j < out.at ==> Acceptable(records[j])
  {
    var launched: seq<CustomerRecord> := [];
    var i := 0;
    while i < |records|
      invariant 0 <= i <= |records|
      invariant launched == records[..i]
      invariant forall j :: 0 <= j < i ==> Acceptable(records[j])
    {
      var r := records[i];
      if r.id == -1 {
        break;
      }
      if r.id < 0 || r.arrivalTime < 0 || r.partySize < 0 {
        return Aborted(i);
      }
      launched := launched + [r];
      i := i + 1;
    }
    return Launched(launched);
  }
}
