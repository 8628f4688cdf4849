# SimuDine restaurant: the shared-memory state machine in Dafny

SimuDine simulates a restaurant with three kinds of processes:

- customers, who arrive, are seated and are served;
- five waiters, who take orders and serve dishes;
- two cooks, who cook orders.

The processes share one region of 2000 `int` cells and a bank of 207 counting semaphores. The region holds:

- a clock, in minutes after 11:00am;
- the number of free tables;
- a round-robin cursor over the waiters;
- the number of pending cooking requests;
- for each waiter, a four-cell header (front, rear, food-ready cell, pending count) and a circular queue of (customer, party size) pairs;
- a circular cook queue of (waiter, customer, party size) triples.

Every critical section that an actor runs under the mutex is modelled as one atomic, in-place update of that region:

- The region is an `array<int>`, and so is the semaphore bank.
- Each step is a method.
- Each method is specified by a pure function on the region's contents (`seq<int>`).
- The queue properties, the layout facts and the step properties are lemmas about those functions.

Modules:

- `Layout` (`layout.dfy`): the constants, the cell addresses, and the semaphore indices.
- `Queues` (`queues.dfy`): one view of a circular queue in the region (header cells, data area, record width). It serves both the cook queue and the waiter queues. It defines what a queue holds (`Contents`), what enqueueing and dequeueing do (`Pushed`, `Popped`), and the FIFO lemmas.
- `Shared` (`shared.dfy`), the helpers every actor uses:
  - `Put` and `Take` on the counter bank;
  - the clock merge `UpdateTime`;
  - `AddCookingRequest` and `GetCookingRequest`;
  - the region invariant `Consistent`: the cursor NEXT_WAITER names a waiter (0 to 4), every queued cooking request names a waiter (`RequestsNameWaiters`), every pending count equals its queue's occupancy, and every front and rear index is a slot number.
- `Customer` (`customer.dfy`): arrival, with a clock merge, two ways to be turned away, and seating with round-robin assignment and an enqueue on the waiter's queue. Also departure, table accounting, and the arrival-list validation.
- `Waiter` (`waiter.dfy`): one round of a waiter's loop. It checks, in priority order: closing, serving the waiting dish, taking and forwarding an order, and otherwise doing nothing.
- `Cook` (`cook.dfy`): initialisation of the region and the bank, one round of a cook's loop, and the last cook's wake-up of every waiter.
- `Session` (`session.dfy`): how one actor's round feeds the next actor's round.

Every call of `update_time` runs outside the mutex: the capture of the clock, the pause, the comparison and the store. Other actors can move the clock meanwhile. The model takes the capture as one step and the comparison with its store as another. The parameter `timeAtWriteback` is the clock's value between the two. The write-back keeps the larger of that value and the captured start plus the minutes. A write by another actor between the comparison and the store is not modelled (see `## Left out`).

`put` increments a counter. `take` requires the counter to be positive and decrements it. Both store the counter number in an `unsigned short` field, so the number is first reduced modulo 65536 (`Shared.SemNum`). A take or put whose reduced number lies outside the bank fails (the call returns `ok == false`) and changes nothing; the source then exits. A number past the bank can wrap back into it. Customer 65529 passes the read loop's validation, and its take before eating (customer.c:61) acquires the mutex instead of a counter of its own. It then eats, and its take on the mutex before freeing the table (customer.c:69) blocks forever, since it holds the lock itself. The table is never freed and every other actor stalls at its next take on the mutex (`Customer.Depart`'s `Deadlocked` outcome, `Customer.LargeIdDeadlocksOnMutex`).

The closing check in `waiter.c` comes before the dish check. A waiter whose clock is past 180 with no pending order therefore leaves even when a dish is waiting for one of its customers (`Waiter.ClosingPreemptsDish`). When the waiter's round directly follows the cook's round, `Session.CookedDishIsServedNext` shows this is the only case in which the finished dish is not served. A dish can also be lost another way: a second cook can finish another dish for the same waiter before that waiter runs, and its write overwrites the food-ready cell (`Cook.CookingEffects`).

## Model

| member | source | states |
|---|---|---|
| Layout.SemIndex | ipc_shared.h:27-35 | every valid signal owner has an index inside the 207-counter bank |
| Layout.SignalAt | ipc_shared.h:27-35 | every bank index belongs to a valid owner |
| Layout.SignalIndexRoundTrip | ipc_shared.h:27-35 | index and owner are mutually inverse; TOTAL_SEMS is 207, the mutex is 0, the cook pool is 1, waiters are 2..6, customers are 7..206 |
| Layout.HeaderCellsDistinct | ipc_shared.h:38-59 | two waiter header cells coincide only if they are the same cell of the same waiter; all of them lie after the four global cells and before the cook queue |
| Layout.CookCellInRegion | ipc_shared.h:55-59 | each cell of each of the 100 cook-queue slots lies after the waiter areas and inside the 2000-cell region |
| Layout.WaiterSlotInArea | ipc_shared.h:43-53 | each waiter slot cell lies inside the region; it stays inside its own waiter's area if and only if the slot number is at most 97 |
| Layout.LastSlotsOverlapNextHeader | ipc_shared.h:43-59 | slots 98 and 99 of waiter w's queue are the next waiter's four header cells, or for the last waiter the cook queue's front, rear and first two data cells |
| Queues.Occupancy | ipc_shared.h:101-117 | occupancy `(rear - front) mod 100` is in [0, 100) and is 0 exactly when front equals rear |
| Queues.PushedCell | ipc_shared.h:101-108 | an enqueue writes the record into the rear slot, sets rear to (rear+1) mod 100, increments the pending count, and changes no other cell |
| Queues.PoppedCell | ipc_shared.h:110-117 | a dequeue sets front to (front+1) mod 100, decrements the pending count, and changes no other cell, data cells included |
| Queues.PushedContents | ipc_shared.h:101-108 | below capacity, an enqueue appends its record to the queue's contents and raises the occupancy by one |
| Queues.PoppedContents | ipc_shared.h:110-117 | on a non-empty queue, the record read is the oldest in the contents, and a dequeue removes exactly it |
| Queues.BalancedEmptiness | ipc_shared.h:101-117 | while pending equals occupancy, pending is positive exactly when front differs from rear |
| Queues.BalancePreserved | ipc_shared.h:101-117 | pending == occupancy is kept by an enqueue below capacity and by a dequeue from a non-empty queue |
| Queues.PushAllContents | ipc_shared.h:101-108 | a run of enqueues below capacity appends the records in order |
| Queues.PopAllContents | ipc_shared.h:110-117 | a run of n dequeues returns the first n records in order and leaves the rest |
| Queues.FifoRoundTrip | ipc_shared.h:101-117 | enqueueing records and then dequeueing everything returns the previous contents followed by the records, each exactly once and in insertion order, and leaves the queue empty |
| Shared.PutTakeInverse | ipc_shared.h:69-89 | a take undoes a put; a put raises exactly the counter its reduced number names by one |
| Shared.SemNum | ipc_shared.h:69-89 | the counter number stored in the 16-bit sem_num field lies in [0, 65536), equals the number when it fits, and differs from it by a multiple of 65536 |
| Shared.WrappedNumberHitsBank | ipc_shared.h:80-89 | a put on number 65536, one past the largest 16-bit number, raises the mutex counter; a put on -1 wraps to 65535, past the bank, and changes nothing |
| Shared.Put | ipc_shared.h:80-89 | succeeds exactly when the number reduced modulo 65536 lies inside the bank, and then increments that counter |
| Shared.Take | ipc_shared.h:69-78 | succeeds exactly when the number reduced modulo 65536 lies inside the bank, and then decrements that (positive) counter |
| Shared.Merge | ipc_shared.h:124-127 | the merged clock is at least both values and equal to one of them |
| Shared.UpdateTime | ipc_shared.h:120-128 | the clock ends at the larger of its value at write-back and the captured value plus the minutes; no other cell changes |
| Shared.ClockNeverLowered | ipc_shared.h:120-128 | for non-negative minutes, the merged clock is at least the captured value plus the minutes and at least its value at write-back |
| Shared.AddCookingRequest | ipc_shared.h:101-108 | the region after the call is the cook-queue enqueue of (waiter, customer, count) |
| Shared.GetCookingRequest | ipc_shared.h:110-117 | returns the triple at the front slot; the region after the call is the cook-queue dequeue |
| Shared.CookPushLeavesWaiters | ipc_shared.h:101-108 | adding a cooking request changes no global or waiter cell except PENDING_ORDERS |
| Shared.AddKeepsConsistent | ipc_shared.h:101-108 | below capacity, adding a request for a valid waiter appends it to the cook queue, counts it in PENDING_ORDERS, and keeps the region consistent |
| Shared.GetKeepsConsistent | ipc_shared.h:110-117 | on a non-empty cook queue, the request read is the oldest; it is removed, PENDING_ORDERS drops by one, and the region stays consistent |
| Customer.EnqueueForWaiter | customer.c:48-52 | the region after the writes is the enqueue of (customer, party size) on the waiter's queue |
| Customer.Arrive | customer.c:16-58 | the decision and the new region are those of Decide and AfterArrival; only a seated customer raises its waiter's counter |
| Customer.ArrivalMergesClock | customer.c:16-36 | afterwards TIME is max(old TIME, arrival); the customer is turned away for closing exactly when that is at least 180, and for lack of a table exactly when it is earlier and no table is free; a customer turned away changes only the clock |
| Customer.SeatingEffects | customer.c:38-52 | at any occupancy: a seated customer found a free table and EMPTY_TABLES drops by one; its waiter is the old cursor and the cursor becomes (old+1) mod 5; (id, party size) is written at the waiter's rear slot; rear advances and the waiter's pending count rises. Below capacity, the waiter's queue contents also gain the pair at the end |
| Customer.WaiterPushFrame | customer.c:48-52 | while its rear is at most 97, an enqueue on a waiter's queue changes no cell outside that waiter's area |
| Customer.SeatingLeavesOthers | customer.c:38-52 | while the rear is at most 97, seating changes nothing but the three global cells and the assigned waiter's own area |
| Customer.SeatingAtSlot98Overwrites | customer.c:48-50 | seating at rear slot 98 writes the customer id and party size over the next waiter's front and rear, or over the cook queue's front and rear |
| Customer.SeatingKeepsConsistent | customer.c:38-52 | with the waiter's rear at most 97 and its queue below capacity, seating keeps the region consistent |
| Customer.ArrivalKeepsConsistent | customer.c:16-52 | every arrival keeps the region consistent, under that bound for a seated customer |
| Customer.ArrivalKeepsTableBounds | customer.c:30-39 | an arrival keeps 0 <= EMPTY_TABLES <= 10 and updates the count as one table event |
| Customer.DepartureOutcome | customer.c:60-73 | the departure fails exactly when the id's reduced counter number lies outside the bank; it deadlocks exactly when that number is the mutex and the mutex is free; a customer with an id below MAX_CUSTOMERS always frees its table |
| Customer.Depart | customer.c:60-73 | the outcome is DepartureOutcome on the old bank, and the bank is the take on the reduced number; the region is unchanged on failure, has only the clock advanced on deadlock, and is AfterDeparture (clock advanced, one table freed) otherwise |
| Customer.DepartureEffects | customer.c:65-70 | departure frees one table, puts the clock at least 30 minutes past the captured value and at least at its write-back value, and changes no other cell |
| Customer.DepartureKeepsConsistent | customer.c:65-70 | departure keeps the region consistent, both after eating alone and after freeing the table |
| Customer.LargeIdDeadlocksOnMutex | customer.c:61-70 | customer id 65529 passes the read loop's validation, has no counter of its own, its take before eating decrements the free mutex to 0, its departure deadlocks, and the table count is left as it was |
| Customer.TablesStayBounded | customer.c:30-70 | over any run of arrivals and departures in which only seated parties leave, free tables plus occupied tables stay 10 and EMPTY_TABLES stays in [0, 10] |
| Customer.RoundRobin | customer.c:44-45 | the k-th seated customer after cursor c goes to waiter (c+k) mod 5 |
| Customer.SixArrivals | customer.c:44-45 | from the initial cursor, six seated customers go to waiters 0, 1, 2, 3, 4, 0 |
| Customer.SeatingFollowsAssignments | customer.c:44-45 | one seating consumes the cursor exactly as the round-robin sequence does |
| Customer.ReadCustomers | customer.c:118-142 | the launched customers are a prefix of the list and all valid; the list ends at its end or at id -1; an abort happens at the first record with a negative id, arrival time or party size that is not the -1 terminator |
| Waiter.DequeueOrder | waiter.c:54-60 | returns the pair at the waiter's front slot; the region after the call is that queue's dequeue |
| Waiter.ForwardOrder | waiter.c:54-72 | the pair returned is the order the round takes; the region afterwards is the dequeue, the clock write and the cook-queue enqueue of (waiter, customer, count) |
| Waiter.WaiterRound | waiter.c:31-80 | the decision and new region are those of Choose and AfterRound; the bank loses one on the waiter's counter and gains one on the served customer's counter or on the cook pool's counter |
| Waiter.ConsistentIsWaiterReady | waiter.c:53-56 | a consistent region is one a waiter's round can read |
| Waiter.ClosingLeavesRegion | waiter.c:34-38 | the waiter leaves exactly when TIME >= 180 and its pending count is 0, and leaving changes no cell |
| Waiter.ServeFirst | waiter.c:41-51 | a waiting dish is served first: the food-ready cell is reset to -1, no other cell changes (queue and pending count included), and the customer's counter rises |
| Waiter.ClosingPreemptsDish | waiter.c:34-41 | past closing with no pending order, the waiter leaves even with a dish waiting, and the dish stays in the food-ready cell |
| Waiter.IdleRoundChangesNothing | waiter.c:78-80 | with no dish waiting and no pending order (and not closing), the round changes neither the region nor the bank |
| Waiter.TakesOldestOrder | waiter.c:53-56 | in a consistent region an order is taken exactly when no dish waits and pending > 0, and the order is the oldest pair in the waiter's queue |
| Waiter.DequeueKeepsConsistent | waiter.c:53-60 | the dequeue removes the oldest pair, decrements pending, and keeps the region consistent |
| Waiter.DequeuedAndClocked | waiter.c:53-68 | after the dequeue and the clock write the region is consistent, and the cook queue and PENDING_ORDERS are unchanged |
| Waiter.OrderForwarded | waiter.c:53-77 | the dequeued (customer, count) reaches the rear of the cook queue as (waiter, customer, count); PENDING_ORDERS rises; the waiter's front advances and its pending count drops; the clock is merged with one minute past the captured value; the region stays consistent |
| Waiter.RoundKeepsConsistent | waiter.c:34-80 | every waiter round keeps the region consistent, when forwarding finds the cook queue below capacity |
| Cook.CreateSharedMemory | cook.c:33-49 | the region after the call is Seeded of the old one |
| Cook.SeedWaitersCells | cook.c:39-45 | seeding waiters 0..n-1 gives each a front, rear and pending count of 0 and a food-ready cell of -1, and changes no global or cook-queue cell |
| Cook.SeededStart | cook.c:33-49 | the session starts with TIME 0, 10 free tables, cursor 0 and PENDING_ORDERS 0; each waiter has front = rear = 0, food-ready -1 and pending 0; the cook front and rear are 0; the region is consistent and every queue is empty |
| Cook.CreateSemaphores | cook.c:67-85 | the bank has 207 counters, the mutex at 1 and every other counter at 0 |
| Cook.InitialSignals | cook.c:71-85 | each valid signal owner starts at 0, except the mutex, which starts at 1 |
| Cook.PostRangeRaisesEach | cook.c:153-155 | puts on a range of counters whose numbers fit 16 bits raise each counter of the range by exactly one and no other |
| Cook.WakeAllWaiters | cook.c:151-156 | the bank after the cascade is one put on each waiter counter in turn |
| Cook.CascadeWakesEachWaiterOnce | cook.c:151-156 | the cascade raises each waiter's counter by exactly one and leaves the mutex, the cook pool and every customer's counter alone |
| Cook.CookRound | cook.c:110-156 | the decision and new region are those of Choose and AfterRound; for the last cook the bank then gets the cascade, and for a cooked request a put on that waiter's counter |
| Cook.ConsistentIsCookReady | cook.c:124-139 | in a consistent region the request at the front, if any, names a waiter |
| Cook.ClosingMakesLastCook | cook.c:114-121 | the cook becomes the last cook exactly when TIME >= 180 and PENDING_ORDERS is 0, and then changes no cell |
| Cook.CooksOnlyWhenQueued | cook.c:123-147 | a request is cooked exactly when not closing and COOK_FRONT differs from COOK_REAR; otherwise the round changes nothing |
| Cook.CookingEffects | cook.c:124-144 | the cooked request is the oldest in the cook queue, and after the round the queue holds the rest in order; PENDING_ORDERS drops by one; the clock ends at max(write-back value, captured + count*5); the waiter's food-ready cell gets the customer id whatever it held; other waiters' food-ready cells keep their values |
| Cook.PartyOfTwoTakesTenMinutes | cook.c:133-134 | a party of two with no other clock movement advances the clock by exactly ten minutes |
| Cook.RoundKeepsConsistent | cook.c:123-147 | every cook round keeps the region consistent |
| Session.ForwardedOrderIsCookedNext | waiter.c:70-77 | an order forwarded to an empty cook queue is exactly the request the next cook round cooks, for the forwarding waiter |
| Session.CookedDishIsServedNext | cook.c:138-144 | when the waiter's round directly follows the cook's round, it serves the finished dish and raises the customer's counter, unless the session is already over for that waiter |

## Left out

- Process and IPC plumbing is not modelled: `shmget`/`shmat`/`shmdt`/`shmctl`, `semget`/`semctl`, `ftok`, `fork`/`wait`/`waitpid`, the signal handlers, file reading, `malloc`, and all printing. The arrival list is a parameter of `Customer.ReadCustomers`.
- The blocking of `semop` is not modelled: `Take` requires a positive counter. The counters' upper bound is left out, and so is the failure on a removed semaphore set.
- Interleavings are not modelled. Each critical section is one atomic step, and the mutex's take/put pairs are folded into it. The only interference modelled is the clock's value at the end of an `update_time` pause.
- Shared.UpdateTime, Shared.ClockNeverLowered: the comparison and the store in `update_time` are taken as one atomic step. In the source they run unlocked, so another actor can raise TIME between them (an arrival under the mutex, say). The store then writes the smaller captured value plus the minutes: the source can lose that update and lower TIME. ClockNeverLowered holds of the model, not of every interleaving of the source.
- Session.CookedDishIsServedNext: stated only when the waiter's round runs on the region the cook's round left. A second cook finishing another dish for the same waiter first overwrites the food-ready cell, and the first dish is never served.
- Deadlock, starvation and termination arguments across processes are left out: customers stranded after shutdown, and which cook is last. Each loop is modelled one round at a time.
- The `usleep` delays are left out, in `update_time` and in the launcher's pacing by `prev_arrival_time`.
- C `int` overflow is not modelled: `count * 5`, the increments, and the customer and arrival values. Integers are unbounded.
- The launcher's `child_pids` array holds 200 entries, and a longer list would overflow it. `Customer.ReadCustomers` places no bound on the list.
- `foopark.c` is not part of this model. It is an unrelated thread simulation.
- `restaurant.c` is not part of this model. It only forks processes.
- Customer.SeatingLeavesOthers: stated only while the waiter's rear is at most 97, because slots 98 and 99 lie on the next header (see Customer.SeatingAtSlot98Overwrites).
- Customer.SeatingKeepsConsistent: requires the rear to be at most 97 and the queue below capacity. The source checks neither. A full queue wraps rear onto front, and the pending count then no longer matches the occupancy.
- Customer.ArrivalKeepsConsistent: the same two bounds for a seated customer.
- Shared.AddKeepsConsistent: requires the cook queue below capacity, which the source does not check.
- Waiter.RoundKeepsConsistent: the same cook-queue capacity bound when an order is forwarded.
- Waiter.OrderForwarded: does not state the waiter queue's contents after the cook enqueue. For the last waiter, the cook queue's front, rear and the first two cells of slot 0 are that waiter's slots 98 and 99. The contents after the dequeue are stated in Waiter.DequeueKeepsConsistent.
- Customer.Depart: an id whose reduced counter number lands on the cook pool's counter or on another actor's own counter takes a wake-up meant for that actor. The model records the decrement, but not the missed wake-up that follows.
- Customer.Depart, Waiter.WaiterRound and Cook.CookRound: each takes the region as one state across its unlocked gap. Only the clock may move in that gap.
