/** The fixed layout of the restaurant's shared region and of its counter bank
    (ipc_shared.h): sizes, the cell address of every shared field, and the index
    of every counting signal. */
module Layout {

  const MAX_CUSTOMERS: int := 200
  const MAX_TABLES: int := 10
  const NUM_WAITERS: int := 5
  const SHM_SIZE: int := 2000
  const QUEUE_SIZE: int := 100

  /** 3:00pm, in simulated minutes after 11:00am. */
  const CLOSING_TIME: int := 180
  /** The value of a waiter's food-ready cell when no dish is waiting. */
  const NO_FOOD: int := -1

  // Global cells
  const TIME: int := 0
  const EMPTY_TABLES: int := 1
  const NEXT_WAITER: int := 2
  const PENDING_ORDERS: int := 3

  // Waiter areas: a four-cell header and then the inbound queue, two cells per slot
  const WAITER_AREA_SIZE: int := 200
  const WAITER_AREA_START: int := 100

  function WaiterArea(w: int): int { WAITER_AREA_START + w * WAITER_AREA_SIZE }
  function WaiterFront(w: int): int { WaiterArea(w) }
  function WaiterRear(w: int): int { WaiterArea(w) + 1 }
  function WaiterFoodReady(w: int): int { WaiterArea(w) + 2 }
  function WaiterPendingOrders(w: int): int { WaiterArea(w) + 3 }
  function WaiterQueueStart(w: int): int { WaiterArea(w) + 4 }
  /** Cell `i` (0 front, 1 rear, 2 food ready, 3 pending) of waiter `w`'s header. */
  function HeaderCell(w: int, i: int): int { WaiterArea(w) + i }

  // The cook queue: front, rear, then three cells per slot
  const COOK_QUEUE_START: int := 1100
  const COOK_FRONT: int := COOK_QUEUE_START
  const COOK_REAR: int := COOK_QUEUE_START + 1
  const COOK_QUEUE_DATA: int := COOK_QUEUE_START + 2

  // Counter-bank indices, in the order of the enumeration
  const MUTEX_SEM: int := 0
  const COOK_SEM: int := 1
  const WAITER_SEM_BASE: int := 2
  const CUSTOMER_SEM_BASE: int := WAITER_SEM_BASE + NUM_WAITERS
  const TOTAL_SEMS: int := CUSTOMER_SEM_BASE + MAX_CUSTOMERS

  /** The owner of a counting signal. */
  datatype Signal = Mutex | Cooks | WaiterSignal(waiter: int) | CustomerSignal(customer: int)

  predicate ValidSignal(g: Signal) {
    match g
    case WaiterSignal(w) => 0 <= w < NUM_WAITERS
    case CustomerSignal(c) => 0 <= c < MAX_CUSTOMERS
    case _ => true
  }

  /** The counter-bank index a signal is stored at. */
  function SemIndex(g: Signal): (i: int)
    requires ValidSignal(g)
    ensures 0 <= i < TOTAL_SEMS
  {
    match g
    case Mutex => MUTEX_SEM
    case Cooks => COOK_SEM
    case WaiterSignal(w) => WAITER_SEM_BASE + w
    case CustomerSignal(c) => CUSTOMER_SEM_BASE + c
  }

  /** The signal stored at a counter-bank index: the inverse of SemIndex. */
  function SignalAt(i: int): (g: Signal)
    requires 0 <= i < TOTAL_SEMS
    ensures ValidSignal(g)
  {
    if i == MUTEX_SEM then Mutex
    else if i == COOK_SEM then Cooks
    else if i < CUSTOMER_SEM_BASE then WaiterSignal(i - WAITER_SEM_BASE)
    else CustomerSignal(i - CUSTOMER_SEM_BASE)
  }

  /** Every owner has its own counter: the enumeration places the mutex at 0,
      the cook pool at 1, the waiters at 2..6 and the customers at 7..206. */
  lemma SignalIndexRoundTrip(g: Signal, i: int)
    requires ValidSignal(g) && 0 <= i < TOTAL_SEMS
    ensures SignalAt(SemIndex(g)) == g
    ensures SemIndex(SignalAt(i)) == i
    ensures TOTAL_SEMS == 207
    ensures g.WaiterSignal? ==> 2 <= SemIndex(g) <= 6
    ensures g.CustomerSignal? ==> 7 <= SemIndex(g) <= 206
  {
  }

  /** The global cells, the waiter headers and the cook queue's front and rear
      are all distinct cells of the region. */
  lemma HeaderCellsDistinct(w: int, v: int, i: int, j: int)
    requires 0 <= w < NUM_WAITERS && 0 <= v < NUM_WAITERS
    requires 0 <= i < 4 && 0 <= j < 4
    ensures WaiterArea(w) + i == WaiterArea(v) + j <==> w == v && i == j
    ensures PENDING_ORDERS < WAITER_AREA_START <= WaiterArea(w) + i < COOK_FRONT
  {
  }

  /** Every cell of every cook-queue slot lies inside the region, after every waiter area. */
  lemma CookCellInRegion(i: int, k: int)
    requires 0 <= i < QUEUE_SIZE && 0 <= k < 3
    ensures WaiterArea(NUM_WAITERS) < COOK_REAR < COOK_QUEUE_DATA + i * 3 + k < SHM_SIZE
  {
  }

  /** A cell of waiter queue slot `i` stays inside the waiter's own area exactly
      when `i` is at most 97: the area holds 200 cells, but a header of 4 and
      100 slots of 2 need 204. */
  lemma WaiterSlotInArea(w: int, i: int, k: int)
    requires 0 <= w < NUM_WAITERS && 0 <= i < QUEUE_SIZE && 0 <= k < 2
    ensures WaiterArea(w) + 4 <= WaiterQueueStart(w) + i * 2 + k < SHM_SIZE
    ensures WaiterQueueStart(w) + i * 2 + k < WaiterArea(w + 1) <==> i <= 97
  {
  }

  /** Slots 98 and 99 of a waiter's queue are the next waiter's four header
      cells; for the last waiter they are the cook queue's front and rear and the
      first two cells of its slot 0. */
  lemma LastSlotsOverlapNextHeader(w: int)
    requires 0 <= w < NUM_WAITERS
    ensures WaiterQueueStart(w) + 98 * 2 == if w + 1 < NUM_WAITERS then WaiterFront(w + 1) else COOK_FRONT
    ensures WaiterQueueStart(w) + 98 * 2 + 1 == if w + 1 < NUM_WAITERS then WaiterRear(w + 1) else COOK_REAR
    ensures WaiterQueueStart(w) + 99 * 2 == if w + 1 < NUM_WAITERS then WaiterFoodReady(w + 1) else COOK_QUEUE_DATA
    ensures WaiterQueueStart(w) + 99 * 2 + 1 == if w + 1 < NUM_WAITERS then WaiterPendingOrders(w + 1) else COOK_QUEUE_DATA + 1
  {
  }
}
