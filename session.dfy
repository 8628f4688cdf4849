/** How the actors' rounds fit together: an order a waiter forwards is the
    next one a cook takes from an empty cook queue, and a dish a cook finishes
    is the next thing its waiter serves. */
module Session {
  import opened Layout
  import opened Queues
  import opened Shared
  import Waiter
  import Cook

  /** A waiter forwarding an order to an empty cook queue makes it the request
      the next cook round cooks, for that waiter. */
  lemma ForwardedOrderIsCookedNext(s: seq<int>, w: int, timeAtWriteback: int)
    requires Consistent(s) && 0 <= w < NUM_WAITERS && Waiter.Choose(s, w).TakeOrder?
    requires s[COOK_FRONT] == s[COOK_REAR]
    ensures Cook.CookReady(Waiter.AfterRound(s, w, timeAtWriteback))
    ensures var d := Waiter.Choose(s, w);
      Cook.Choose(Waiter.AfterRound(s, w, timeAtWriteback)) == Cook.Cooked(w, d.customer, d.count)
  {
    var t := Waiter.AfterRound(s, w, timeAtWriteback);
    var d := Waiter.Choose(s, w);
    Waiter.TakesOldestOrder(s, w);
    Waiter.OrderForwarded(s, w, timeAtWriteback);
    Cook.ConsistentIsCookReady(t);
    assert Contents(s, CookQueue) == [];
    assert [w] + Contents(s, WaiterQueue(w))[0] == [w, d.customer, d.count];
    assert Contents(t, CookQueue) == [[w, d.customer, d.count]];
    BalancedEmptiness(t, CookQueue);
    GetKeepsConsistent(t);
  }

  /** A dish a cook finishes is what its waiter's next round does, unless the
      session is over for that waiter (see Waiter.ClosingPreemptsDish): the
      customer is served and the customer's counter raised. */
  lemma CookedDishIsServedNext(s: seq<int>, timeAtWriteback: int, waiterWriteback: int, bank: seq<int>)
    requires Consistent(s) && !Cook.Closing(s) && s[COOK_FRONT] != s[COOK_REAR]
    requires Contents(s, CookQueue) != [] && Contents(s, CookQueue)[0][1] != NO_FOOD
    ensures Cook.CookReady(s)
    ensures var t := Cook.AfterRound(s, timeAtWriteback);
      var r := Contents(s, CookQueue)[0];
      && Consistent(t) && 0 <= r[0] < NUM_WAITERS
      && (!Waiter.Closing(t, r[0]) ==>
            && Waiter.Choose(t, r[0]) == Waiter.Serve(r[1])
            && Waiter.Signalled(bank, Waiter.Choose(t, r[0])) == Posted(bank, CUSTOMER_SEM_BASE + r[1]))
  {
    Cook.CookingEffects(s, timeAtWriteback, 0);
    Cook.RoundKeepsConsistent(s, timeAtWriteback);
    var t := Cook.AfterRound(s, timeAtWriteback);
    var r := Contents(s, CookQueue)[0];
    Waiter.ConsistentIsWaiterReady(t, r[0]);
  }
}
