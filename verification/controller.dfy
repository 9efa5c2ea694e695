/**
 * The order commands of the command layer (controller/OrderController.go):
 * argument guards, the packaging check and surcharge, and the hand-off to
 * the store. Printing the outcome is not modelled; each command returns the
 * new store or the listing it would print.
 */
module Controller {
  import opened Failures
  import opened Orders
  import opened Packaging
  import Storage
  import GoText

  /**
   * Checks the identifiers and the storage period, looks up the packaging
   * rule, enforces its weight ceiling (none when the ceiling is 0), adds the
   * surcharge to the price and asks the store to accept the order with
   * deadline `now + availableTime`. With one clock reading per call, that
   * deadline lies after `now`, so the store's expired-on-arrival check never
   * fires on this path.
   */
  function CourierTakeCommand(st: Storage.Store, orderId: int, clientId: int, availableTime: Duration,
                              weight: real, price: real, packaging: string, now: Time): (r: Result<Storage.Store>)
    ensures orderId <= 0 ==> r == Err(InvalidOrderId)
    ensures orderId > 0 && clientId <= 0 ==> r == Err(InvalidClientId)
    ensures orderId > 0 && clientId > 0 && availableTime <= 0 ==> r == Err(InvalidAvailableTime)
    ensures orderId > 0 && clientId > 0 && availableTime > 0 && packaging !in GetPackagingRules() ==>
      r == Err(UnknownPackaging)
    ensures && orderId > 0 && clientId > 0 && availableTime > 0 && packaging in GetPackagingRules()
            && !WeightAllowed(GetPackagingRules()[packaging], weight)
            ==> r == Err(WeightExceedsLimit(packaging))
    ensures && orderId > 0 && clientId > 0 && availableTime > 0 && packaging in GetPackagingRules()
            && WeightAllowed(GetPackagingRules()[packaging], weight)
            && orderId in IdSet(st.available)
            ==> r == Err(AlreadyAccepted)
    ensures r != Err(ExpiredOnArrival)
    ensures r.Ok? <==>
      && orderId > 0 && clientId > 0 && availableTime > 0
      && packaging in GetPackagingRules()
      && WeightAllowed(GetPackagingRules()[packaging], weight)
      && orderId !in IdSet(st.available)
    ensures r.Ok? ==> r.value.refunded == st.refunded
    ensures r.Ok? ==>
      r.value.available == st.available + [OrderDTO(orderId, clientId, now + availableTime, weight,
                                                    price + GetPackagingRules()[packaging].extraCost,
                                                    packaging, false, ZeroTime)]
  {
    if orderId <= 0 then Err(InvalidOrderId)
    else if clientId <= 0 then Err(InvalidClientId)
    else if availableTime <= 0 then Err(InvalidAvailableTime)
    else
      var rules := GetPackagingRules();
      if packaging !in rules then Err(UnknownPackaging)
      else
        var rule := rules[packaging];
        if rule.maxWeight > 0.0 && weight > rule.maxWeight then Err(WeightExceedsLimit(packaging))
        else
          var order := Order(orderId, clientId, now + availableTime, weight, price + rule.extraCost, packaging);
          var r := Storage.CourierTakeOrder(st, order, now);
          assert r.Ok? ==> r.value.available == st.available + [Accepted(order)] by {
            if r.Ok? {
              var a := r.value.available;
              assert a == a[..|st.available|] + [a[|st.available|]];
            }
          }
          r
  }

  /** Rejects a non-positive identifier; otherwise the store decides. */
  function CourierReturnCommand(st: Storage.Store, orderId: int, now: Time): (r: Result<Storage.Store>)
    ensures orderId <= 0 ==> r == Err(InvalidOrderId)
    ensures orderId > 0 ==> r == Storage.CourierGiveOrder(st, orderId, now)
  {
    if orderId <= 0 then Err(InvalidOrderId)
    else Storage.CourierGiveOrder(st, orderId, now)
  }

  /**
   * Rejects a non-positive client and an empty identifier list; otherwise
   * splits the list at every comma, keeping empty entries, and hands the
   * pieces to the store as they are.
   */
  function ClientGiveCommand(st: Storage.Store, clientId: int, ordersId: string, now: Time): (r: Result<Storage.Store>)
    ensures clientId <= 0 ==> r == Err(InvalidClientId)
    ensures clientId > 0 && ordersId == "" ==> r == Err(MissingOrderIds)
    ensures clientId > 0 && ordersId != "" ==>
      var entries := GoText.Split(ordersId, ',');
      && |entries| == multiset(ordersId)[','] + 1
      && GoText.Join(entries, ',') == ordersId
      && r == Storage.ClientGiveOrder(st, clientId, entries, now)
  {
    if clientId <= 0 then Err(InvalidClientId)
    else if ordersId == "" then Err(MissingOrderIds)
    else
      GoText.SplitCount(ordersId, ',');
      GoText.JoinSplit(ordersId, ',');
      Storage.ClientGiveOrder(st, clientId, GoText.Split(ordersId, ','), now)
  }

  /**
   * Accepts a positive client and a limit of -1 (no limit) or at least 1, and
   * returns the newest-first listing, cut to the limit.
   */
  function ClientOrdersCommand(st: Storage.Store, clientId: int, n: int, onlyUserOrders: bool): (r: Result<seq<Order>>)
    ensures clientId <= 0 ==> r == Err(InvalidClientId)
    ensures clientId > 0 && !(n == -1 || n >= 1) ==> r == Err(InvalidLimit)
    ensures r.Ok? <==> clientId > 0 && (n == -1 || n >= 1)
    ensures r.Ok? && n == -1 ==>
      r.value == Storage.Visible(Storage.Reverse(st.available), clientId, onlyUserOrders)
    ensures r.Ok? && n >= 1 ==>
      r.value == Storage.Prefix(Storage.Visible(Storage.Reverse(st.available), clientId, onlyUserOrders), n)
    ensures r.Ok? ==> n == -1 || |r.value| <= n
  {
    if clientId <= 0 then Err(InvalidClientId)
    else if n < -1 || n == 0 then Err(InvalidLimit)
    else
      Ok(Storage.ClientGetOrders(st, clientId, n, onlyUserOrders))
  }

  /** Rejects non-positive identifiers, then asks the store to refund, client first. */
  function ClientRefundCommand(st: Storage.Store, orderId: int, clientId: int, now: Time): (r: Result<Storage.Store>)
    ensures orderId <= 0 ==> r == Err(InvalidOrderId)
    ensures orderId > 0 && clientId <= 0 ==> r == Err(InvalidClientId)
    ensures orderId > 0 && clientId > 0 ==> r == Storage.ClientRefund(st, clientId, orderId, now)
  {
    if orderId <= 0 then Err(InvalidOrderId)
    else if clientId <= 0 then Err(InvalidClientId)
    else Storage.ClientRefund(st, clientId, orderId, now)
  }

  /** Rejects a page number below 1, so the store's slice never starts below 0. */
  function RefundListCommand(st: Storage.Store, pageNumber: int): (r: Result<seq<Order>>)
    ensures pageNumber <= 0 ==> r == Err(InvalidPage)
    ensures pageNumber >= 1 ==> r == Storage.RefundList(st.refunded, pageNumber)
    ensures r != Err(SlicePanic)
  {
    if pageNumber <= 0 then Err(InvalidPage)
    else Storage.RefundList(st.refunded, pageNumber)
  }
}
