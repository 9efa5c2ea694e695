/**
 * The order lifecycle store (storage/storage.go): two ordered collections of
 * order records, "available" and "refunded", and the six operations on them.
 * Every operation is a pure function of the two collections as loaded, its
 * arguments and one wall-clock reading `now`; an `Err` result means the store
 * writes nothing, so both collections stay as they were.
 */
module Storage {
  import opened Failures
  import opened Orders
  import GoText

  /** The two persisted collections, each in file (insertion) order. */
  datatype Store = Store(available: seq<OrderDTO>, refunded: seq<OrderDTO>)

  function Min(a: int, b: int): int {
    if a <= b then a else b
  }

  // ---------------------------------------------------------------------------
  // CourierTakeOrder: accept an order from the courier.

  /**
   * Rejects an order already past its expiration (an order expiring exactly
   * now is still accepted), then a duplicate identifier; otherwise appends the
   * order as a not-yet-given record.
   */
  function CourierTakeOrder(st: Store, order: Order, now: Time): (r: Result<Store>)
    ensures now > order.expirationDate ==> r == Err(ExpiredOnArrival)
    ensures now <= order.expirationDate && HasId(st.available, order.id) ==> r == Err(AlreadyAccepted)
    ensures r.Ok? <==> now <= order.expirationDate && order.id !in IdSet(st.available)
    ensures r.Ok? ==> r.value.refunded == st.refunded
    ensures r.Ok? ==> |r.value.available| == |st.available| + 1
    ensures r.Ok? ==> r.value.available[..|st.available|] == st.available
    ensures r.Ok? ==> var added := r.value.available[|st.available|];
      Project(added) == order && !added.isGiven && added.givenTime == ZeroTime
  {
    if now > order.expirationDate then Err(ExpiredOnArrival)
    else if FindFirst(st.available, order.id).Some? then Err(AlreadyAccepted)
    else
      var a := st.available + [Accepted(order)];
      assert a[..|st.available|] == st.available;
      Ok(Store(a, st.refunded))
  }

  // ---------------------------------------------------------------------------
  // CourierGiveOrder: return an order to the courier.

  /**
   * Looks in "available" first: the first record with the identifier is deleted
   * when it was never given and has expired, and otherwise the call fails
   * without looking further. Only when "available" has no such record is
   * "refunded" searched, and there the first match is deleted unconditionally.
   */
  function CourierGiveOrder(st: Store, orderId: int, now: Time): (r: Result<Store>)
    ensures forall i {:trigger IsFirst(st.available, orderId, i)} | IsFirst(st.available, orderId, i) ::
      && (r.Ok? <==> !st.available[i].isGiven && now > st.available[i].expirationDate)
      && (r.Ok? ==> r.value == Store(RemoveAt(st.available, i), st.refunded))
      && (r.Err? ==> r.error == NotReturnable)
    ensures !HasId(st.available, orderId) ==>
      forall j {:trigger IsFirst(st.refunded, orderId, j)} | IsFirst(st.refunded, orderId, j) ::
        r == Ok(Store(st.available, RemoveAt(st.refunded, j)))
    ensures !HasId(st.available, orderId) && !HasId(st.refunded, orderId) ==> r == Err(OrderNotFound)
  {
    match FindFirst(st.available, orderId)
    case Some(i) =>
      var o := st.available[i];
      if !o.isGiven && now > o.expirationDate then Ok(Store(RemoveAt(st.available, i), st.refunded))
      else Err(NotReturnable)
    case None =>
      match FindFirst(st.refunded, orderId)
      case Some(j) => Ok(Store(st.available, RemoveAt(st.refunded, j)))
      case None => Err(OrderNotFound)
  }

  // ---------------------------------------------------------------------------
  // ClientGiveOrder: hand a batch of orders to a client, all or nothing.

  /** The identifiers a batch names, as `strconv.Atoi` reads them; repeats collapse. */
  ghost function Requested(texts: seq<string>): set<int> {
    set k | 0 <= k < |texts| && GoText.Atoi(texts[k]).Some? :: GoText.Atoi(texts[k]).value
  }

  /** Entry `k` is the first entry of the batch that does not parse. */
  ghost predicate FirstUnparsable(texts: seq<string>, k: int) {
    && 0 <= k < |texts|
    && GoText.Atoi(texts[k]).None?
    && forall j :: 0 <= j < k ==> GoText.Atoi(texts[j]).Some?
  }

  /** Past a parsable first entry, the first unparsable entry is the first one of the rest. */
  lemma FirstUnparsableTail(texts: seq<string>, k: int)
    requires |texts| > 0 && GoText.Atoi(texts[0]).Some?
    requires FirstUnparsable(texts, k)
    ensures k > 0 && FirstUnparsable(texts[1..], k - 1)
  {
    forall j | 0 <= j < k - 1 ensures GoText.Atoi(texts[1..][j]).Some? {
      assert texts[1..][j] == texts[j + 1];
    }
  }

  /** Parses the identifiers front to back; the first one that does not parse aborts the batch. */
  function ParseIds(texts: seq<string>): (r: Result<seq<int>>)
    ensures r.Ok? <==> forall k :: 0 <= k < |texts| ==> GoText.Atoi(texts[k]).Some?
    ensures r.Ok? ==> |r.value| == |texts|
    ensures r.Ok? ==> forall k :: 0 <= k < |texts| ==> r.value[k] == GoText.Atoi(texts[k]).value
    ensures r.Err? ==> r.error.BadOrderId?
    ensures forall k {:trigger FirstUnparsable(texts, k)} | FirstUnparsable(texts, k) ::
      r == Err(BadOrderId(texts[k]))
  {
    if |texts| == 0 then Ok([])
    else
      match GoText.Atoi(texts[0])
      case None => Err(BadOrderId(texts[0]))
      case Some(v) =>
        assert forall k | FirstUnparsable(texts, k) :: k > 0 && FirstUnparsable(texts[1..], k - 1) by {
          forall k | FirstUnparsable(texts, k) ensures k > 0 && FirstUnparsable(texts[1..], k - 1) {
            FirstUnparsableTail(texts, k);
          }
        }
        var vs :- ParseIds(texts[1..]);
        Ok([v] + vs)
  }

  /** Why a requested record blocks the batch, checked in the source's order. */
  function Blocker(o: OrderDTO, clientId: int, now: Time): (r: Option<Error>)
    ensures o.isGiven ==> r == Some(AlreadyGiven)
    ensures !o.isGiven && now > o.expirationDate ==> r == Some(OrderExpired)
    ensures !o.isGiven && now <= o.expirationDate && o.clientId != clientId ==> r == Some(WrongClient)
    ensures r.None? <==> !o.isGiven && now <= o.expirationDate && o.clientId == clientId
  {
    if o.isGiven then Some(AlreadyGiven)
    else if now > o.expirationDate then Some(OrderExpired)
    else if o.clientId != clientId then Some(WrongClient)
    else None
  }

  /** How many records of `s` carry a requested identifier. */
  function CountIn(s: seq<OrderDTO>, wanted: set<int>): (c: nat)
    ensures c <= |s|
    ensures c == 0 <==> forall i :: 0 <= i < |s| ==> s[i].id !in wanted
  {
    if |s| == 0 then 0
    else (if s[0].id in wanted then 1 else 0) + CountIn(s[1..], wanted)
  }

  /** Record `i` is the first requested record, in file order, that blocks the batch. */
  ghost predicate FirstBlocked(s: seq<OrderDTO>, wanted: set<int>, clientId: int, now: Time, i: int) {
    && 0 <= i < |s|
    && s[i].id in wanted
    && Blocker(s[i], clientId, now).Some?
    && forall j :: 0 <= j < i && s[j].id in wanted ==> Blocker(s[j], clientId, now).None?
  }

  /**
   * The checking loop: fails with the blocker of the first requested record
   * that has one, and otherwise counts the requested records.
   */
  function ScanBatch(s: seq<OrderDTO>, wanted: set<int>, clientId: int, now: Time): (r: Result<nat>)
    ensures r.Ok? <==> forall i :: 0 <= i < |s| && s[i].id in wanted ==> Blocker(s[i], clientId, now).None?
    ensures r.Ok? ==> r.value == CountIn(s, wanted)
    ensures r.Err? ==> exists i :: 0 <= i < |s| && s[i].id in wanted && Blocker(s[i], clientId, now) == Some(r.error)
    ensures forall i {:trigger FirstBlocked(s, wanted, clientId, now, i)} | FirstBlocked(s, wanted, clientId, now, i) ::
      r == Err(Blocker(s[i], clientId, now).value)
  {
    if |s| == 0 then Ok(0)
    else
      var here := if s[0].id in wanted then Blocker(s[0], clientId, now) else None;
      if here.Some? then Err(here.value)
      else
        assert forall i | FirstBlocked(s, wanted, clientId, now, i) ::
          i > 0 && FirstBlocked(s[1..], wanted, clientId, now, i - 1);
        var c :- ScanBatch(s[1..], wanted, clientId, now);
        Ok((if s[0].id in wanted then 1 else 0) + c)
  }

  /** The records with `isGiven` set and `givenTime` stamped wherever the identifier is requested. */
  function MarkGiven(s: seq<OrderDTO>, wanted: set<int>, now: Time): (r: seq<OrderDTO>)
    ensures |r| == |s|
    ensures forall i :: 0 <= i < |s| ==> Project(r[i]) == Project(s[i])
    ensures forall i :: 0 <= i < |s| && s[i].id in wanted ==> r[i].isGiven && r[i].givenTime == now
    ensures forall i :: 0 <= i < |s| && s[i].id !in wanted ==> r[i] == s[i]
  {
    seq(|s|, i requires 0 <= i < |s| =>
      if s[i].id in wanted then s[i].(isGiven := true, givenTime := now) else s[i])
  }

  /**
   * Succeeds iff every identifier parses, no requested record is already
   * given, expired or another client's, and at least as many records match as
   * identifiers were supplied. The first entry that does not parse, and
   * otherwise the first blocked record in file order, decides the error. On
   * success exactly the requested records become given at `now`; everything
   * else, order and length included, is kept.
   */
  function ClientGiveOrder(st: Store, clientId: int, texts: seq<string>, now: Time): (r: Result<Store>)
    ensures (exists k :: 0 <= k < |texts| && GoText.Atoi(texts[k]).None?) ==> r.Err? && r.error.BadOrderId?
    ensures forall k {:trigger FirstUnparsable(texts, k)} | FirstUnparsable(texts, k) ::
      r == Err(BadOrderId(texts[k]))
    ensures r.Ok? <==>
      && (forall k :: 0 <= k < |texts| ==> GoText.Atoi(texts[k]).Some?)
      && (forall i :: 0 <= i < |st.available| && st.available[i].id in Requested(texts) ==>
            !st.available[i].isGiven && now <= st.available[i].expirationDate && st.available[i].clientId == clientId)
      && CountIn(st.available, Requested(texts)) >= |texts|
    ensures r.Err? && !r.error.BadOrderId? && r.error != NotAllFound ==>
      exists i :: 0 <= i < |st.available| && st.available[i].id in Requested(texts)
        && Blocker(st.available[i], clientId, now) == Some(r.error)
    ensures (forall k :: 0 <= k < |texts| ==> GoText.Atoi(texts[k]).Some?) ==>
      forall i {:trigger FirstBlocked(st.available, Requested(texts), clientId, now, i)}
        | FirstBlocked(st.available, Requested(texts), clientId, now, i) ::
        r == Err(Blocker(st.available[i], clientId, now).value)
    ensures && (forall k :: 0 <= k < |texts| ==> GoText.Atoi(texts[k]).Some?)
            && (forall i :: 0 <= i < |st.available| && st.available[i].id in Requested(texts) ==>
                  Blocker(st.available[i], clientId, now).None?)
            && CountIn(st.available, Requested(texts)) < |texts|
            ==> r == Err(NotAllFound)
    ensures r.Ok? ==> r.value.refunded == st.refunded
    ensures r.Ok? ==> |r.value.available| == |st.available|
    ensures r.Ok? ==> forall i :: 0 <= i < |st.available| ==>
      && Project(r.value.available[i]) == Project(st.available[i])
      && (st.available[i].id in Requested(texts) ==> r.value.available[i].isGiven && r.value.available[i].givenTime == now)
      && (st.available[i].id !in Requested(texts) ==> r.value.available[i] == st.available[i])
  {
    var ids :- ParseIds(texts);
    var wanted := set k | 0 <= k < |ids| :: ids[k];
    assert wanted == Requested(texts);
    var count :- ScanBatch(st.available, wanted, clientId, now);
    if count < |texts| then Err(NotAllFound)
    else Ok(Store(MarkGiven(st.available, wanted, now), st.refunded))
  }

  // ---------------------------------------------------------------------------
  // ClientGetOrders: newest-first listing, optionally filtered and limited.

  /** Whether a record is listed: every record, or only the client's ungiven ones. */
  predicate Listed(o: OrderDTO, clientId: int, onlyUserOrders: bool) {
    !onlyUserOrders || (o.clientId == clientId && !o.isGiven)
  }

  function Reverse<T>(s: seq<T>): (r: seq<T>)
    ensures |r| == |s|
    ensures forall i :: 0 <= i < |s| ==> r[i] == s[|s| - 1 - i]
  {
    seq(|s|, i requires 0 <= i < |s| => s[|s| - 1 - i])
  }

  /** Reference definition of the listing: every listed record of `rs`, in order, projected. */
  function Visible(rs: seq<OrderDTO>, clientId: int, onlyUserOrders: bool): seq<Order> {
    if |rs| == 0 then []
    else
      (if Listed(rs[0], clientId, onlyUserOrders) then [Project(rs[0])] else [])
      + Visible(rs[1..], clientId, onlyUserOrders)
  }

  /** The first `k` elements, or all of them when there are fewer. */
  function Prefix<T>(s: seq<T>, k: nat): seq<T> {
    if k >= |s| then s else s[..k]
  }

  /** Cutting after a short head keeps the head and cuts the rest correspondingly. */
  lemma PrefixAfterHead<T>(head: seq<T>, rest: seq<T>, k: nat)
    requires |head| <= k
    ensures Prefix(head + rest, k) == head + Prefix(rest, k - |head|)
  {
    if k < |head| + |rest| {
      assert (head + rest)[..k] == head + rest[..k - |head|];
    }
  }

  /**
   * One step of filling `acc` up to `n` from `head + rest`, where `head` is
   * the at most one entry the current record contributes.
   */
  lemma FillStep<T>(acc: seq<T>, head: seq<T>, rest: seq<T>, n: int)
    requires 1 <= n && |acc| < n && |head| <= 1
    ensures |acc + head| >= n ==> acc + Prefix(head + rest, n - |acc|) == acc + head
    ensures |acc + head| < n ==>
      acc + Prefix(head + rest, n - |acc|) == (acc + head) + Prefix(rest, n - |acc + head|)
  {
    PrefixAfterHead(head, rest, n - |acc|);
  }

  /** The reference listing of a non-empty sequence, split at its first record. */
  lemma VisibleCons(rs: seq<OrderDTO>, clientId: int, onlyUserOrders: bool)
    requires |rs| > 0
    ensures Visible(rs, clientId, onlyUserOrders)
      == (if Listed(rs[0], clientId, onlyUserOrders) then [Project(rs[0])] else [])
         + Visible(rs[1..], clientId, onlyUserOrders)
  {
  }

  /**
   * The listing loop over the newest-first records: appends each listed
   * record to `acc`, and stops after any record once a limit other than -1
   * has been reached.
   */
  function Collect(rs: seq<OrderDTO>, clientId: int, n: int, onlyUserOrders: bool, acc: seq<Order>): (r: seq<Order>)
  {
    if |rs| == 0 then acc
    else
      var acc' := acc + (if Listed(rs[0], clientId, onlyUserOrders) then [Project(rs[0])] else []);
      if n != -1 && |acc'| >= n then acc'
      else Collect(rs[1..], clientId, n, onlyUserOrders, acc')
  }

  /** Without a limit the loop appends the whole reference listing. */
  lemma {:induction false} CollectAll(rs: seq<OrderDTO>, clientId: int, onlyUserOrders: bool, acc: seq<Order>)
    ensures Collect(rs, clientId, -1, onlyUserOrders, acc) == acc + Visible(rs, clientId, onlyUserOrders)
  {
    if |rs| > 0 {
      var head := if Listed(rs[0], clientId, onlyUserOrders) then [Project(rs[0])] else [];
      var rest := Visible(rs[1..], clientId, onlyUserOrders);
      VisibleCons(rs, clientId, onlyUserOrders);
      CollectAll(rs[1..], clientId, onlyUserOrders, acc + head);
      assert (acc + head) + rest == acc + (head + rest);
    }
  }

  /** With a limit `n >= 1` the loop fills `acc` up to `n` entries from the reference listing. */
  lemma {:induction false} CollectBounded(rs: seq<OrderDTO>, clientId: int, n: int, onlyUserOrders: bool, acc: seq<Order>)
    requires 1 <= n && |acc| < n
    ensures Collect(rs, clientId, n, onlyUserOrders, acc) == acc + Prefix(Visible(rs, clientId, onlyUserOrders), n - |acc|)
  {
    if |rs| > 0 {
      var head := if Listed(rs[0], clientId, onlyUserOrders) then [Project(rs[0])] else [];
      VisibleCons(rs, clientId, onlyUserOrders);
      FillStep(acc, head, Visible(rs[1..], clientId, onlyUserOrders), n);
      if |acc + head| < n {
        CollectBounded(rs[1..], clientId, n, onlyUserOrders, acc + head);
      }
    }
  }

  /**
   * Lists the available orders newest first; it reads the store and changes
   * nothing. The result is the reference listing of the newest-first records:
   * all of it for limit -1, its first `n` entries for a limit `n >= 1`, and
   * for any other limit at most the newest record, because the loop tests the
   * limit only after looking at a record.
   */
  function ClientGetOrders(st: Store, clientId: int, n: int, onlyUserOrders: bool): (r: seq<Order>)
    ensures n == -1 ==> r == Visible(Reverse(st.available), clientId, onlyUserOrders)
    ensures n >= 1 ==> r == Prefix(Visible(Reverse(st.available), clientId, onlyUserOrders), n)
    ensures n >= 1 ==> |r| <= n
    ensures n != -1 && n < 1 ==>
      r == (if |st.available| > 0 && Listed(st.available[|st.available| - 1], clientId, onlyUserOrders)
            then [Project(st.available[|st.available| - 1])] else [])
  {
    var rs := Reverse(st.available);
    if n == -1 then
      CollectAll(rs, clientId, onlyUserOrders, []);
      assert [] + Visible(rs, clientId, onlyUserOrders) == Visible(rs, clientId, onlyUserOrders);
      Collect(rs, clientId, n, onlyUserOrders, [])
    else if n >= 1 then
      CollectBounded(rs, clientId, n, onlyUserOrders, []);
      assert [] + Prefix(Visible(rs, clientId, onlyUserOrders), n) == Prefix(Visible(rs, clientId, onlyUserOrders), n);
      Collect(rs, clientId, n, onlyUserOrders, [])
    else
      Collect(rs, clientId, n, onlyUserOrders, [])
  }

  // ---------------------------------------------------------------------------
  // ClientRefund: take an order back from the client.

  /**
   * The first record with the identifier must be the client's, given, and
   * given strictly less than 48 hours before `now`. It then moves, unchanged,
   * from the available collection to the end of the refunded one.
   */
  function ClientRefund(st: Store, clientId: int, orderId: int, now: Time): (r: Result<Store>)
    ensures !HasId(st.available, orderId) ==> r == Err(OrderNotFound)
    ensures forall i {:trigger IsFirst(st.available, orderId, i)} | IsFirst(st.available, orderId, i) ::
      && (st.available[i].clientId != clientId ==> r == Err(WrongClient))
      && (st.available[i].clientId == clientId ==>
            (r.Ok? <==> st.available[i].isGiven && now - st.available[i].givenTime < RefundWindow))
      && (r.Ok? ==> r.value == Store(RemoveAt(st.available, i), st.refunded + [st.available[i]]))
      && (r.Err? && st.available[i].clientId == clientId ==> r.error == RefundRejected)
    ensures r.Ok? ==>
      multiset(r.value.available) + multiset(r.value.refunded) == multiset(st.available) + multiset(st.refunded)
    ensures r.Ok? ==> |r.value.available| + |r.value.refunded| == |st.available| + |st.refunded|
  {
    match FindFirst(st.available, orderId)
    case None => Err(OrderNotFound)
    case Some(i) =>
      var o := st.available[i];
      if o.clientId != clientId then Err(WrongClient)
      else if o.isGiven && now - o.givenTime < RefundWindow then
        Ok(Store(RemoveAt(st.available, i), st.refunded + [o]))
      else Err(RefundRejected)
  }

  // ---------------------------------------------------------------------------
  // RefundList: pages of refunded orders.

  const PageSize: int := 10

  /**
   * Page `pageNumber` (from 1) of the refunded orders, oldest refund first:
   * fails when the page's first position does not exist, and panics on a
   * page number below 1 because the slice's start is then negative.
   */
  function RefundList(refunded: seq<OrderDTO>, pageNumber: int): (r: Result<seq<Order>>)
    ensures pageNumber < 1 ==> r == Err(SlicePanic)
    ensures pageNumber >= 1 ==> (r.Ok? <==> (pageNumber - 1) * PageSize < |refunded|)
    ensures r.Err? && pageNumber >= 1 ==> r.error == PageNotFound
    ensures r.Ok? ==> 1 <= |r.value| <= PageSize
    ensures r.Ok? ==> pageNumber >= 1 && |r.value| == Min(PageSize, |refunded| - (pageNumber - 1) * PageSize)
    ensures r.Ok? ==> forall k :: 0 <= k < |r.value| ==>
      r.value[k] == Project(refunded[(pageNumber - 1) * PageSize + k])
  {
    if |refunded| < (pageNumber - 1) * PageSize + 1 then Err(PageNotFound)
    else if pageNumber < 1 then Err(SlicePanic)
    else
      var lo := (pageNumber - 1) * PageSize;
      var hi := Min(pageNumber * PageSize, |refunded|);
      Ok(ProjectAll(refunded[lo..hi]))
  }

  /** Go's 64-bit `int` arithmetic: the value wrapped into the two's-complement range. */
  function Wrap64(x: int): (r: int)
    ensures GoText.MinInt64 <= r <= GoText.MaxInt64
    ensures (r - x) % 0x1_0000_0000_0000_0000 == 0
    ensures GoText.MinInt64 <= x <= GoText.MaxInt64 ==> r == x
  {
    (x - GoText.MinInt64) % 0x1_0000_0000_0000_0000 + GoText.MinInt64
  }

  /** `page` is the listing view of the run of refunds starting at position `lo`. */
  ghost predicate IsWindow(refunded: seq<OrderDTO>, page: seq<Order>, lo: int) {
    0 <= lo <= |refunded| - |page| && page == ProjectAll(refunded[lo..lo + |page|])
  }

  /**
   * RefundList exactly as written, with every `int` operation wrapping at 64
   * bits: `(pageNumber-1)*10` can wrap to a small offset for a huge page number.
   */
  function RefundListAsWritten(refunded: seq<OrderDTO>, pageNumber: int): (r: Result<seq<Order>>)
    requires GoText.MinInt64 <= pageNumber <= GoText.MaxInt64
    ensures r.Ok? ==> exists lo :: IsWindow(refunded, r.value, lo)
  {
    var lo := Wrap64(Wrap64(pageNumber - 1) * PageSize);
    if |refunded| < Wrap64(lo + 1) then Err(PageNotFound)
    else
      var hi := Min(Wrap64(pageNumber * PageSize), |refunded|);
      if 0 <= lo <= hi then
        assert IsWindow(refunded, ProjectAll(refunded[lo..hi]), lo);
        Ok(ProjectAll(refunded[lo..hi]))
      else Err(SlicePanic)
  }
}
