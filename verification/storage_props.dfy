/**
 * Properties of the order store that relate several calls or hold for every
 * input: the store invariant and its preservation, inverse pairs, the
 * reference definition of the listing, pagination, and the all-or-nothing
 * batch rule stated in terms of identifiers.
 */
module StorageProps {
  import opened Failures
  import opened Orders
  import opened Storage
  import GoText

  // ---------------------------------------------------------------------------
  // The store invariant.

  /**
   * Identifiers are unique among available orders, an ungiven record carries
   * the zero timestamp, and every refunded record had been given.
   */
  ghost predicate Valid(st: Store) {
    && UniqueIds(st.available)
    && (forall i :: 0 <= i < |st.available| && !st.available[i].isGiven ==> st.available[i].givenTime == ZeroTime)
    && (forall j :: 0 <= j < |st.refunded| ==> st.refunded[j].isGiven)
  }

  lemma EmptyStoreValid()
    ensures Valid(Store([], []))
  {
  }

  lemma TakePreservesValid(st: Store, order: Order, now: Time)
    requires Valid(st)
    ensures CourierTakeOrder(st, order, now).Ok? ==> Valid(CourierTakeOrder(st, order, now).value)
  {
  }

  lemma ReturnPreservesValid(st: Store, orderId: int, now: Time)
    requires Valid(st)
    ensures CourierGiveOrder(st, orderId, now).Ok? ==> Valid(CourierGiveOrder(st, orderId, now).value)
  {
  }

  lemma GivePreservesValid(st: Store, clientId: int, texts: seq<string>, now: Time)
    requires Valid(st)
    ensures ClientGiveOrder(st, clientId, texts, now).Ok? ==> Valid(ClientGiveOrder(st, clientId, texts, now).value)
  {
  }

  lemma RefundPreservesValid(st: Store, clientId: int, orderId: int, now: Time)
    requires Valid(st)
    ensures ClientRefund(st, clientId, orderId, now).Ok? ==> Valid(ClientRefund(st, clientId, orderId, now).value)
  {
  }

  // ---------------------------------------------------------------------------
  // Accepting and returning.

  /** Once an order is accepted, accepting its identifier again fails as a duplicate. */
  lemma TakeTwiceFails(st: Store, order: Order, now: Time, again: Order, later: Time)
    requires CourierTakeOrder(st, order, now).Ok?
    requires again.id == order.id && later <= again.expirationDate
    ensures CourierTakeOrder(CourierTakeOrder(st, order, now).value, again, later) == Err(AlreadyAccepted)
  {
  }

  /**
   * Returning an accepted, never-given order after it expires deletes exactly
   * the record the acceptance added: the store is back where it started.
   */
  lemma {:induction false} ReturnUndoesTake(st: Store, order: Order, now: Time, later: Time)
    requires CourierTakeOrder(st, order, now).Ok?
    requires later > order.expirationDate
    ensures CourierGiveOrder(CourierTakeOrder(st, order, now).value, order.id, later) == Ok(st)
  {
    var st' := CourierTakeOrder(st, order, now).value;
    var n := |st.available|;
    assert st'.available[n].id == order.id;
    assert forall j :: 0 <= j < n ==> st'.available[j] == st.available[j];
    assert IsFirst(st'.available, order.id, n);
    assert RemoveAt(st'.available, n) == st.available;
  }

  // ---------------------------------------------------------------------------
  // Handing a batch to a client.

  /** The identifiers of a non-empty sequence: its head's and its tail's. */
  lemma IdSetCons(s: seq<OrderDTO>)
    requires |s| > 0
    ensures IdSet(s) == {s[0].id} + IdSet(s[1..])
  {
  }

  /** Under unique identifiers the head's identifier is absent from the tail, which stays unique. */
  lemma UniqueCons(s: seq<OrderDTO>)
    requires |s| > 0 && UniqueIds(s)
    ensures s[0].id !in IdSet(s[1..]) && UniqueIds(s[1..])
  {
  }

  /** Under unique identifiers, the matching count is the number of requested identifiers present. */
  lemma {:induction false} CountIsOverlap(s: seq<OrderDTO>, wanted: set<int>)
    requires UniqueIds(s)
    ensures CountIn(s, wanted) == |IdSet(s) * wanted|
  {
    if |s| == 0 {
      assert IdSet(s) == {};
    } else {
      var t := s[1..];
      var x := s[0].id;
      var rest := IdSet(t) * wanted;
      UniqueCons(s);
      CountIsOverlap(t, wanted);
      assert CountIn(s, wanted) == (if x in wanted then 1 else 0) + |rest|;
      assert IdSet(s) * wanted == (if x in wanted then {x} else {}) + rest by {
        IdSetCons(s);
      }
      assert x !in rest;
      if x in wanted {
        assert |{x} + rest| == 1 + |rest|;
      } else {
        assert {} + rest == rest;
      }
    }
  }

  /** A batch names at most as many identifiers as it has entries. */
  lemma {:induction false} RequestedBound(texts: seq<string>)
    ensures |Requested(texts)| <= |texts|
  {
    if |texts| > 0 {
      var t := texts[1..];
      RequestedBound(t);
      var head: set<int> := if GoText.Atoi(texts[0]).Some? then {GoText.Atoi(texts[0]).value} else {};
      assert Requested(texts) <= head + Requested(t) by {
        forall v | v in Requested(texts) ensures v in head + Requested(t) {
          var k :| 0 <= k < |texts| && GoText.Atoi(texts[k]).Some? && GoText.Atoi(texts[k]).value == v;
          if k > 0 { assert t[k - 1] == texts[k]; }
        }
      }
      SubsetCard(Requested(texts), head + Requested(t));
    }
  }

  lemma SubsetCard<T>(a: set<T>, b: set<T>)
    requires a <= b
    ensures |a| <= |b|
  {
    assert b == a + (b - a);
  }

  /** A set whose overlap with `b` is as large as itself lies inside `b`. */
  lemma FullOverlap<T>(a: set<T>, b: set<T>)
    requires |b * a| == |a|
    ensures a <= b
  {
    assert a == (b * a) + (a - b);
    assert |a - b| == 0;
  }

  /**
   * When identifiers in "available" are unique, a batch is handed out iff every
   * entry parses, the entries name pairwise different identifiers, every one
   * of them is present, and none of those records is given, expired or another
   * client's. Repeating an identifier (even spelled differently) therefore
   * rejects the batch.
   */
  lemma GiveUnderUniqueIds(st: Store, clientId: int, texts: seq<string>, now: Time)
    requires UniqueIds(st.available)
    ensures ClientGiveOrder(st, clientId, texts, now).Ok? <==>
      && (forall k :: 0 <= k < |texts| ==> GoText.Atoi(texts[k]).Some?)
      && |Requested(texts)| == |texts|
      && Requested(texts) <= IdSet(st.available)
      && (forall i :: 0 <= i < |st.available| && st.available[i].id in Requested(texts) ==>
            !st.available[i].isGiven && now <= st.available[i].expirationDate && st.available[i].clientId == clientId)
  {
    var w := Requested(texts);
    var ids := IdSet(st.available);
    CountIsOverlap(st.available, w);
    RequestedBound(texts);
    SubsetCard(ids * w, w);
    if |ids * w| == |w| {
      FullOverlap(w, ids);
    }
    if w <= ids {
      assert ids * w == w;
    }
  }

  /** Giving order 7 twice in one batch, once as "7" and once as "07", is rejected. */
  lemma GiveRejectsRepeatedId(st: Store, clientId: int, now: Time)
    requires UniqueIds(st.available)
    ensures ClientGiveOrder(st, clientId, ["7", "07"], now).Err?
  {
    var texts := ["7", "07"];
    GoText.AtoiItoa(7);
    GoText.AtoiAliases(7);
    assert GoText.Itoa(7) == "7";
    assert "0" + GoText.Itoa(7) == "07";
    assert GoText.Atoi(texts[0]) == Some(7) && GoText.Atoi(texts[1]) == Some(7);
    assert Requested(texts) == {7} by {
      assert 7 in Requested(texts);
      forall v | v in Requested(texts) ensures v == 7 {
        var k :| 0 <= k < |texts| && GoText.Atoi(texts[k]).Some? && GoText.Atoi(texts[k]).value == v;
      }
    }
    GiveUnderUniqueIds(st, clientId, texts, now);
  }

  /**
   * After a batch is handed out at `givenAt`, a refund of one of its orders by
   * the same client succeeds exactly while less than 48 hours have passed.
   */
  lemma RefundWindowAfterGive(st: Store, clientId: int, texts: seq<string>, givenAt: Time, orderId: int, now: Time)
    requires ClientGiveOrder(st, clientId, texts, givenAt).Ok?
    requires orderId in Requested(texts) && HasId(st.available, orderId)
    ensures ClientRefund(ClientGiveOrder(st, clientId, texts, givenAt).value, clientId, orderId, now).Ok?
        <==> now - givenAt < RefundWindow
  {
  }

  // ---------------------------------------------------------------------------
  // The newest-first listing.

  /** Without the own-orders filter every record is listed, whatever the client identifier. */
  lemma {:induction false} VisibleUnfiltered(rs: seq<OrderDTO>, clientId: int)
    ensures Visible(rs, clientId, false) == ProjectAll(rs)
  {
    if |rs| > 0 {
      VisibleUnfiltered(rs[1..], clientId);
      assert ProjectAll(rs) == [Project(rs[0])] + ProjectAll(rs[1..]);
    }
  }

  /** `o` is the listing view of some record of `rs` that the listing admits. */
  ghost predicate ListedFrom(rs: seq<OrderDTO>, clientId: int, onlyUserOrders: bool, o: Order) {
    exists i :: 0 <= i < |rs| && Listed(rs[i], clientId, onlyUserOrders) && o == Project(rs[i])
  }

  /** Every listed order is the view of an admitted record: with the filter, one of the client's ungiven records. */
  lemma {:induction false} VisibleSound(rs: seq<OrderDTO>, clientId: int, onlyUserOrders: bool)
    ensures forall k :: 0 <= k < |Visible(rs, clientId, onlyUserOrders)| ==>
      ListedFrom(rs, clientId, onlyUserOrders, Visible(rs, clientId, onlyUserOrders)[k])
  {
    if |rs| > 0 {
      var t := rs[1..];
      VisibleSound(t, clientId, onlyUserOrders);
      var v := Visible(rs, clientId, onlyUserOrders);
      var head := if Listed(rs[0], clientId, onlyUserOrders) then [Project(rs[0])] else [];
      var rest := Visible(t, clientId, onlyUserOrders);
      assert v == head + rest;
      forall k | 0 <= k < |v|
        ensures ListedFrom(rs, clientId, onlyUserOrders, v[k])
      {
        if k < |head| {
          assert v[k] == Project(rs[0]);
        } else {
          assert v[k] == rest[k - |head|];
          assert ListedFrom(t, clientId, onlyUserOrders, rest[k - |head|]);
          var i :| 0 <= i < |t| && Listed(t[i], clientId, onlyUserOrders) && rest[k - |head|] == Project(t[i]);
          assert rs[i + 1] == t[i];
        }
      }
    }
  }

  // ---------------------------------------------------------------------------
  // Pagination of refunds.

  /** Refunded order `j` (from 0) appears on page `j / 10 + 1` at position `j % 10`. */
  lemma RefundListLocates(refunded: seq<OrderDTO>, j: int)
    requires 0 <= j < |refunded|
    ensures var page := RefundList(refunded, j / PageSize + 1);
      page.Ok? && j % PageSize < |page.value| && page.value[j % PageSize] == Project(refunded[j])
  {
  }

  /** With 25 refunds: page 1 holds refunds 1-10, page 3 holds refunds 21-25, page 4 does not exist. */
  lemma RefundListTwentyFive(refunded: seq<OrderDTO>)
    requires |refunded| == 25
    ensures RefundList(refunded, 1) == Ok(ProjectAll(refunded[..10]))
    ensures RefundList(refunded, 3) == Ok(ProjectAll(refunded[20..]))
    ensures |RefundList(refunded, 3).value| == 5
    ensures RefundList(refunded, 4) == Err(PageNotFound)
  {
    assert refunded[0..10] == refunded[..10];
    assert refunded[20..25] == refunded[20..];
  }

  /** For page numbers whose offsets fit in 64 bits, the written code computes the same page. */
  lemma AsWrittenAgreesOnSmallPages(refunded: seq<OrderDTO>, pageNumber: int)
    requires -(GoText.MaxInt64 / PageSize) + 1 <= pageNumber <= GoText.MaxInt64 / PageSize
    ensures RefundListAsWritten(refunded, pageNumber) == RefundList(refunded, pageNumber)
  {
  }

  /**
   * The overflow: page 1844674407370955163 of 15 refunds. The offset
   * `(p-1)*10` wraps to 4, so the written code returns refunds 5-14 where the
   * page does not exist.
   */
  lemma RefundListOverflow(refunded: seq<OrderDTO>)
    requires |refunded| == 15
    ensures RefundListAsWritten(refunded, 1844674407370955163) == Ok(ProjectAll(refunded[4..14]))
    ensures RefundList(refunded, 1844674407370955163) == Err(PageNotFound)
  {
  }
}
