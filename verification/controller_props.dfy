/**
 * Properties of the command layer over whole sessions: the packaging rule
 * holds of every stored record, and the worked scenario of accepting,
 * handing out and refunding one parcel.
 */
module ControllerProps {
  import opened Failures
  import opened Orders
  import opened Packaging
  import opened Storage
  import opened Controller
  import GoText

  /** A record respects the packaging table: a known kind and a weight within its ceiling. */
  ghost predicate Packed(o: OrderDTO) {
    o.packaging in GetPackagingRules() && WeightAllowed(GetPackagingRules()[o.packaging], o.weight)
  }

  /** Every record the store holds respects the packaging table. */
  ghost predicate Admissible(st: Store) {
    && (forall i :: 0 <= i < |st.available| ==> Packed(st.available[i]))
    && (forall j :: 0 <= j < |st.refunded| ==> Packed(st.refunded[j]))
  }

  lemma TakeKeepsAdmissible(st: Store, orderId: int, clientId: int, availableTime: Duration,
                            weight: real, price: real, packaging: string, now: Time)
    requires Admissible(st)
    ensures var r := CourierTakeCommand(st, orderId, clientId, availableTime, weight, price, packaging, now);
      r.Ok? ==> Admissible(r.value)
  {
  }

  lemma ReturnKeepsAdmissible(st: Store, orderId: int, now: Time)
    requires Admissible(st)
    ensures var r := CourierReturnCommand(st, orderId, now);
      r.Ok? ==> Admissible(r.value)
  {
  }

  lemma GiveKeepsAdmissible(st: Store, clientId: int, ordersId: string, now: Time)
    requires Admissible(st)
    ensures var r := ClientGiveCommand(st, clientId, ordersId, now);
      r.Ok? ==> Admissible(r.value)
  {
  }

  lemma RefundKeepsAdmissible(st: Store, orderId: int, clientId: int, now: Time)
    requires Admissible(st)
    ensures var r := ClientRefundCommand(st, orderId, clientId, now);
      r.Ok? ==> Admissible(r.value)
  {
  }

  /** An 8 kg parcel in "package" quoted at 20 is stored at 25; at 11 kg it is turned away. */
  lemma PackageSurcharge(st: Store, orderId: int, clientId: int, now: Time)
    requires orderId > 0 && clientId > 0 && orderId !in IdSet(st.available)
    ensures var r := CourierTakeCommand(st, orderId, clientId, Hour, 8.0, 20.0, Package, now);
      r.Ok? && r.value.available[|st.available|].price == 25.0
    ensures CourierTakeCommand(st, orderId, clientId, Hour, 11.0, 20.0, Package, now) == Err(WeightExceedsLimit(Package))
  {
  }

  /** Film has no ceiling: any weight is accepted. */
  lemma FilmTakesAnyWeight(st: Store, orderId: int, clientId: int, weight: real, now: Time)
    requires orderId > 0 && clientId > 0 && orderId !in IdSet(st.available)
    ensures CourierTakeCommand(st, orderId, clientId, Hour, weight, 0.0, Film, now).Ok?
  {
  }

  /** The record of order 1 of client 5 as the scenario stores it: 8 kg, "package", 25 with surcharge. */
  function ScenarioRecord(start: Time): OrderDTO {
    OrderDTO(1, 5, start + 7 * 24 * Hour, 8.0, 25.0, Package, false, ZeroTime)
  }

  lemma ScenarioTake(start: Time)
    ensures CourierTakeCommand(Store([], []), 1, 5, 7 * 24 * Hour, 8.0, 20.0, Package, start)
      == Ok(Store([ScenarioRecord(start)], []))
  {
  }

  lemma ScenarioGive(start: Time, at: Time)
    requires at <= start + 7 * 24 * Hour
    ensures ClientGiveCommand(Store([ScenarioRecord(start)], []), 5, "1", at)
      == Ok(Store([ScenarioRecord(start).(isGiven := true, givenTime := at)], []))
  {
    assert GoText.Atoi("1") == Some(1) by {
      assert GoText.DecimalValue("1") == 1 by {
        assert "1"[..0] == "";
      }
    }
    assert GoText.Split("1", ',') == ["1"] by {
      GoText.SplitPlain("1", ',');
    }
    var texts := ["1"];
    assert Requested(texts) == {1} by {
      assert GoText.Atoi(texts[0]) == Some(1);
      assert 1 in Requested(texts);
      forall v | v in Requested(texts) ensures v == 1 {
        var k :| 0 <= k < |texts| && GoText.Atoi(texts[k]).Some? && GoText.Atoi(texts[k]).value == v;
      }
    }
    var st := Store([ScenarioRecord(start)], []);
    assert CountIn(st.available, {1}) == 1;
    var r := ClientGiveCommand(st, 5, "1", at);
    assert r.Ok?;
    assert r.value.available == [ScenarioRecord(start).(isGiven := true, givenTime := at)];
  }

  lemma ScenarioRefund(record: OrderDTO, now: Time)
    requires record.id == 1 && record.clientId == 5 && record.isGiven
    ensures now - record.givenTime < RefundWindow ==>
      ClientRefundCommand(Store([record], []), 1, 5, now) == Ok(Store([], [record]))
    ensures now - record.givenTime >= RefundWindow ==>
      ClientRefundCommand(Store([record], []), 1, 5, now) == Err(RefundRejected)
  {
    assert IsFirst([record], 1, 0);
    assert RemoveAt([record], 0) == [];
    assert [] + [record] == [record];
  }

  lemma ScenarioRefundList(record: OrderDTO)
    ensures RefundListCommand(Store([], [record]), 1) == Ok([Project(record)])
  {
    assert [record][0..1] == [record];
    assert ProjectAll([record]) == [Project(record)];
  }

  /**
   * Order 1 of client 5, 8 kg in "package" at 20, kept for a week: it is
   * stored at 25; once handed to client 5 one hour later it cannot be
   * refunded 49 hours after that, but can be 10 hours after, and is then the
   * only entry on page 1 of the refund list.
   */
  lemma EndToEnd(start: Time)
    ensures CourierTakeCommand(Store([], []), 1, 5, 7 * 24 * Hour, 8.0, 20.0, Package, start)
      == Ok(Store([ScenarioRecord(start)], []))
    ensures ScenarioRecord(start).price == 25.0
    ensures ClientGiveCommand(Store([ScenarioRecord(start)], []), 5, "1", start + Hour)
      == Ok(Store([ScenarioRecord(start).(isGiven := true, givenTime := start + Hour)], []))
    ensures ClientRefundCommand(Store([ScenarioRecord(start).(isGiven := true, givenTime := start + Hour)], []),
                                1, 5, start + Hour + 49 * Hour) == Err(RefundRejected)
    ensures ClientRefundCommand(Store([ScenarioRecord(start).(isGiven := true, givenTime := start + Hour)], []),
                                1, 5, start + Hour + 10 * Hour)
      == Ok(Store([], [ScenarioRecord(start).(isGiven := true, givenTime := start + Hour)]))
    ensures RefundListCommand(Store([], [ScenarioRecord(start).(isGiven := true, givenTime := start + Hour)]), 1)
      == Ok([Project(ScenarioRecord(start))])
  {
    var given := ScenarioRecord(start).(isGiven := true, givenTime := start + Hour);
    ScenarioTake(start);
    ScenarioGive(start, start + Hour);
    ScenarioRefund(given, start + Hour + 49 * Hour);
    ScenarioRefund(given, start + Hour + 10 * Hour);
    ScenarioRefundList(given);
  }
}
