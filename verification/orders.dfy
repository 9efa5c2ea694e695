/**
 * The order record kept by the store (storage/dto.go) and the order value
 * that travels between the command layer and the store (model/model.go),
 * together with the sequence helpers every store operation uses.
 */
module Orders {
  import opened Failures

  /** An instant, in whole seconds on the wall clock. */
  type Time = int

  /** A span of time, in whole seconds. */
  type Duration = int

  /** The value a record carries in `givenTime` while it has not been given (Go's `time.Time{}`). */
  const ZeroTime: Time := 0

  const Hour: Duration := 3600

  /** A client may refund an order strictly less than 48 hours after receiving it. */
  const RefundWindow: Duration := 48 * Hour

  /** One persisted order record. */
  datatype OrderDTO = OrderDTO(
    id: int,
    clientId: int,
    expirationDate: Time,
    weight: real,
    price: real,
    packaging: string,
    isGiven: bool,
    givenTime: Time)

  /** An order as the courier hands it in and as listings report it: no custody fields. */
  datatype Order = Order(
    id: int,
    clientId: int,
    expirationDate: Time,
    weight: real,
    price: real,
    packaging: string)

  /** The listing view of a record: every field except the custody flag and its timestamp. */
  function Project(o: OrderDTO): (r: Order) {
    Order(o.id, o.clientId, o.expirationDate, o.weight, o.price, o.packaging)
  }

  function ProjectAll(s: seq<OrderDTO>): (r: seq<Order>)
    ensures |r| == |s|
    ensures forall i :: 0 <= i < |s| ==> r[i] == Project(s[i])
  {
    seq(|s|, i requires 0 <= i < |s| => Project(s[i]))
  }

  /** The record a freshly accepted order becomes: not given, with the zero timestamp. */
  function Accepted(o: Order): (r: OrderDTO)
    ensures Project(r) == o
    ensures !r.isGiven && r.givenTime == ZeroTime
  {
    OrderDTO(o.id, o.clientId, o.expirationDate, o.weight, o.price, o.packaging, false, ZeroTime)
  }

  /** Some record of `s` carries identifier `id`. */
  ghost predicate HasId(s: seq<OrderDTO>, id: int) {
    exists i :: 0 <= i < |s| && s[i].id == id
  }

  /** `i` is the position of the first record of `s` with identifier `id`. */
  ghost predicate IsFirst(s: seq<OrderDTO>, id: int, i: int) {
    && 0 <= i < |s|
    && s[i].id == id
    && forall j :: 0 <= j < i ==> s[j].id != id
  }

  /** The position a front-to-back `for ... range` search stops at, if any. */
  function FindFirst(s: seq<OrderDTO>, id: int): (r: Option<nat>)
    ensures r.Some? <==> HasId(s, id)
    ensures r.Some? ==> IsFirst(s, id, r.value)
  {
    if |s| == 0 then None
    else if s[0].id == id then Some(0)
    else
      match FindFirst(s[1..], id)
      case None => None
      case Some(k) => Some(k + 1)
  }

  /** `append(s[:i], s[i+1:]...)`: the sequence without position `i`. */
  function RemoveAt<T>(s: seq<T>, i: nat): (r: seq<T>)
    requires i < |s|
    ensures |r| == |s| - 1
    ensures forall j :: 0 <= j < i ==> r[j] == s[j]
    ensures forall j :: i <= j < |r| ==> r[j] == s[j + 1]
    ensures multiset(r) + multiset{s[i]} == multiset(s)
  {
    assert s == s[..i] + [s[i]] + s[i + 1..];
    s[..i] + s[i + 1..]
  }

  /** No two records share an identifier. */
  ghost predicate UniqueIds(s: seq<OrderDTO>) {
    forall i, j :: 0 <= i < j < |s| ==> s[i].id != s[j].id
  }

  /** The identifiers present in `s`. */
  ghost function IdSet(s: seq<OrderDTO>): set<int> {
    set i | 0 <= i < |s| :: s[i].id
  }
}
