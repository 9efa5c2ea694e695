# Order lifecycle store: a Dafny model

This project models the order lifecycle store of a parcel pick-up point. The
store keeps two ordered collections of order records. "Available" holds the
parcels in custody. "Refunded" holds the parcels clients brought back. Six
operations act on them:

- accept an order from a courier;
- return an order to the courier;
- hand a batch of orders to a client, all or nothing;
- list orders, newest first;
- take a refund within 48 hours;
- list refunds in pages of ten.

On top sits a command layer. It checks the arguments, applies the packaging
rule table (a weight ceiling and a surcharge per packaging kind), and hands
the request to the store.

Every operation is a pure function. It takes the collections as loaded, the
arguments, and one wall-clock reading `now` in whole seconds. It returns
either the new collections (or a listing) or an error. An error means the
store writes nothing, so both collections stay as they were.

Modules, one per source file or concern:

- `Failures` (failures.dfy): the error kinds, `Option` and `Result`.
- `Orders` (orders.dfy): the persisted record `OrderDTO` and the order value
  `Order` exchanged with the command layer. It also holds first-match
  search, removal at a position, and identifier uniqueness.
- `GoText` (text.dfy): the two Go library calls the batch path relies on.
  These are `strings.Split` on `","` and `strconv.Atoi`.
- `Packaging` (packaging.dfy): the rule table.
- `Storage` (storage.dfy): the six store operations and the reference
  definition of the newest-first listing. It also holds the refund-list page
  arithmetic as written, with 64-bit wrap-around.
- `StorageProps` (storage_props.dfy): the store invariant and its
  preservation, and the inverse and duplicate-rejection properties. It also
  holds further facts about the listing and the pagination.
- `Controller` (controller.dfy): the six order commands.
- `ControllerProps` (controller_props.dfy): the packaging invariant over
  every command, and the worked accept–give–refund–list scenario.

Four behaviours of the code worth knowing:

- Accepting an order whose expiration equals `now` succeeds. The code
  rejects only `now` strictly after the expiration.
- The store itself accepts a listing limit of 0 or below -1. For such a
  limit it returns at most the newest record, because the loop checks the
  limit only after looking at a record. Only the command layer rejects these
  limits.
- The store itself panics on a refund page number below 1 (the slice would
  start at a negative index). This is modelled as the error `SlicePanic`.
  Only the command layer rejects these page numbers.
- Returning an order found only among the refunds deletes it with no check,
  as the code does.

## Model

| member | source | states |
|---|---|---|
| `Orders.Accepted` | internal/storage/storage.go:66-75 | An accepted record shows exactly the courier's order in listings. It starts not given, with the zero hand-out time. |
| `Orders.RemoveAt` | internal/storage/storage.go:94 | `append(s[:i], s[i+1:]...)` is one shorter. It keeps the elements before `i`, shifts those after it down by one, and drops exactly one copy of `s[i]`. |
| `Orders.FindFirst` | internal/storage/storage.go:91-92 | The front-to-back search finds a position iff some record has the identifier. That position is the first such record. |
| `Storage.CourierTakeOrder` | internal/storage/storage.go:51-82 | An order already past its expiration is rejected first, then a duplicate identifier. It succeeds iff `now <= expiration` and the identifier is new. On success the old records are kept as a prefix, the order is appended as an ungiven record, and refunds are untouched. |
| `Storage.CourierGiveOrder` | internal/storage/storage.go:85-114 | If "available" holds the identifier, the call succeeds iff its first such record is ungiven and expired. Exactly that record is removed, and otherwise the call fails as not returnable. Only if it is absent there, the first matching refund is deleted unconditionally. If it is in neither collection, the call fails as not found. |
| `Storage.ParseIds` | internal/storage/storage.go:164-171 | Succeeds iff every entry parses. The values are then entry by entry. A failure is always a bad-identifier error, and it names the first entry that does not parse. |
| `Storage.ScanBatch` | internal/storage/storage.go:173-187 | Fails iff some requested record is given, expired or another client's. The error is the reason of the first such record in file order. Otherwise it counts the requested records. |
| `Storage.ClientGiveOrder` | internal/storage/storage.go:158-205 | Succeeds iff all entries parse, no requested record is blocked, and the matching count reaches the number of entries. The first unparsable entry decides the error. Otherwise the first blocked record in file order decides it, and otherwise a short count fails as not all found. On success exactly the requested records become given at `now`. Length, order, all other fields and all other records are unchanged. |
| `Storage.Blocker` | internal/storage/storage.go:176-184 | A given record blocks as already given, then an expired one as expired, then another client's as wrong client. A record blocks iff one of the three holds. |
| `Storage.MarkGiven` | internal/storage/storage.go:193-199 | Length and every listing field are kept. Exactly the requested records are marked given at `now`, and every other record is unchanged. |
| `Storage.ClientRefund` | internal/storage/storage.go:235-269 | An unknown identifier fails as not found and another client's order as wrong client. Otherwise the call succeeds iff the order is given and less than 48 hours have passed (exactly 48 fails). The record then moves unchanged to the end of "refunded", and the multiset and total count of records are preserved. |
| `Storage.RefundList` | internal/storage/storage.go:272-294 | For page p >= 1 it fails iff `|refunded| <= (p-1)*10`. Otherwise it returns min(10, remaining) refunds starting at position (p-1)*10, oldest first. A page below 1 panics. |
| `Storage.RefundListAsWritten` | internal/storage/storage.go:278-283 | With 64-bit wrapping arithmetic, any page returned is still some contiguous run of refunds, but not necessarily the requested one. |
| `StorageProps.TakePreservesValid` | internal/storage/storage.go:60-77 | Accepting keeps identifiers in "available" unique and every ungiven record at the zero timestamp. Every refunded record stays given. |
| `StorageProps.ReturnPreservesValid` | internal/storage/storage.go:91-111 | Returning to the courier keeps the store invariant. |
| `StorageProps.GivePreservesValid` | internal/storage/storage.go:193-199 | Handing out a batch keeps the store invariant. |
| `StorageProps.RefundPreservesValid` | internal/storage/storage.go:246-261 | Refunding keeps the store invariant. |
| `StorageProps.TakeTwiceFails` | internal/storage/storage.go:60-64 | After an order is accepted, accepting the same identifier again fails as a duplicate. |
| `StorageProps.ReturnUndoesTake` | internal/storage/storage.go:91-95 | Returning an accepted, never-given order after its expiration restores the store exactly as before the acceptance. |
| `StorageProps.GiveUnderUniqueIds` | internal/storage/storage.go:164-191 | With unique identifiers, a batch succeeds iff three things hold: every entry parses, the entries name pairwise different identifiers, and all of them are present and eligible. |
| `StorageProps.GiveRejectsRepeatedId` | internal/storage/storage.go:164-191 | A batch naming one order twice, as "7" and "07", is rejected because the identifier map collapses the pair. |
| `StorageProps.RefundWindowAfterGive` | internal/storage/storage.go:249 | After a batch is handed out at time t, the same client's refund of one of its orders succeeds iff `now - t < 48h`. |
| `Storage.ClientGetOrders` | internal/storage/storage.go:208-232 | The listing equals the reference filter over the newest-first records. It returns all of it for limit -1, and its first n entries (at most n) for n >= 1. For any other limit it returns at most the newest record. |
| `Storage.CollectAll` | internal/storage/storage.go:214-230 | With limit -1 the loop appends the whole reference listing to what it has collected. |
| `Storage.CollectBounded` | internal/storage/storage.go:214-230 | With a limit n >= 1 the loop fills what it has collected up to n entries, taken in order from the reference listing. |
| `StorageProps.VisibleUnfiltered` | internal/storage/storage.go:217 | Without the own-orders filter every record is listed, whatever the client identifier. |
| `StorageProps.VisibleSound` | internal/storage/storage.go:216-225 | Every listed order is the view of a record the filter admits. With the filter, that is one of the client's ungiven records. |
| `StorageProps.RefundListLocates` | internal/storage/storage.go:278-283 | Refund j (from 0) is at position j mod 10 of page j/10 + 1, so the pages cover every refund. |
| `StorageProps.RefundListTwentyFive` | internal/storage/storage.go:278-283 | With 25 refunds, page 1 is refunds 1-10, page 3 is refunds 21-25 (five items), and page 4 does not exist. |
| `StorageProps.AsWrittenAgreesOnSmallPages` | internal/storage/storage.go:278-283 | While the page offsets fit in 64 bits, the code as written computes the same result as the corrected definition. |
| `StorageProps.RefundListOverflow` | internal/storage/storage.go:278-283 | Page 1844674407370955163 of 15 refunds returns refunds 5-14 as written, where the corrected definition reports a missing page. |
| `GoText.Split` | internal/controller/OrderController.go:97 | Splitting gives at least one piece, even for the empty input, and no piece holds the separator. |
| `GoText.SplitCount` | internal/controller/OrderController.go:97 | Splitting gives exactly one more piece than the input has separators. |
| `GoText.JoinSplit` | internal/controller/OrderController.go:97 | Joining the pieces with the separator gives back the input. |
| `GoText.SplitJoin` | internal/controller/OrderController.go:97 | Splitting undoes joining comma-free pieces. |
| `GoText.Atoi` | internal/storage/storage.go:166 | A string parses iff it is a numeral (one optional sign, then at least one digit) whose value lies in the 64-bit range. The result is then exactly that value. The empty string does not parse. |
| `GoText.AtoiItoa` | internal/storage/storage.go:166 | Every 64-bit integer's canonical numeral parses back to it. |
| `GoText.AtoiAliases` | internal/storage/storage.go:165-170 | A leading `+` or `0` spells the same identifier, so such entries collapse in the identifier map. |
| `Packaging.GetPackagingRules` | internal/model/model.go:26-43 | The table has exactly the keys "package", "carton" and "film". Every ceiling is >= 0 and every surcharge > 0. The values are 10/5, 30/20 and 0/1. |
| `Packaging.WeightAllowed` | internal/controller/OrderController.go:56 | A ceiling of 0 admits every weight. A positive ceiling admits exactly the weights up to it, as the comment at model.go:33 describes. |
| `Controller.CourierTakeCommand` | internal/controller/OrderController.go:38-75 | Non-positive order id, client id or storage period is rejected first, in that order, then an unknown packaging. It succeeds iff those checks pass, the weight is allowed and the id is new. The stored record has price + surcharge and deadline `now + period`. Over the ceiling fails as weight exceeding the limit, and a known id fails as already accepted. With one clock reading per call, expired-on-arrival never happens on this path. |
| `Controller.CourierReturnCommand` | internal/controller/OrderController.go:77-88 | A non-positive id is rejected. Otherwise the store's return decides. |
| `Controller.ClientGiveCommand` | internal/controller/OrderController.go:90-105 | A non-positive client and an empty list are rejected. Otherwise the entries sent are the comma-split pieces, which number commas + 1 and join back to the input. |
| `Controller.ClientOrdersCommand` | internal/controller/OrderController.go:107-128 | It succeeds iff the client is positive and the limit is -1 or >= 1. The result is then the whole newest-first listing, or its first n entries. |
| `Controller.ClientRefundCommand` | internal/controller/OrderController.go:130-144 | Non-positive order or client ids are rejected. Otherwise the store's refund runs with the client first. |
| `Controller.RefundListCommand` | internal/controller/OrderController.go:146-165 | A page below 1 is rejected, so the store's slice panic is never reached. Otherwise the result is the store's page. |
| `ControllerProps.TakeKeepsAdmissible` | internal/controller/OrderController.go:49-58 | After an accepted order, every stored record still has a known packaging and a weight within its ceiling. |
| `ControllerProps.ReturnKeepsAdmissible` | internal/controller/OrderController.go:77-88 | Returning to the courier keeps every record within the packaging rules. |
| `ControllerProps.GiveKeepsAdmissible` | internal/controller/OrderController.go:90-105 | Handing out a batch keeps every record within the packaging rules. |
| `ControllerProps.RefundKeepsAdmissible` | internal/controller/OrderController.go:130-144 | Refunding keeps every record within the packaging rules. |
| `ControllerProps.PackageSurcharge` | internal/controller/OrderController.go:56-60 | 8 kg in "package" at 20 is stored at 25. 11 kg in "package" is rejected for weight. |
| `ControllerProps.FilmTakesAnyWeight` | internal/model/model.go:41 | "film" accepts any weight. |
| `ControllerProps.EndToEnd` | internal/controller/OrderController.go:38-150 | Order 1 of client 5 (8 kg, "package", 20) is stored at 25 and handed out. A refund 49 hours later fails, one 10 hours later succeeds, and the order is then the only entry on refund page 1. |

## Left out

- File and JSON persistence (`New`, `GetOrders`, `writeOrders`) is not modelled. The collections are sequences, and read, write and decoding failures are not modelled.
- The two separate file writes in `ClientRefund` are not modelled. Available is written before refunded, so a crash between them could lose a record. Only the in-memory effect is modelled.
- Concurrency is not modelled: the read–write lock, the goroutines, channels and stdin loop of `InteractiveCommand`, and the shutdown in cmd/main.go. None of it is sequential logic.
- The wall clock is a single `now` per call. The code reads `time.Now()` separately in the command layer and again per record in the store. Time is whole seconds, and the zero `time.Time{}` is the value 0.
- Time arithmetic does not wrap: Go durations are 64-bit nanoseconds, and `time.Since` saturates.
- Weight and price are `real`. Float rounding is not modelled.
- Identifiers and limits are unbounded integers. Only `Atoi`'s range check and `Storage.RefundListAsWritten` model Go's 64-bit `int`.
- `GoText.Atoi`: its contract does not tell a syntax error from a range error. The store reports either one the same way.
- Error texts, the "failed to …: %w" wrapping and all printing are left out. Each error is a variant of `Failures.Error`.
- The pick-up point directory is left out: its HTTP handlers, the database repository, the message-bus sender and `PickUpPointWrite`/`PickUpPointsRead`. It is network and database plumbing outside the order store.
- internal/service/service.go only delegates, so the commands call the store directly.
- cmd/main.go and internal/configuration/config.go are argument parsing and dispatch. Two wiring faults there are outside this model. The refund arguments are passed in swapped order, and the refund-list command reuses the courier-take flag set.
- `HelpCommand` only prints text.
- `Storage.RefundListAsWritten`: its contract states only that a returned page is some contiguous run of refunds. Its exact behaviour is pinned down by `StorageProps.AsWrittenAgreesOnSmallPages` and `StorageProps.RefundListOverflow`.
- `Controller.CourierTakeCommand`: the proof that expired-on-arrival never happens holds only with one clock reading per call, in whole seconds. The program reads the clock in the command (OrderController.go:65) and again in the store (storage.go:57). So a storage period shorter than the gap between the two readings, such as any sub-second `-at`, can expire on arrival in the program.

## Findings

| source | as written | input that shows it | evidently intended | confidence | as-written member | corrected member |
|---|---|---|---|---|---|---|
| internal/storage/storage.go:278-283 | The page offset `(pageNumber-1)*10` and the end `pageNumber*10` are computed in 64-bit `int` and wrap around. | pageNumber = 1844674407370955163 with 15 refunds: the offset wraps to 4, the end to 14, and refunds 5-14 come back. | Any page past the last reports "page does not exists". | not executed; high | `Storage.RefundListAsWritten` (counterexample `StorageProps.RefundListOverflow`) | `Storage.RefundList` (`StorageProps.RefundListLocates`) |
