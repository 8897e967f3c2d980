# swapx matching core, modelled in Dafny

swapx is a coprocessor for a Uniswap v4 hook. For every swap request it:

1. checks four unpacked ABI arguments and builds the incoming order from them;
2. stores that order in an in-memory repository;
3. rebuilds the hook contract's buy and sell order arrays from raw storage words, read one word at a time through the "gio" storage endpoint;
4. fills a price-priority order book with the open orders of each side;
5. runs the book's matching loop and answers with the map from each matched bid id to the ids of the asks it took.

The project models that core:

| file | models |
|---|---|
| `wrappers.dfy` | `Option` and `Result` |
| `encoding.dfy` | 256-bit words, 20-byte addresses, big-endian 32-byte hashes (`common.BigToHash`), lowercase hex (`encoding/hex`), `strconv.FormatUint(id, 10)`, and the `uint64` truncation of `big.Int.Uint64` |
| `order.dfy` | the order record, its validation, the error values (`internal/domain/order.go`) |
| `heap.dfy` | `MaxHeap`/`MinHeap` and `container/heap` |
| `order_book.dfy` | `OrderBook.MatchOrders` as a function of its inputs: `Consume` is one inner loop, `Round` one outer pass, `Run` a stretch of outer passes up to the exit or to a pass without progress, `MatchLoop` the whole outer loop, with the lemmas about them |
| `book.dfy` | the same matching loop on mutable heap objects and order records, proved to compute `MatchLoop` |
| `repository.dfy` | `OrderRepositoryInMemory` |
| `gio.dfy` | the storage-read request of `pkg/gio/gio_get_storage_at.go` |
| `storage.dfy` | `OrderStorageService`, which rebuilds orders from the Solidity storage layout |
| `match_orders.dfy` | `MatchOrdersUseCase.Execute` |
| `scenarios.dfy` | the order-book cases of `internal/domain/order_book_test.go` |

How the model treats the matching loop:

- **Divergence.** A round in which the popped bid is priced below the popped ask makes no progress. The inner loop pushes the bid back (line 89), and line 121 pushes it again. When every bid is priced below every ask (`Separated`), every later round is stuck in the same way (`DivergingStaysStuck`), so `MatchOrders` never returns; `MatchLoop` stops there with `Diverged`.
- **Rounds without progress on other books.** On slices that are not heaps, `heap.Pop` need not return the best bid, so a stuck round can leave a book that is not separated, and the Go loop goes on. `MatchLoop` follows it for up to `fuel` such rounds and answers `Unresolved` if the fuel runs out first. `RawBookMovesOn` shows such a book: bids listed at 80 and 100 against an ask at 90 stall once and then match bid 2 against ask 3. On two valid heaps a stuck round always leaves a separated book (`RunDiverges`), so the answer is the same for every fuel and never `Unresolved` (`ValidLoopDecided`).
- **Termination.** When every bid price is at least every ask price, `Run` always finishes: `AllCrossFinishes`.
- **The second loop.** The sell-side loop (lines 125-163) never runs: `Run` only finishes with one side empty. So `sellToBuy` is always `nil`.
- **A partly used ask is dropped.** When a bid is filled, the ask it was filled against leaves the book even if it still has an amount (lines 107-109). The model follows the code: `AskFullyMatchedByMultipleBids` gives `{1: [3]}`. The test file expects a trade for both bids, but it is written against a `Trade` type that no longer exists in the package, so it does not say what the current code is meant to do. This is a description of the code, not a finding.

State changes follow the Go code:

- an `Order` is a class whose `Amount` and `Type` are updated in place;
- the repository is a class over a `map`;
- the heaps are classes over a `seq` of order references;
- the request, the storage layout and the matching outcome are values.

Storage reads, Keccak-256 and the HTTP exchange are function-typed parameters. The model fixes each of them once per call.

Where the repository's files disagree with each other, the model follows the code that runs:

- **Order status.** `order.go:28-29` names the statuses "open" and "fulfilled_or_closed", while the use case and the storage service use `OrderNotCancelledOrFulfilled` and `OrderCancelledOrFulfilled`. The model has one two-valued status.
- **`MatchOrders` results.** `MatchOrders` returns three results, and `match_orders.go:185` assigns two of them. The answer is modelled as `buyToSell` or the error.
- **Order lookup.** The repository interface declares `FindOrderById` (`order.go:36`), but the repository defines `FindOrderByTypeAndId` and returns `ErrOderNotFound`. The model has the method that exists, returning `ErrOrderNotFound`.
- **gio status.** The storage handler accepts only status 202 (`gio_get_storage_at.go:62`).
- **Type comparison.** `FindOrderByTypeAndId` and `FindOrdersByType` compare `string(order.Type)` with the type asked for (`order_repository_in_memory.go:54` and `:67`), but `order.Type` is a `*OrderType`, which that conversion does not accept. The model compares the type the pointer points to, and a record with no type matches no type.

The use case compares the storage service's error with the domain's `ErrNoOrdersFound` (lines 113 and 133). The service never returns that value: its own `ErrNoOrdersFound` is a different variable. `ReconstructNotDomainNoOrders` proves this for every read function that does not itself produce the domain error. So a side with no stored orders does not end the request. Its error is dropped and the side contributes nothing.

## Model

| member | source | states |
|---|---|---|
| Encoding.ToBigEndian | internal/infra/service/order_storage_service.go:65 | the big-endian rendering of `common.BigToHash` has exactly the requested width |
| Encoding.FromToBigEndian | internal/infra/service/order_storage_service.go:65 | reading back a width-byte big-endian rendering gives the number modulo 256^width, i.e. `BigToHash` keeps the low 32 bytes |
| Encoding.FromBigEndianBound | internal/infra/service/order_storage_service.go:45 | `SetBytes` of k bytes is below 256^k |
| Encoding.Bytes32 | pkg/gio/gio_get_storage_at.go:30-31 | a hash is 32 bytes |
| Encoding.Bytes32RoundTrip | pkg/gio/gio_get_storage_at.go:30-31 | a word's 32-byte hash reads back as the same word |
| Encoding.Truncate | internal/usecase/match_orders.go:86 | truncation stays below the modulus and leaves smaller values alone |
| Encoding.TruncateMod | internal/usecase/match_orders.go:86 | truncation is reduction modulo the given width |
| Encoding.Uint64Of | internal/usecase/match_orders.go:86 | `big.Int.Uint64` keeps a value below 2^64 unchanged |
| Encoding.HexValue | pkg/gio/gio_get_storage_at.go:33 | a hex digit's value is below 16 |
| Encoding.HexValueOfDigit | pkg/gio/gio_get_storage_at.go:33 | decoding the digit emitted for v gives v back |
| Encoding.HexEncode | pkg/gio/gio_get_storage_at.go:33 | `hex.EncodeToString` emits two characters per byte |
| Encoding.HexDecode | pkg/gio/gio_get_storage_at.go:33 | the strict reading of what `hex.EncodeToString` emits, used to read a request id back: a successful decode has half as many bytes as characters |
| Encoding.HexEncodeLower | pkg/gio/gio_get_storage_at.go:33 | every emitted character is a lowercase hex digit |
| Encoding.HexRoundTrip | pkg/gio/gio_get_storage_at.go:33 | decoding the encoding of any byte string gives the bytes back |
| Encoding.FormatUint | internal/domain/order_book.go:94 | the decimal rendering of an id is never empty |
| Encoding.ParseFormatUint | internal/domain/order_book.go:94 | parsing the decimal rendering of n gives n back |
| Encoding.FormatUintInjective | internal/domain/order_book.go:117 | distinct ids give distinct map keys and trade entries |
| Domain.OrderData.Validate | internal/domain/order.go:66-80 | no error exactly when id, hook, price and amount are all non-zero; the first failing guard in source order gives the reason, and every error is an invalid-order error |
| Domain.ValidateIgnoresBookkeeping | internal/domain/order.go:66-80 | validation does not depend on the matched amount, the type or the status |
| Domain.OverMatchedOrderValidates | internal/domain/order.go:66-80 | a matched amount above the amount is accepted |
| Domain.Order.constructor | internal/domain/order.go:51-59 | the new record holds exactly the given fields |
| Domain.NewOrder | internal/domain/order.go:50-64 | the error is the validation result; a fresh record with the given fields exactly when there is no error |
| Heap.BidOrder | internal/domain/order_book.go:36-41 | `MaxHeap.Less`: higher price first, and at equal price the larger amount |
| Heap.AskOrder | internal/domain/order_book.go:57-62 | `MinHeap.Less`: lower price first, and at equal price the larger amount |
| Heap.PrecedesIsStrictWeakOrder | internal/domain/order_book.go:36-62 | both `Less` functions are irreflexive, asymmetric, transitive, and transitive in incomparability, as `container/heap` needs |
| Heap.SwapSeq | internal/domain/order_book.go:43 | `Swap` exchanges two positions, leaves the others alone and keeps the multiset |
| Heap.SiftUp | internal/domain/order_book.go:89 | the sift-up of `heap.Push` is a permutation |
| Heap.SiftDown | internal/domain/order_book.go:82 | the sift-down of `heap.Pop` is a permutation that leaves the tail beyond n untouched |
| Heap.SiftDownTurn | internal/domain/order_book.go:82 | one step of the sift-down: it stops when the better child does not beat the parent, otherwise it swaps and continues at the child |
| Heap.PushSeq | internal/domain/order_book.go:44 | `heap.Push` grows the heap by exactly the pushed element |
| Heap.PopSeq | internal/domain/order_book.go:45-51 | `heap.Pop` returns the root and leaves the rest, one element shorter |
| Heap.RootIsBest | internal/domain/order_book.go:82 | no element of a heap beats its root |
| Heap.SiftUpRestores | internal/domain/order_book.go:89 | sifting up the one misplaced element restores the heap property |
| Heap.SiftDownRestores | internal/domain/order_book.go:82 | sifting down a root that breaks the heap property restores it |
| Heap.PushKeepsHeap | internal/domain/order_book.go:89 | `heap.Push` on a heap gives a heap |
| Heap.PopKeepsHeap | internal/domain/order_book.go:82 | `heap.Pop` on a heap leaves a heap and returns an element no other beats |
| Heap.PushMember | internal/domain/order_book.go:44 | membership after a push is the old membership plus the pushed element |
| Heap.PopMember | internal/domain/order_book.go:45-51 | membership before a pop is the rest plus the popped element |
| Heap.RootBeatsMember | internal/domain/order_book.go:82 | every member is beaten by or tied with the root |
| Heap.IsHeapFrame | internal/domain/order_book.go:36-62 | the heap property depends only on the amounts of the heap's own elements |
| Heap.OrderHeap.constructor | internal/domain/order_book.go:21-24 | `heap.Init` on an empty slice: an empty max or min heap |
| Heap.OrderHeap.LessAgrees | internal/domain/order_book.go:36-62 | `Less` on the stored records agrees with the ordering under the tracked amounts |
| Heap.OrderHeap.Swap | internal/domain/order_book.go:43 | the slice after `Swap` is `SwapSeq` of the slice before |
| Heap.OrderHeap.Push | internal/domain/order_book.go:44 | the slice's own `Push` appends, with no sift |
| Heap.OrderHeap.Pop | internal/domain/order_book.go:45-51 | the slice's own `Pop` removes and returns the last element |
| Heap.OrderHeap.Up | internal/domain/order_book.go:89 | the imperative sift-up loop computes `SiftUp` |
| Heap.OrderHeap.BetterChild | internal/domain/order_book.go:82 | the child the sift-down compares with: the right one only when it beats the left |
| Heap.OrderHeap.Down | internal/domain/order_book.go:82 | the imperative sift-down loop computes `SiftDown` |
| Heap.OrderHeap.HeapPush | internal/domain/order_book.go:89 | `heap.Push` leaves the slice equal to `PushSeq` of the old slice |
| Heap.OrderHeap.HeapPop | internal/domain/order_book.go:82 | `heap.Pop` returns `PopSeq`'s top and leaves its rest |
| Matching.MatchSize | internal/domain/order_book.go:97-102 | the match size is the smaller of the two amounts |
| Matching.FillTakesMatchSize | internal/domain/order_book.go:97-105 | one match subtracts the match size from both sides with no underflow; one side ends at zero; no other record changes |
| Matching.ConsumeUnfold | internal/domain/order_book.go:85-114 | one inner iteration: a non-crossing ask goes back and stops the loop; a crossing ask is matched; the loop stops when the bid is filled and otherwise continues |
| Matching.ConsumeKeepsBidOut | internal/domain/order_book.go:85-114 | the bid never enters the ask heap |
| Matching.ConsumeConserves | internal/domain/order_book.go:85-114 | every ask either stays on the heap or is matched, and none is duplicated |
| Matching.ConsumeAppends | internal/domain/order_book.go:94 | matched asks are appended in order; the loop ends with the heap empty, the bid filled after a match, or a non-crossing ask left on the heap |
| Matching.ConsumeFrame | internal/domain/order_book.go:104-105 | the inner loop changes the amount of no record other than the bid and the asks it matched |
| Matching.ConsumeKeepsBook | internal/domain/order_book.go:85-114 | the ask heap stays a heap with distinct elements, holding only asks that were there before with their amounts unchanged |
| Matching.ConsumeStopsBelow | internal/domain/order_book.go:88-92 | a loop that stops on a non-crossing ask leaves only asks priced above the bid |
| Matching.ConsumeCrossesAll | internal/domain/order_book.go:88-92 | when the bid's price is at least every ask's, the loop never stops on a non-crossing ask |
| Matching.ConsumeFillsOrdered | internal/domain/order_book.go:86-95 | matched asks are priced at most the bid's price, in non-decreasing price order |
| Matching.ConsumeExit | internal/domain/order_book.go:107-109 | the loop stops with the bid filled exactly when the bid's amount reaches zero |
| Matching.ConsumeExhausts | internal/domain/order_book.go:107-113 | every matched ask but the last one before a filled bid ends at zero |
| Matching.ConsumeSplits | internal/domain/order_book.go:85-114 | the asks left and the asks matched together are exactly the asks before |
| Matching.Ids | internal/domain/order_book.go:94 | the matched-ask list holds the decimal id of each matched ask, in order |
| Matching.PushIf | internal/domain/order_book.go:120-122 | a conditional push adds the element exactly when the condition holds |
| Matching.Requeued | internal/domain/order_book.go:89 | after requeueing, the bid heap holds only old bids and the popped bid |
| Matching.Settle | internal/domain/order_book.go:116-122 | the book stays two-sided and disjoint; the round is stuck exactly when the inner loop met a non-crossing ask |
| Matching.Round | internal/domain/order_book.go:81-123 | one outer pass keeps the sides disjoint and adds no record; a pass that crosses takes at least one ask out |
| Matching.Run | internal/domain/order_book.go:81-123 | a stretch of outer passes that finishes ends with one side of the book empty, and keeps no record on both sides |
| Matching.LoopFrom | internal/domain/order_book.go:81-123 | after a stretch, the loop exits with one side empty, diverges only on a separated book, and runs out of fuel only on a book that is not |
| Matching.MatchLoop | internal/domain/order_book.go:81-123 | the whole outer loop: an exit leaves one side empty; `Diverged` only on a separated book, from which the Go loop never exits; `OutOfFuel` only on a book that is not separated |
| Matching.ResultOf | internal/domain/order_book.go:165-176 | "never returns" exactly for a diverged loop, "unresolved" exactly when the fuel ran out, and otherwise the three results of the return statements |
| Matching.LoopStarts | internal/domain/order_book.go:81-123 | the loop is its first stretch followed by the rest |
| Matching.LoopFromEnds | internal/domain/order_book.go:81-123 | a stretch that finished, or stalled on a separated book, ends the loop whatever the fuel |
| Matching.LoopFromStep | internal/domain/order_book.go:81-92 | after a stalled stretch on a book that is not separated, the Go loop goes on and the model follows it with one unit of fuel less |
| Matching.RoundOutcome | internal/domain/order_book.go:81-123 | a stretch continues after a crossing pass and stalls after a stuck one |
| Matching.ValidLoopDecided | internal/domain/order_book.go:81-123 | on two valid heaps the loop never runs out of fuel and comes to the same thing for every fuel |
| Matching.LoopReports | internal/domain/order_book.go:116-118 | the whole loop keeps `hasBuyMatch` in step with `buyToSell` |
| Matching.LoopFromReports | internal/domain/order_book.go:116-118 | so does the loop after any stretch |
| Matching.BidsUnaffected | internal/domain/order_book.go:104-105 | the inner loop leaves the amounts of the waiting bids alone |
| Matching.PopBidStep | internal/domain/order_book.go:82 | the popped bid is the highest-priced bid, and the rest stays a heap under the amounts after its inner loop |
| Matching.RoundKeepsValid | internal/domain/order_book.go:81-123 | a crossing round on two valid heaps leaves two valid, distinct and disjoint heaps |
| Matching.StuckRoundDiverges | internal/domain/order_book.go:88-92 | a stuck round leaves every bid priced below every ask |
| Matching.DivergingStaysStuck | internal/domain/order_book.go:120-122 | on such a book every further round is stuck again, changes no amount and no reported match, and pushes the best bid once more |
| Matching.RunDiverges | internal/domain/order_book.go:81-123 | on valid heaps, a stretch that stalls has reached a separated book, on which the loop never returns |
| Matching.AllCrossFinishes | internal/domain/order_book.go:81-123 | when every bid is priced at least every ask, the first stretch finishes and `MatchOrders` returns, whatever the fuel |
| Matching.SettleReports | internal/domain/order_book.go:116-118 | `hasBuyMatch` holds exactly when `buyToSell` is non-empty, and no entry is empty |
| Matching.RoundReports | internal/domain/order_book.go:116-118 | one pass keeps that correspondence |
| Matching.RunReports | internal/domain/order_book.go:116-118 | the whole loop keeps it |
| Matching.ResultMeaning | internal/domain/order_book.go:165-176 | a returning call gives `ErrNoMatch` exactly when nothing matched, and otherwise the non-empty `buyToSell` and a nil `sellToBuy` |
| Matching.OneSideEmptyIsNoMatch | internal/domain/order_book.go:165-166 | with one side empty the answer is `ErrNoMatch` with nil maps |
| Book.AmountsOf | internal/domain/order_book.go:104-105 | the amounts the records hold, as a map the engine can use |
| Book.IdsAppend | internal/domain/order_book.go:94 | appending a matched ask appends its decimal id |
| Book.Subtract | internal/domain/order_book.go:104-105 | the in-place subtraction leaves the records holding `Fill`'s amounts |
| Book.OrderBook.constructor | internal/domain/order_book.go:20-30 | `NewOrderBook`: two fresh, empty heaps, bids max-first and asks min-first |
| Book.OrderBook.PopBest | internal/domain/order_book.go:82 | `heap.Pop` on one side returns its best order |
| Book.OrderBook.PushTracked | internal/domain/order_book.go:89-90 | `heap.Push` on one side adds the order |
| Book.OrderBook.MatchAsk | internal/domain/order_book.go:86-113 | one inner iteration on the objects does what `ConsumeUnfold` describes |
| Book.OrderBook.TakeAsk | internal/domain/order_book.go:94-109 | a crossing ask is recorded and both amounts drop by the match size |
| Book.OrderBook.ConsumeAsks | internal/domain/order_book.go:85-114 | the object inner loop computes `Consume` and pushes the bid back exactly when it stopped on a non-crossing ask |
| Book.OrderBook.Requeue | internal/domain/order_book.go:120-122 | the bid is pushed back exactly when its amount is positive |
| Book.OrderBook.MatchBid | internal/domain/order_book.go:82-122 | one outer pass on the objects computes `Round` |
| Book.Decide | internal/domain/order_book.go:81-92 | after a pass: go on when it crossed; after a stuck pass, stop with "never returns" exactly on a separated book, stop unresolved when the fuel is spent, otherwise go on with one unit less |
| Book.OrderBook.Advance | internal/domain/order_book.go:81-123 | one pass of the outer loop on the objects keeps the loop equation: what remains of `MatchLoop` from the new book is what remained from the old, or the pass ends the loop with its result; the amounts stay tracked |
| Book.OrderBook.MatchOrders | internal/domain/order_book.go:74-177 | returns `ResultOf(MatchLoop(...))` of the book it starts from, and leaves the heaps and every record's amount as `MatchLoop` ends |
| Repository.OrderRepositoryInMemory.constructor | internal/infra/repository/order_repository_in_memory.go:21-26 | works on the given map, keyed by order id |
| Repository.OrderRepositoryInMemory.CreateOrder | internal/infra/repository/order_repository_in_memory.go:28-35 | stores the order under its id, replacing any previous one, and never fails |
| Repository.OrderRepositoryInMemory.FindAllOrders | internal/infra/repository/order_repository_in_memory.go:37-47 | lists every stored record exactly once, and never fails |
| Repository.OrderRepositoryInMemory.FindOrderByTypeAndId | internal/infra/repository/order_repository_in_memory.go:49-59 | the stored record exactly when the id is present with that type; otherwise no record and `ErrOrderNotFound` |
| Repository.OrderRepositoryInMemory.Select | internal/infra/repository/order_repository_in_memory.go:65-71 | the filtering loop lists exactly the stored records that pass the filter, once each |
| Repository.OrderRepositoryInMemory.FindOrdersByType | internal/infra/repository/order_repository_in_memory.go:61-73 | exactly the stored records of that type, once each, and never fails |
| Repository.OrderRepositoryInMemory.FindOrdersByTypeAndStatus | internal/domain/order.go:37 | exactly the stored records of that type and status, once each |
| Repository.OrderRepositoryInMemory.SelectedListing | internal/infra/repository/order_repository_in_memory.go:65-71 | listing the selected ids is listing every stored record that passes the filter |
| Gio.RequestBytes | pkg/gio/gio_get_storage_at.go:30-31 | the request is 84 bytes: block hash, address, slot |
| Gio.RequestId | pkg/gio/gio_get_storage_at.go:33-37 | the id is "0x" and 168 lowercase hex digits |
| Gio.RequestIdRoundTrip | pkg/gio/gio_get_storage_at.go:30-37 | the id names exactly the block hash, the address and the slot it was built from |
| Gio.RequestIdInjective | pkg/gio/gio_get_storage_at.go:30-37 | different storage words give different request ids |
| Gio.Accept | pkg/gio/gio_get_storage_at.go:51-72 | a response only for status 202 and a decodable body; otherwise the transport error, the unexpected status, or the format error |
| Gio.GioGetStorage.constructor | pkg/gio/gio_get_storage_at.go:20-25 | keeps the base URL and the domain |
| Gio.GioGetStorage.Request | pkg/gio/gio_get_storage_at.go:35-38 | the request carries domain 0x27, whatever the handler's own domain, and the id of the word asked for |
| Gio.GioGetStorage.Handle | pkg/gio/gio_get_storage_at.go:27-73 | one exchange with `BaseUrl + "/gio"`, accepted exactly for status 202 with a decodable body |
| Storage.NextSlot | internal/infra/service/order_storage_service.go:65 | the next slot is slot + 1 modulo 2^256 |
| Storage.AdvanceWraps | internal/infra/service/order_storage_service.go:65 | k successive increments reach slot + k modulo 2^256 |
| Storage.NextElementSlot | internal/infra/service/order_storage_service.go:58-66 | the slot after word j of element i is word j + 1; after word 3 comes word 0 of element i + 1 |
| Storage.Int64Of | internal/infra/service/order_storage_service.go:50-55 | `big.Int.Int64` is in `int64` range, keeps small values, and is negative exactly when bit 63 of the low 64 bits is set |
| Storage.Int64OfLowBits | internal/infra/service/order_storage_service.go:52 | the `int64` keeps the low 64 bits |
| Storage.ReadWord | internal/infra/service/order_storage_service.go:59-64 | a word read succeeds exactly when the handler answers with a number below 2^256; the handler's error passes through, and a larger number panics in `MustFromBig` |
| Storage.Sub256Zero | internal/infra/service/order_storage_service.go:79 | the wrapped difference is zero exactly when amount equals matched amount |
| Storage.Collect | internal/infra/service/order_storage_service.go:55-106 | a successful collection of elements i..n has n - i of them |
| Storage.CollectMeaning | internal/infra/service/order_storage_service.go:55-106 | the collection succeeds exactly when every element does, and then lists them in index order |
| Storage.CollectError | internal/infra/service/order_storage_service.go:59-62 | a failing collection fails with the error of one of its elements |
| Storage.FindOrderStatus | internal/infra/service/order_storage_service.go:111-127 | reads the mapping slot of the order index; cancelled exactly when the word read is 1; the handler's error passes through |
| Storage.ElementMeaning | internal/infra/service/order_storage_service.go:56-97 | order i has id i + 1, the hook's address, no type, and words 1-3 as price, amount and matched amount; it is closed exactly when cancelled or fully matched; it fails exactly on a read error, a zero hook, a zero price or a zero amount |
| Storage.ReconstructMeaning | internal/infra/service/order_storage_service.go:40-108 | a read error passes through; a zero length gives the service's `ErrNoOrdersFound`; for a length below 2^63, success exactly when every order is rebuilt, and then that many orders in index order |
| Storage.ReconstructLength64 | internal/infra/service/order_storage_service.go:50-55 | a length of exactly 2^64 truncates to zero and returns no orders and no error |
| Storage.ElementNotDomainNoOrders | internal/infra/service/order_storage_service.go:17 | rebuilding one order never fails with the domain's `ErrNoOrdersFound` |
| Storage.ReconstructNotDomainNoOrders | internal/usecase/match_orders.go:112-117 | the service never returns the domain's `ErrNoOrdersFound`, so the use case's comparison never holds |
| Storage.ReadOrderWords | internal/infra/service/order_storage_service.go:56-66 | the four-word loop fills the array with the words read, or returns the first read error |
| Storage.ReadOrder | internal/infra/service/order_storage_service.go:56-97 | one iteration of the outer loop builds a fresh record equal to element i, or returns its error |
| Storage.ReadNext | internal/infra/service/order_storage_service.go:55-106 | one iteration keeps the collection equation: the records so far followed by the rest give the whole result |
| Storage.ReadOrders | internal/infra/service/order_storage_service.go:52-108 | the imperative loop returns fresh records equal to the collected elements, or no records and the first error |
| Storage.FindOrdersBySlot | internal/infra/service/order_storage_service.go:32-109 | returns fresh records equal to `Reconstruct`'s orders, or no records and its error |
| UseCase.ParseArgs | internal/usecase/match_orders.go:50-72 | fewer than four arguments is an error; so is any of the first four that is not a `*big.Int`, and the error names the first such index; otherwise the four values |
| UseCase.IncomingOrder | internal/usecase/match_orders.go:50-96 | the incoming order: id the low 64 bits of the index, the sender as hook, price and quantity as given, matched 0, side buy exactly for flag 0, status open; a price or quantity of 2^256 or more panics; validation errors as `NewOrder` gives them |
| UseCase.IncomingId | internal/usecase/match_orders.go:86 | an index below 2^64 is the id unchanged |
| UseCase.InsertAll | internal/usecase/match_orders.go:119-124 | successive `CreateOrder` calls put only old records and inserted ones in the map |
| UseCase.InsertAllValues | internal/usecase/match_orders.go:119-124 | every value after the inserts is an old value or one of the inserted records |
| UseCase.InsertAllLast | internal/usecase/match_orders.go:119-124 | the last record inserted under an id is the one stored under it |
| UseCase.InsertAllUntouched | internal/usecase/match_orders.go:119-124 | ids that no inserted record carries keep their old entry |
| UseCase.InsertAllKeyed | internal/usecase/match_orders.go:119-124 | the map stays keyed by record id |
| UseCase.ReconstructedOverwritesIncoming | internal/usecase/match_orders.go:98-124 | a rebuilt order with the incoming order's id replaces the incoming record in the map |
| UseCase.LastWithId | internal/usecase/match_orders.go:119-124 | among records sharing an id there is a last one |
| UseCase.SideStop | internal/usecase/match_orders.go:112-117 | a side's read ends the request exactly on the domain's `ErrNoOrdersFound`, with the side's "no orders found with type" error, or on a panic inside the storage service |
| UseCase.SidesDisjoint | internal/usecase/match_orders.go:152-172 | no record is listed both as an open bid and as an open ask |
| UseCase.ResponseOf | internal/usecase/match_orders.go:185-198 | the answer says "never returns" exactly when matching never returns |
| UseCase.ResponseMeaning | internal/usecase/match_orders.go:185-198 | a failure after matching is `ErrNoMatch` with nothing matched; trades are the engine's non-empty `buyToSell`; a returning engine fails exactly when nothing matched |
| UseCase.RawBidsPopFirstListed | internal/usecase/match_orders.go:159-161 | with bids listed at 90 then 100, the raw slice is not a heap and the loop takes the bid at 90 while a better one waits |
| UseCase.HeapBidsPopBest | internal/usecase/match_orders.go:159-161 | on a heap, no listed bid beats the one popped |
| UseCase.ListedOpen | internal/usecase/match_orders.go:152-172 | the two listings together hold exactly the open records of the map |
| UseCase.ListedStored | internal/usecase/match_orders.go:152-172 | the listed orders are stored records, none twice |
| UseCase.BookIsValid | internal/usecase/match_orders.go:150-172 | a book filled by `heap.Push` with the open orders is valid for the engine and holds exactly them |
| UseCase.DistinctById | internal/infra/repository/order_repository_in_memory.go:65-71 | records with distinct ids are distinct records |
| UseCase.PushAll | internal/usecase/match_orders.go:159-161 | the loop of raw `Push` calls appends the listed orders in order |
| UseCase.HeapPushAll | internal/usecase/match_orders.go:159-161 | the loop of `heap.Push` calls keeps a heap holding the old elements and the listed ones |
| UseCase.HeapFill | internal/usecase/match_orders.go:150-172 | both sides pushed with `heap.Push` give a valid book holding exactly the listed orders |
| UseCase.ValidAnswerDecided | internal/usecase/match_orders.go:185-198 | on two valid heaps a matched answer is never "unresolved" |
| UseCase.ReadSettled | internal/usecase/match_orders.go:98-198 | if matching starts each record of the book from the amount it holds and leaves every other record and every type alone, each ingested record keeps its fields and starts, or stays, at the amount it was read with |
| UseCase.MatchAndAnswer | internal/usecase/match_orders.go:185-198 | the answer is the engine's result on the book's orders and the amounts they hold; every record of the book then holds the amount the engine left it; on valid heaps the answer is never "unresolved" |
| UseCase.MatchOrdersUseCase.constructor | internal/usecase/match_orders.go:37-42 | keeps the repository and the storage access |
| UseCase.MatchOrdersUseCase.CreateIncoming | internal/usecase/match_orders.go:50-100 | the argument and validation errors store nothing; otherwise a fresh record equal to the incoming order is stored under its id |
| UseCase.MatchOrdersUseCase.StoreAll | internal/usecase/match_orders.go:119-124 | every rebuilt record gets the side's type and is stored under its id, in order |
| UseCase.MatchOrdersUseCase.IngestSide | internal/usecase/match_orders.go:106-124 | ends the request as `SideStop` says, on the domain's `ErrNoOrdersFound` or a storage panic; any other error yields no orders; otherwise fresh records equal to the rebuilt orders, stored with the side's type |
| UseCase.MatchOrdersUseCase.ListOpen | internal/usecase/match_orders.go:152-177 | the open bids and open asks exactly as stored, none twice, none on both sides |
| UseCase.MatchOrdersUseCase.BuildBook | internal/usecase/match_orders.go:150-172 | as written: a fresh book whose slices are the listed orders in listing order |
| UseCase.MatchOrdersUseCase.BuildHeapBook | internal/usecase/match_orders.go:150-172 | as intended: a fresh book whose two sides are valid heaps of the listed orders |
| UseCase.MatchOrdersUseCase.Finish | internal/usecase/match_orders.go:150-198 | as written: the answer is the engine's result on the listed orders with the amounts they held; they then hold what the engine left them; only the open records may change amount |
| UseCase.MatchOrdersUseCase.FinishWithHeaps | internal/usecase/match_orders.go:150-198 | as intended: the engine starts from two valid heaps of the listed orders with the amounts they held; the answer is never "unresolved", "never returns" means a separated book, and the records then hold what the engine left them; only the open records may change amount |
| UseCase.MatchOrdersUseCase.Conclude | internal/usecase/match_orders.go:98-198 | `Finish` after ingestion: each ingested record in the book starts from the amount it was read with, each one outside it keeps that amount |
| UseCase.MatchOrdersUseCase.ConcludeWithHeaps | internal/usecase/match_orders.go:98-198 | the same for `FinishWithHeaps` |
| UseCase.MatchOrdersUseCase.IngestBoth | internal/usecase/match_orders.go:106-144 | the buy side, then the sell side; a side that ends the request (`SideStop`: no orders found with that type, or a storage panic) gives that error and keeps the inserts made before it |
| UseCase.MatchOrdersUseCase.Prepare | internal/usecase/match_orders.go:50-144 | each error before matching, including a storage panic, with the map as it stands then; otherwise the incoming record and both sides stored with the amounts read |
| UseCase.MatchOrdersUseCase.Execute | internal/usecase/match_orders.go:44-199 | as written: each early error, storage panics included, with its map; otherwise the map after all inserts, the engine's answer on the open orders starting from the incoming and rebuilt amounts, the amounts the engine leaves in the book's records, and the amounts read kept by ingested records outside it; only records open at the start or created by the call may change amount |
| UseCase.MatchOrdersUseCase.ExecuteWithHeaps | internal/usecase/match_orders.go:44-199 | as intended: the same early answers, then the engine on two valid heaps of the open orders, never "unresolved", with the same amounts afterwards as `Execute` |
| Scenarios.BidFullyMatchedBySingleAsk | internal/domain/order_book_test.go:25-53 | bid 1 of 50 at 100 against ask 2 of 50 at 90: `{1: [2]}`, both used up |
| Scenarios.BidFullyMatchedByMultipleAsks | internal/domain/order_book_test.go:55-91 | bid 1 of 100 at 100 against asks of 40 at 90 and 60 at 85: `{1: [3, 2]}`, cheaper ask first, all used up |
| Scenarios.BidPartiallyMatched | internal/domain/order_book_test.go:93-129 | bid 1 of 80 at 100 against asks of 50 at 90 and 40 at 100: `{1: [2, 3]}`; ask 3 keeps 10 but leaves the book |
| Scenarios.AskFullyMatchedBySingleBid | internal/domain/order_book_test.go:131-159 | a bid and an ask of 50 at the same price cross: `{1: [2]}` |
| Scenarios.AskFullyMatchedByMultipleBids | internal/domain/order_book_test.go:161-197 | bids of 60 and 40 at 100 against ask 3 of 100 at 90: `{1: [3]}`; bid 2 stays unmatched, since the ask leaves the book when bid 1 fills |
| Scenarios.BidNoMatchingAsk | internal/domain/order_book_test.go:199-217 | a bid and no asks: `ErrNoMatch` with nil maps |
| Scenarios.AskNoMatchingBid | internal/domain/order_book_test.go:219-237 | an ask and no bids: `ErrNoMatch` with nil maps |
| Scenarios.BidBelowAskNeverReturns | internal/domain/order_book.go:88-92 | a bid at 80 against an ask at 90: the bid is pushed back twice and `MatchOrders` never returns, whatever the fuel |
| Scenarios.RawFirstRound | internal/domain/order_book.go:81-122 | raw bids `[80, 100]` against an ask at 90: the first pass pops the bid at 80, is stuck, and leaves the bids `[100, 80, 80]` |
| Scenarios.RawSecondRun | internal/domain/order_book.go:81-122 | from there the next pass pops the bid at 100, fills it against the ask and the loop exits with `{2: [3]}` |
| Scenarios.RawBookMovesOn | internal/usecase/match_orders.go:159-161 | bids appended in the order 80, 100 against an ask at 90: the first stretch stalls on a book that is not separated; without fuel the answer is unresolved, with any fuel it is `{2: [3]}` |
| Scenarios.TwoAsksRun | internal/domain/order_book.go:81-123 | a bid larger than the first ask popped, and no larger than both asks together, takes both asks in the order popped and leaves the remainder on the second |

## Left out

- Book.OrderBook.MatchOrders: on a separated book the Go loop runs forever; the method instead returns `NeverReturns` there. `Matching.DivergingStaysStuck` proves that every later round would be stuck in the same way.
- Book.OrderBook.MatchOrders: after a stuck round that leaves a book that is not separated, which happens only on slices that are not heaps, the Go loop goes on for an unknown number of such rounds. The method follows at most `fuel` of them and then returns `Unresolved`, which the use case answers as `Undecided`. On two valid heaps this never happens (`Matching.ValidLoopDecided`).
- MatchAndAnswer, Finish, Execute: with raw slices, the answer can be `Undecided` when the fuel is too small, as `Book.OrderBook.MatchOrders` above.
- Book.OrderBook.MatchOrders: it is stated only for books where no record is on both sides. The use case's listing gives such books (`UseCase.SidesDisjoint`).
- Execute, ExecuteWithHeaps: do not state the starting amount of a listed record stored by an earlier request. It is still the amount that record held before, which `Finish` states as the amount held when matching starts.
- IngestSide, IngestBoth, Prepare, Execute, ExecuteWithHeaps: a panic inside the storage service (`make` with a negative capacity at `order_storage_service.go:52`, `MustFromBig` of a word of 2^256 or more at `:64`) ends the request with the answer `Failure(Panic)`, like the panic of the incoming order's `MustFromBig`, rather than a crashed process.
- Repository.OrderRepositoryInMemory.FindOrdersByTypeAndStatus: the repository file does not implement this method (only the interface at `order.go:37` declares it). It is modelled as the type filter with a status filter added.
- Gio.GioGetStorage.Handle: JSON marshalling of the request cannot fail and is not modelled. Unmarshalling of the answer is part of the transport's reply, as a body that is present or absent.
- Storage.ReadWord: `common.FromHex` (`order_storage_service.go:45`, which drops an optional `0x`, pads odd lengths and never fails) and `SetBytes` of the endpoint's response string are part of the read function, which returns the number read.
- The block hash arrives as a word: `common.HexToHash(metadata.BlockHash)` is not modelled.
- ABI decoding of the unpacked arguments is not modelled: an argument is a non-negative `*big.Int` or something else.
- Logging (`slog`, `log`, `infolog`) and its `json.Marshal` calls are not modelled. They only write to the log. The error branches they guard (`match_orders.go:179-182` and `190-193`, `order_storage_service.go:68-71` and `99-102`) cannot be taken for these values.
- Error branches of calls that never fail are not modelled: `CreateOrder` (`match_orders.go:98-100`, `121-123`, `141-143`), the repository queries (`153-158`, `164-169`) and `FindAllOrders` (`174-177`).
- `FindAllOrders` at `match_orders.go:174` runs before the raw pushes in the model, not after. It only reads, and its result is only logged.
- The mutex of the repository is not modelled. The core runs one request at a time.
- The HTTP exchange, Keccak-256 and the storage endpoint are function parameters, not reimplemented.
- `GioHandlerFactory.NewGioHandler` is not modelled: the handler is always the storage reader.
- `internal/infra/service/get_list_data_storage_at.go` is not part of this model.
- The rest of the repository is not part of this model: the HTTP and coprocessor handlers, configuration, contract bindings and the `Trade`-based test helpers.

## Findings

| source | as written | input that shows it | evidently intended | confidence | as-written member | corrected member |
|---|---|---|---|---|---|---|
| internal/usecase/match_orders.go:159-161, 170-172 | `orderBook.Bids.Push(bid)` and `orderBook.Asks.Push(ask)` call the slices' own `Push`, which only appends; the book's slices are then not heaps, although `MatchOrders` pops them with `heap.Pop` | two open bids listed in the order price 90, price 100: the raw slice `[90, 100]` is not a max-heap, and the first round takes the bid at 90 while the bid at 100 waits | `heap.Push(orderBook.Bids, bid)` and `heap.Push(orderBook.Asks, ask)`, so matching starts from two valid heaps and always takes the best bid and the best ask | high, not executed | UseCase.RawBidsPopFirstListed, UseCase.PushAll, UseCase.MatchOrdersUseCase.BuildBook, UseCase.MatchOrdersUseCase.Finish, UseCase.MatchOrdersUseCase.Execute | UseCase.HeapBidsPopBest, UseCase.HeapPushAll, UseCase.MatchOrdersUseCase.BuildHeapBook, UseCase.MatchOrdersUseCase.FinishWithHeaps, UseCase.MatchOrdersUseCase.ExecuteWithHeaps |
