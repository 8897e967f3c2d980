/**
 * `MatchOrdersUseCase` of `internal/usecase/match_orders.go`: one request of the hook
 * coprocessor. It checks the four unpacked arguments, stores the incoming order, reads
 * the hook's buy and sell arrays back from contract storage into the repository, fills
 * an order book with the open orders of each side and runs the matching engine.
 *
 * The repository is the in-memory one. The storage service is `Storage.FindOrdersBySlot`
 * over the use case's read function and hash. `metadata.BlockHash` arrives already
 * turned into a word, as `common.HexToHash` would give it.
 */
module UseCase {
  import opened Wrappers
  import opened Encoding
  import opened Domain
  import opened Heap
  import opened Matching
  import opened Book
  import opened Repository
  import opened Storage

  const BUY_ORDERS_STORAGE_SLOT: Word := 8
  const BUY_ORDERS_STATUS_STORAGE_SLOT: Word := 6
  const SELL_ORDERS_STORAGE_SLOT: Word := 9
  const SELL_ORDERS_STATUS_STORAGE_SLOT: Word := 7

  /** One unpacked ABI argument: a `*big.Int` (a decoded uint256, so never negative) or a value of another type. */
  datatype Arg = BigInt(value: nat) | NotBigInt

  /** The four numeric arguments: order index, price, quantity and side flag. */
  datatype Args = Args(index: nat, price: nat, quantity: nat, side: nat)

  /** What the request carries besides its arguments. */
  datatype Metadata = Metadata(MsgSender: Address, BlockHash: Word)

  /**
   * The answer of `Execute`: the trades, an error, no answer at all because the engine
   * never returns, or no answer yet when the model's fuel for the engine ran out.
   */
  datatype Response = Trades(buyToSell: map<string, seq<string>>) | Failure(error: Error) | Diverges | Undecided

  /** Lines 50-72: at least four arguments, the first four all `*big.Int`, checked in index order. */
  function ParseArgs(input: seq<Arg>): (r: Result<Args, Error>)
    ensures |input| < 4 ==> r == Err(TooFewArguments)
    ensures r.Ok? <==> |input| >= 4 && forall i :: 0 <= i < 4 ==> input[i].BigInt?
    ensures r.Ok? ==> r.value == Args(input[0].value, input[1].value, input[2].value, input[3].value)
    ensures |input| >= 4 && r.Err? ==>
      exists i :: 0 <= i < 4 && !input[i].BigInt? && r == Err(InvalidArgumentType(i))
        && forall j :: 0 <= j < i ==> input[j].BigInt?
  {
    if |input| < 4 then Err(TooFewArguments)
    else if !input[0].BigInt? then Err(InvalidArgumentType(0))
    else if !input[1].BigInt? then Err(InvalidArgumentType(1))
    else if !input[2].BigInt? then Err(InvalidArgumentType(2))
    else if !input[3].BigInt? then Err(InvalidArgumentType(3))
    else Ok(Args(input[0].value, input[1].value, input[2].value, input[3].value))
  }

  /** Lines 78-83: a side flag of 0 is a buy, any other value a sell. */
  function SideOf(flag: nat): OrderType {
    if flag == 0 then Buy else Sell
  }

  /**
   * Lines 50-96: the incoming order, or why there is none. Its id is the low 64 bits of
   * the index; price and quantity of 2^256 or more panic in `MustFromBig`.
   */
  function IncomingOrder(input: seq<Arg>, sender: Address): (r: Result<OrderData, Error>)
    ensures ParseArgs(input).Err? ==> r == Err(ParseArgs(input).error)
    ensures ParseArgs(input).Ok? ==>
      var a := ParseArgs(input).value;
      && (r.Ok? <==>
            && a.price < WORD_MODULUS && a.quantity < WORD_MODULUS
            && Uint64Of(a.index) != 0 && sender != ZERO_ADDRESS && a.price != 0 && a.quantity != 0)
      && (a.price >= WORD_MODULUS || a.quantity >= WORD_MODULUS ==> r == Err(Panic))
      && (r.Ok? ==>
            && r.value.id == Uint64Of(a.index) && r.value.hook == sender
            && r.value.sqrtPrice == a.price && r.value.amount == a.quantity && r.value.matchedAmount == 0
            && r.value.orderType == Some(SideOf(a.side)) && r.value.status == NotCancelledOrFulfilled)
  {
    match ParseArgs(input)
    case Err(e) => Err(e)
    case Ok(a) =>
      if a.price >= WORD_MODULUS || a.quantity >= WORD_MODULUS then Err(Panic)
      else
        var d := OrderData(Uint64Of(a.index), sender, a.price, a.quantity, 0, Some(SideOf(a.side)), NotCancelledOrFulfilled);
        if d.Validate().Some? then Err(d.Validate().value) else Ok(d)
  }

  /** An index below 2^64 is the id itself. */
  lemma IncomingId(input: seq<Arg>, sender: Address)
    requires IncomingOrder(input, sender).Ok? && ParseArgs(input).value.index < UINT64_MODULUS
    ensures IncomingOrder(input, sender).value.id == input[0].value
  {
  }

  // ---------------------------------------------------------------------------
  // Repository inserts
  // ---------------------------------------------------------------------------

  /** The map after `CreateOrder` of each of `orders` in turn. */
  function InsertAll(db: map<Uint64, Order>, orders: seq<Order>): (r: map<Uint64, Order>)
    ensures forall id :: id in r ==> r[id] in db.Values || r[id] in orders
    decreases |orders|
  {
    if |orders| == 0 then db
    else
      var last := orders[|orders| - 1];
      var r := InsertAll(db, orders[..|orders| - 1])[last.Id := last];
      assert forall id :: id in r && id != last.Id ==> r[id] in db.Values || r[id] in orders[..|orders| - 1];
      r
  }

  /** After the inserts every stored record was stored before or is one of `orders`. */
  lemma InsertAllValues(db: map<Uint64, Order>, orders: seq<Order>)
    ensures forall o :: o in InsertAll(db, orders).Values ==> o in db.Values || o in orders
  {
    var r := InsertAll(db, orders);
    forall o | o in r.Values
      ensures o in db.Values || o in orders
    {
      var id :| id in r && r[id] == o;
    }
  }

  /** Later inserts win: an id maps to the last order carrying it. */
  lemma {:induction false} InsertAllLast(db: map<Uint64, Order>, orders: seq<Order>, k: nat)
    requires k < |orders| && forall j :: k < j < |orders| ==> orders[j].Id != orders[k].Id
    ensures orders[k].Id in InsertAll(db, orders) && InsertAll(db, orders)[orders[k].Id] == orders[k]
    decreases |orders|
  {
    var n := |orders| - 1;
    if k < n {
      var init := orders[..n];
      assert init[k] == orders[k];
      forall j | k < j < n
        ensures init[j].Id != init[k].Id
      {
        assert init[j] == orders[j];
      }
      InsertAllLast(db, init, k);
      assert orders[n].Id != orders[k].Id;
    }
  }

  /** An id no order carries keeps what it had, and no such key appears. */
  lemma {:induction false} InsertAllUntouched(db: map<Uint64, Order>, orders: seq<Order>, id: Uint64)
    requires forall k :: 0 <= k < |orders| ==> orders[k].Id != id
    ensures id in InsertAll(db, orders) <==> id in db
    ensures id in db ==> InsertAll(db, orders)[id] == db[id]
    decreases |orders|
  {
    if |orders| > 0 {
      var n := |orders| - 1;
      var init := orders[..n];
      forall k | 0 <= k < n
        ensures init[k].Id != id
      {
        assert init[k] == orders[k];
      }
      InsertAllUntouched(db, init, id);
      assert orders[n].Id != id;
    }
  }

  /** Inserting keeps every record under its own id. */
  lemma {:induction false} InsertAllKeyed(db: map<Uint64, Order>, orders: seq<Order>)
    requires forall id :: id in db ==> db[id].Id == id
    ensures forall id :: id in InsertAll(db, orders) ==> InsertAll(db, orders)[id].Id == id
    decreases |orders|
  {
    if |orders| > 0 {
      InsertAllKeyed(db, orders[..|orders| - 1]);
    }
  }

  /**
   * Lines 98 and 119-124: the incoming order goes in first, so a reconstructed order with
   * the same id replaces it.
   */
  lemma ReconstructedOverwritesIncoming(db: map<Uint64, Order>, incoming: Order, orders: seq<Order>, k: nat)
    requires k < |orders| && orders[k].Id == incoming.Id && incoming !in orders
    ensures incoming.Id in InsertAll(db[incoming.Id := incoming], orders)
    ensures InsertAll(db[incoming.Id := incoming], orders)[incoming.Id] != incoming
  {
    var db1 := db[incoming.Id := incoming];
    var last :| k <= last < |orders| && orders[last].Id == incoming.Id
      && forall j :: last < j < |orders| ==> orders[j].Id != incoming.Id by {
      LastWithId(orders, incoming.Id, k);
    }
    InsertAllLast(db1, orders, last);
  }

  /** Some order at or after `k` carries `id` and none after it does. */
  lemma {:induction false} LastWithId(orders: seq<Order>, id: Uint64, k: nat)
    requires k < |orders| && orders[k].Id == id
    ensures exists last ::
      k <= last < |orders| && orders[last].Id == id && forall j :: last < j < |orders| ==> orders[j].Id != id
    decreases |orders| - k
  {
    if exists j :: k < j < |orders| && orders[j].Id == id {
      var j :| k < j < |orders| && orders[j].Id == id;
      LastWithId(orders, id, j);
    }
  }

  /** The fields no one changes after construction, as in `d`. */
  predicate Rebuilt(o: Order, d: OrderData) {
    o.Id == d.id && o.Hook == d.hook && o.SqrtPrice == d.sqrtPrice && o.MatchedAmount == d.matchedAmount && o.Status == d.status
  }

  /** Every field but the amount (which matching changes in place) as in `d`. */
  ghost predicate SameRecord(o: Order, d: OrderData)
    reads o`Type
  {
    Rebuilt(o, d) && o.Type == d.orderType
  }

  /** The reconstructed `orders` of one side: the rebuilt records with that side's type. */
  ghost predicate Ingested(orders: seq<Order>, datas: seq<OrderData>, side: OrderType)
    reads set k | 0 <= k < |orders| :: orders[k]`Type
  {
    |orders| == |datas| && forall k :: 0 <= k < |orders| ==> SameRecord(orders[k], datas[k].(orderType := Some(side)))
  }

  /**
   * One side as the use case left it after ingestion: nothing when the service failed,
   * otherwise the rebuilt records with that side's type and the amounts read.
   */
  ghost predicate SideRead(r: Result<seq<OrderData>, Error>, orders: seq<Order>, side: OrderType)
    reads set k | 0 <= k < |orders| :: orders[k]
  {
    && (r.Err? ==> orders == [])
    && (r.Ok? ==> Ingested(orders, r.value, side) && forall k :: 0 <= k < |orders| ==> orders[k].Amount == r.value[k].amount)
  }

  /** No record is both an open bid and an open ask: the two listings filter on different types. */
  lemma SidesDisjoint(bids: seq<Order>, asks: seq<Order>, db: map<Uint64, Order>)
    requires ListsSelected(bids, db, Buy, Some(NotCancelledOrFulfilled))
    requires ListsSelected(asks, db, Sell, Some(NotCancelledOrFulfilled))
    ensures Disjoint(bids, asks)
  {
    forall o | o in bids
      ensures o !in asks
    {
      var k :| 0 <= k < |bids| && bids[k] == o;
      assert o.Type == Some(Buy);
    }
  }

  /** What `Execute` answers for the engine's result (line 185 keeps the first map and the error). */
  function ResponseOf(m: MatchResult): (resp: Response)
    ensures resp.Diverges? <==> m.NeverReturns?
    ensures resp.Undecided? <==> m.Unresolved?
  {
    match m
    case NeverReturns => Diverges
    case Unresolved => Undecided
    case Returned(buyToSell, _, err) =>
      if err.Some? then Failure(err.value)
      else Trades(if buyToSell.Some? then buyToSell.value else map[])
  }

  /**
   * What matching the book `bids`, `asks` with the amounts `amt` came to: `resp` is the
   * engine's result, a diverging book when it never returns, and every record of the book
   * holds the amount the engine left it.
   */
  ghost predicate Answered(bids: seq<Order>, asks: seq<Order>, amt: map<Order, Word>, fuel: nat, resp: Response)
    reads (set o | o in bids + asks)`Amount
  {
    && Disjoint(bids, asks)
    && var l := MatchLoop(Start(bids, asks, amt), fuel);
      && resp == ResponseOf(ResultOf(l))
      && (resp.Diverges? ==> Diverging(l.e))
      && AllTracked((set o | o in bids + asks), l.e.amt)
  }

  /** On two valid heaps the engine's answer is decided whatever the fuel. */
  lemma ValidAnswerDecided(bids: seq<Order>, asks: seq<Order>, amt: map<Order, Word>, resp: Response)
    requires EngineValid(Start(bids, asks, amt)) && Answered(bids, asks, amt, 0, resp)
    ensures !resp.Undecided?
  {
    ValidLoopDecided(Start(bids, asks, amt), 0);
  }

  /** The open bids and asks as the two typed queries listed them from `db`. */
  datatype OpenOrders = OpenOrders(bids: seq<Order>, asks: seq<Order>, db: map<Uint64, Order>)

  ghost predicate Listed(l: OpenOrders)
    reads l.db.Values`Type
  {
    && ListsSelected(l.bids, l.db, Buy, Some(NotCancelledOrFulfilled))
    && ListsSelected(l.asks, l.db, Sell, Some(NotCancelledOrFulfilled))
  }

  /** The stored records both queries of lines 150-177 select: the open orders of either side. */
  ghost function OpenRecords(db: map<Uint64, Order>): set<Order>
    reads db.Values`Type
  {
    set o | o in db.Values && (Picks(o, Buy, Some(NotCancelledOrFulfilled)) || Picks(o, Sell, Some(NotCancelledOrFulfilled)))
  }

  /** The two listings hold exactly the open records of the map they were taken from. */
  lemma ListedOpen(l: OpenOrders)
    requires Listed(l)
    ensures (set o | o in l.bids + l.asks) == OpenRecords(l.db)
  {
    forall o | o in OpenRecords(l.db)
      ensures o in l.bids + l.asks
    {
      var id :| id in l.db && l.db[id] == o;
    }
  }

  /**
   * The book `bids`, `asks` as `heap.Push` builds it from the listing `l`: the same orders
   * on each side, and both sides valid heaps under the amounts `amt`.
   */
  ghost predicate HeapBook(l: OpenOrders, bids: seq<Order>, asks: seq<Order>, amt: map<Order, Word>)
  {
    && multiset(bids) == multiset(l.bids) && multiset(asks) == multiset(l.asks)
    && EngineValid(Start(bids, asks, amt))
  }

  /**
   * What ingestion stored: the incoming order `incoming`, read as `inc`, and the two sides
   * `buys`, `sells`, read back as `rb`, `rs`.
   */
  datatype Ingestion = Ingestion(inc: OrderData, incoming: Order,
                                 rb: Result<seq<OrderData>, Error>, buys: seq<Order>,
                                 rs: Result<seq<OrderData>, Error>, sells: seq<Order>)

  /** Each record of `g` holds the amount it was read with. */
  ghost predicate Read(g: Ingestion)
    reads {g.incoming} + (set o | o in g.buys + g.sells)
  {
    && SameRecord(g.incoming, g.inc) && g.incoming.Amount == g.inc.amount
    && SideRead(g.rb, g.buys, Buy) && SideRead(g.rs, g.sells, Sell)
  }

  /** Every field of the records of `g` but the amount as read; matching changes only amounts. */
  ghost predicate Typed(g: Ingestion)
    reads {g.incoming}`Type, (set o | o in g.buys + g.sells)`Type
  {
    && SameRecord(g.incoming, g.inc)
    && (g.rb.Ok? ==> Ingested(g.buys, g.rb.value, Buy))
    && (g.rs.Ok? ==> Ingested(g.sells, g.rs.value, Sell))
  }

  /**
   * The records of `g` after matching the book `book` from the amounts `amt`: one in the
   * book started from the amount it was read with; one outside the book still holds it.
   */
  ghost predicate Settled(g: Ingestion, book: seq<Order>, amt: map<Order, Word>)
    reads {g.incoming}`Amount, (set o | o in g.buys + g.sells)`Amount
  {
    && (g.incoming in book ==> Amt(amt, g.incoming) == g.inc.amount)
    && (g.incoming !in book ==> g.incoming.Amount == g.inc.amount)
    && (g.rb.Ok? ==> forall k :: 0 <= k < |g.buys| && k < |g.rb.value| ==>
          if g.buys[k] in book then Amt(amt, g.buys[k]) == g.rb.value[k].amount else g.buys[k].Amount == g.rb.value[k].amount)
    && (g.rs.Ok? ==> forall k :: 0 <= k < |g.sells| && k < |g.rs.value| ==>
          if g.sells[k] in book then Amt(amt, g.sells[k]) == g.rs.value[k].amount else g.sells[k].Amount == g.rs.value[k].amount)
  }

  /** A book matched from the amounts `amt` its records started with. */
  datatype Matched = Matched(book: seq<Order>, amt: map<Order, Word>)

  /**
   * Matching that starts the book from the amounts its records hold and leaves every
   * other order alone settles what ingestion read.
   */
  twostate lemma ReadSettled(g: Ingestion, new m: Matched)
    requires old(Read(g))
    requires forall o :: o in m.book && old(allocated(o)) ==> Amt(m.amt, o) == old(o.Amount)
    requires forall o: Order :: old(allocated(o)) && o !in m.book ==> o.Amount == old(o.Amount)
    requires forall o: Order :: old(allocated(o)) ==> o.Type == old(o.Type)
    ensures Typed(g) && Settled(g, m.book, m.amt)
  {
  }

  /** Both listings stay exact while no stored record changes its type. */
  twostate lemma ListedFrame(l: OpenOrders)
    requires old(Listed(l))
    requires forall o :: o in l.db.Values ==> o.Type == old(o.Type)
    ensures Listed(l)
  {
  }

  /**
   * Lines 185-188 with the engine's own result: when matching returns, the answer is
   * `ErrNoMatch` exactly when no ask was matched, and otherwise the engine's non-empty
   * `buyToSell` map; no other error.
   */
  lemma ResponseMeaning(bids: seq<Order>, asks: seq<Order>, amt: map<Order, Word>, fuel: nat)
    requires Disjoint(bids, asks)
    ensures var o := MatchLoop(Start(bids, asks, amt), fuel);
      var resp := ResponseOf(ResultOf(o));
      && (resp.Failure? ==> resp.error == NoMatch && o.e.buyToSell == map[])
      && (resp.Trades? ==> resp.buyToSell == o.e.buyToSell && resp.buyToSell != map[])
      && (o.Exited? ==> (resp.Failure? <==> o.e.buyToSell == map[]))
  {
    ResultMeaning(bids, asks, amt, fuel);
  }

  /** Lines 159-161 as written: the slice's own `Push` appends, so the first listed bid is popped first. */
  lemma RawBidsPopFirstListed(b90: Order, b100: Order, amt: map<Order, Word>)
    requires b90.SqrtPrice == 90 && b100.SqrtPrice == 100
    ensures Precedes(BidPriority(amt), b100, b90)
    ensures !IsHeap(BidPriority(amt), [b90, b100])
    ensures PopSeq(BidPriority(amt), [b90, b100]).top == b90
  {
    assert !ParentOk(BidPriority(amt), [b90, b100], 1);
  }

  /** With `heap.Push`, the first bid popped is one no listed bid beats. */
  lemma HeapBidsPopBest(bids: seq<Order>, amt: map<Order, Word>, o: Order)
    requires IsHeap(BidPriority(amt), bids) && o in bids
    ensures !Precedes(BidPriority(amt), o, PopSeq(BidPriority(amt), bids).top)
  {
    RootBeatsMember(BidPriority(amt), bids, o);
  }

  /** A listing holds records the map stores, each once. */
  lemma ListedStored(orders: seq<Order>, db: map<Uint64, Order>, orderType: OrderType, status: Option<OrderStatus>)
    requires ListsSelected(orders, db, orderType, status)
    ensures forall o :: o in orders ==> o in db.Values
    ensures Distinct(orders)
  {
    forall o | o in orders
      ensures o in db.Values
    {
      var k :| 0 <= k < |orders| && orders[k] == o;
      assert db[o.Id] == o;
    }
    DistinctById(orders);
  }

  /**
   * Two heaps holding the listed records, ordered under the amounts the records hold, make
   * a book the engine can run on.
   */
  lemma BookIsValid(book: OrderBook, bids: seq<Order>, asks: seq<Order>, amt: map<Order, Word>)
    requires book.Valid()
    requires multiset(book.Bids.items) == multiset(bids) && multiset(book.Asks.items) == multiset(asks)
    requires Distinct(bids) && Distinct(asks) && Disjoint(bids, asks)
    requires amt == AmountsOf(set o | o in bids + asks)
    requires IsHeap(BidPriority(amt), book.Bids.items) && IsHeap(AskPriority(amt), book.Asks.items)
    ensures EngineValid(book.Snapshot()) && book.Records() == set o | o in bids + asks
  {
    var objs := set o | o in bids + asks;
    forall o
      ensures o in book.Records() <==> o in objs
    {
      assert o in book.Bids.items <==> o in multiset(bids);
      assert o in book.Asks.items <==> o in multiset(asks);
    }
    assert book.Records() == objs;
    forall o | o in book.Bids.items
      ensures o !in book.Asks.items
    {
      assert o in multiset(bids);
      assert o in bids;
      assert o !in multiset(asks);
    }
    forall o | o in book.Bids.items
      ensures multiset(book.Bids.items)[o] == 1
    {
      assert o in multiset(bids);
    }
    forall o | o in book.Asks.items
      ensures multiset(book.Asks.items)[o] == 1
    {
      assert o in multiset(asks);
    }
  }

  /** Records with pairwise different ids are pairwise different records. */
  lemma {:induction false} DistinctById(orders: seq<Order>)
    requires forall i, j :: 0 <= i < j < |orders| ==> orders[i].Id != orders[j].Id
    ensures Distinct(orders)
    decreases |orders|
  {
    if |orders| > 0 {
      var n := |orders| - 1;
      var init := orders[..n];
      DistinctById(init);
      assert orders == init + [orders[n]];
      assert orders[n] !in init by {
        forall k | 0 <= k < n
          ensures init[k] != orders[n]
        {
          assert orders[k].Id != orders[n].Id;
        }
      }
      forall o | o in orders
        ensures multiset(orders)[o] == 1
      {
        assert multiset(orders)[o] == multiset(init)[o] + multiset{orders[n]}[o];
        if o != orders[n] {
          assert o in init;
        }
      }
    }
  }

  /** Lines 159-161 and 170-172 as written: each record appended with the slice's own `Push`, in listing order. */
  method PushAll(h: OrderHeap, xs: seq<Order>)
    modifies h`items
    ensures h.items == old(h.items) + xs
  {
    var i := 0;
    while i < |xs|
      invariant 0 <= i <= |xs| && h.items == old(h.items) + xs[..i]
    {
      h.Push(xs[i]);
      assert xs[..i + 1] == xs[..i] + [xs[i]];
      i := i + 1;
    }
    assert xs[..i] == xs;
  }

  /** The same loop with `heap.Push`: the slice stays a heap under the amounts the records hold. */
  method HeapPushAll(h: OrderHeap, xs: seq<Order>, ghost amt: map<Order, Word>)
    requires h.Tracks(amt) && IsHeap(Priority(h.IsMax, amt), h.items)
    requires forall o :: o in xs ==> o.Amount == Amt(amt, o)
    modifies h`items
    ensures multiset(h.items) == multiset(old(h.items)) + multiset(xs)
    ensures h.Tracks(amt) && IsHeap(Priority(h.IsMax, amt), h.items)
  {
    var i := 0;
    while i < |xs|
      invariant 0 <= i <= |xs| && multiset(h.items) == multiset(old(h.items)) + multiset(xs[..i])
      invariant h.Tracks(amt) && IsHeap(Priority(h.IsMax, amt), h.items)
    {
      PushKeepsHeap(Priority(h.IsMax, amt), h.items, xs[i]);
      h.HeapPush(xs[i], amt);
      assert xs[..i + 1] == xs[..i] + [xs[i]];
      i := i + 1;
    }
    assert xs[..i] == xs;
  }

  /** Both loops of lines 159-161 and 170-172 with `heap.Push`, on an empty book. */
  method HeapFill(book: OrderBook, bids: seq<Order>, asks: seq<Order>)
    requires book.Valid() && book.Bids.items == [] && book.Asks.items == []
    requires Distinct(bids) && Distinct(asks) && Disjoint(bids, asks)
    modifies book.Bids`items, book.Asks`items
    ensures multiset(book.Bids.items) == multiset(bids) && multiset(book.Asks.items) == multiset(asks)
    ensures EngineValid(book.Snapshot())
    ensures book.Records() == set o | o in bids + asks
  {
    ghost var amt := AmountsOf(set o | o in bids + asks);
    HeapPushAll(book.Bids, bids, amt);
    HeapPushAll(book.Asks, asks, amt);
    BookIsValid(book, bids, asks, amt);
  }

  /**
   * Lines 185-188: match the book and answer with the engine's first map or its error.
   * `amt` is the amounts the records hold when matching starts; afterwards each record
   * of the book holds the amount the engine left it.
   */
  method MatchAndAnswer(book: OrderBook, ghost open: OpenOrders, fuel: nat)
    returns (resp: Response, ghost bids: seq<Order>, ghost asks: seq<Order>, ghost amt: map<Order, Word>)
    requires book.Valid() && Disjoint(book.Bids.items, book.Asks.items) && Listed(open)
    modifies book.Bids`items, book.Asks`items, book.Records()`Amount
    ensures bids == old(book.Bids.items) && asks == old(book.Asks.items) && Listed(open)
    ensures forall o :: o in bids + asks ==> Amt(amt, o) == old(o.Amount)
    ensures Answered(bids, asks, amt, fuel, resp)
    ensures EngineValid(old(book.Snapshot())) ==> EngineValid(Start(bids, asks, amt)) && !resp.Undecided?
  {
    bids, asks, amt := book.Bids.items, book.Asks.items, book.Snapshot().amt;
    if EngineValid(book.Snapshot()) {
      ValidLoopDecided(book.Snapshot(), fuel);
    }
    var m := book.MatchOrders(fuel);
    resp := ResponseOf(m);
    ListedFrame(open);
  }

  /**
   * Lines 113-118 and 133-138: how one side's read ends the request. The domain's
   * `ErrNoOrdersFound` is returned with the side's type; a panic inside the storage
   * service (`make` with a negative capacity, `MustFromBig` of a word too wide) ends the
   * request too. Any other error leaves the side empty and the request goes on.
   */
  function SideStop(r: Result<seq<OrderData>, Error>, side: OrderType): (stop: Option<Error>)
    ensures stop.Some? <==> r == Err(NoOrdersFound) || r == Err(Panic)
    ensures stop.Some? ==> stop.value == if r == Err(Panic) then Panic else NoOrdersWithType(side)
  {
    if r == Err(NoOrdersFound) then Some(NoOrdersWithType(side))
    else if r == Err(Panic) then Some(Panic)
    else None
  }

  class MatchOrdersUseCase {
    const OrderRepository: OrderRepositoryInMemory
    /** The storage read behind `HookContractService` (the gio handler and the hex decoding of its answer). */
    const ReadStorage: Reader
    const Keccak: Hasher

    /** `NewMatchOrdersUseCase`. */
    constructor (orderRepository: OrderRepositoryInMemory, readStorage: Reader, keccak: Hasher)
      ensures OrderRepository == orderRepository && ReadStorage == readStorage && Keccak == keccak
    {
      OrderRepository, ReadStorage, Keccak := orderRepository, readStorage, keccak;
    }

    /** What the storage service gives for one side of the hook at `metadata`. */
    function Stored(metadata: Metadata, ordersSlot: Word, statusSlot: Word): Result<seq<OrderData>, Error> {
      Reconstruct(ReadStorage, Keccak, metadata.MsgSender, metadata.BlockHash, ordersSlot, statusSlot)
    }

    /**
     * Lines 50-100: check the arguments, build the incoming order and store it. Nothing is
     * written unless the order validates.
     */
    method CreateIncoming(input: seq<Arg>, metadata: Metadata) returns (err: Option<Error>, incoming: Order?)
      requires OrderRepository.Valid()
      modifies OrderRepository
      ensures OrderRepository.Valid()
      ensures forall o :: o in OrderRepository.db.Values ==> o in old(OrderRepository.db.Values) || fresh(o)
      ensures var r := IncomingOrder(input, metadata.MsgSender);
        && (r.Err? ==> err == Some(r.error) && incoming == null && OrderRepository.db == old(OrderRepository.db))
        && (r.Ok? ==>
              && err == None && incoming != null && fresh(incoming) && incoming.Data() == r.value
              && OrderRepository.db == old(OrderRepository.db)[incoming.Id := incoming])
    {
      var args := ParseArgs(input);
      if args.Err? {
        return Some(args.error), null;
      }
      var a := args.value;
      var orderType := Sell;
      if a.side == 0 {
        orderType := Buy;
      }
      if a.price >= WORD_MODULUS || a.quantity >= WORD_MODULUS {
        // `uint256.MustFromBig` panics
        return Some(Panic), null;
      }
      var order, e := NewOrder(Uint64Of(a.index), metadata.MsgSender, a.price, a.quantity, 0, Some(orderType), NotCancelledOrFulfilled);
      if e.Some? {
        return e, null;
      }
      var _, _ := OrderRepository.CreateOrder(order);
      return None, order;
    }

    /** The loops of lines 119-124 and 139-144: give each order the side's type, then store it. */
    method StoreAll(orders: seq<Order>, side: OrderType)
      requires OrderRepository.Valid()
      modifies OrderRepository, set k | 0 <= k < |orders| :: orders[k]`Type
      ensures OrderRepository.Valid()
      ensures OrderRepository.db == InsertAll(old(OrderRepository.db), orders)
      ensures forall k :: 0 <= k < |orders| ==> orders[k].Type == Some(side)
    {
      var i := 0;
      while i < |orders|
        invariant 0 <= i <= |orders| && OrderRepository.Valid()
        invariant OrderRepository.db == InsertAll(old(OrderRepository.db), orders[..i])
        invariant forall k :: 0 <= k < i ==> orders[k].Type == Some(side)
      {
        orders[i].Type := Some(side);
        var _, _ := OrderRepository.CreateOrder(orders[i]);
        assert orders[..i + 1][..i] == orders[..i];
        i := i + 1;
      }
      assert orders[..i] == orders;
    }

    /**
     * Lines 106-124 (buy) and 126-144 (sell): read one side from storage, give every order
     * that side's type and store it. `stop` is what ends the request (`SideStop`); any
     * other error leaves the side empty.
     */
    method IngestSide(side: OrderType, ordersSlot: Word, statusSlot: Word, metadata: Metadata)
      returns (stop: Option<Error>, orders: seq<Order>)
      requires OrderRepository.Valid()
      modifies OrderRepository
      ensures OrderRepository.Valid()
      ensures var r := Stored(metadata, ordersSlot, statusSlot);
        && stop == SideStop(r, side)
        && SideRead(r, orders, side)
      ensures forall k :: 0 <= k < |orders| ==> fresh(orders[k])
      ensures OrderRepository.db == InsertAll(old(OrderRepository.db), orders)
      ensures forall o :: o in OrderRepository.db.Values ==> o in old(OrderRepository.db.Values) || fresh(o)
    {
      ghost var r := Stored(metadata, ordersSlot, statusSlot);
      var found, err := FindOrdersBySlot(ReadStorage, Keccak, metadata.MsgSender, metadata.BlockHash, ordersSlot, statusSlot);
      if err.Some? {
        if err.value == NoOrdersFound {
          return Some(NoOrdersWithType(side)), [];
        }
        if err.value == Panic {
          return Some(Panic), [];
        }
        found := [];
      }
      assert r.Ok? ==> forall k :: 0 <= k < |found| ==> Rebuilt(found[k], r.value[k]) && found[k].Amount == r.value[k].amount;
      StoreAll(found, side);
      InsertAllValues(old(OrderRepository.db), found);
      return None, found;
    }

    /**
     * The three queries of lines 150-177: the open bids, the open asks, and the listing of all
     * orders, which is only logged.
     */
    method ListOpen() returns (open: OpenOrders)
      requires OrderRepository.Valid()
      ensures open.db == OrderRepository.db && Listed(open)
      ensures Distinct(open.bids) && Distinct(open.asks) && Disjoint(open.bids, open.asks)
      ensures (set o | o in open.bids + open.asks) == OpenRecords(OrderRepository.db)
    {
      var bids, _ := OrderRepository.FindOrdersByTypeAndStatus(Buy, NotCancelledOrFulfilled);
      var asks, _ := OrderRepository.FindOrdersByTypeAndStatus(Sell, NotCancelledOrFulfilled);
      var _, _ := OrderRepository.FindAllOrders();
      open := OpenOrders(bids, asks, OrderRepository.db);
      SidesDisjoint(bids, asks, OrderRepository.db);
      ListedStored(bids, OrderRepository.db, Buy, Some(NotCancelledOrFulfilled));
      ListedStored(asks, OrderRepository.db, Sell, Some(NotCancelledOrFulfilled));
      ListedOpen(open);
    }

    /**
     * Lines 150-177 as written: a new book, then the open orders of each side appended with
     * the slices' own `Push`, in the order the repository lists them.
     */
    method BuildBook() returns (book: OrderBook, open: OpenOrders)
      requires OrderRepository.Valid()
      ensures fresh(book) && fresh(book.Bids) && fresh(book.Asks) && book.Valid()
      ensures open.db == OrderRepository.db && Listed(open)
      ensures book.Bids.items == open.bids && book.Asks.items == open.asks
      ensures Disjoint(open.bids, open.asks) && book.Records() == OpenRecords(OrderRepository.db)
    {
      book := new OrderBook();
      open := ListOpen();
      label Listed:
      PushAll(book.Bids, open.bids);
      PushAll(book.Asks, open.asks);
      ListedFrame@Listed(open);
    }

    /**
     * Lines 150-177 as intended: the same orders pushed with `heap.Push`, so both slices are
     * heaps under the amounts the records hold.
     */
    method BuildHeapBook() returns (book: OrderBook, open: OpenOrders)
      requires OrderRepository.Valid()
      ensures fresh(book) && fresh(book.Bids) && fresh(book.Asks) && book.Valid()
      ensures open.db == OrderRepository.db && Listed(open)
      ensures multiset(book.Bids.items) == multiset(open.bids) && multiset(book.Asks.items) == multiset(open.asks)
      ensures Disjoint(book.Bids.items, book.Asks.items)
      ensures EngineValid(book.Snapshot()) && book.Records() == OpenRecords(OrderRepository.db)
    {
      book := new OrderBook();
      open := ListOpen();
      label Listed:
      HeapFill(book, open.bids, open.asks);
      ListedFrame@Listed(open);
    }

    /**
     * Lines 150-188 as written, on the repository as ingestion left it: build the book,
     * match, and answer with the engine's result.
     */
    method Finish(fuel: nat) returns (resp: Response, ghost open: OpenOrders, ghost amt: map<Order, Word>)
      requires OrderRepository.Valid()
      modifies OpenRecords(OrderRepository.db)`Amount
      ensures open.db == old(OrderRepository.db) && Listed(open) && Disjoint(open.bids, open.asks)
      ensures forall o :: o in open.bids + open.asks ==> Amt(amt, o) == old(o.Amount)
      ensures Answered(open.bids, open.asks, amt, fuel, resp)
      ensures (set o | o in open.bids + open.asks) == old(OpenRecords(OrderRepository.db))
    {
      var book, listed := BuildBook();
      open := listed;
      ghost var bids, asks;
      resp, bids, asks, amt := MatchAndAnswer(book, open, fuel);
    }

    /**
     * `Finish` with the book built by `heap.Push`: the engine then starts from two valid
     * heaps, so no fuel is needed and the answer is always decided (`ValidLoopDecided`).
     */
    method FinishWithHeaps() returns (resp: Response, ghost open: OpenOrders, ghost bids: seq<Order>, ghost asks: seq<Order>, ghost amt: map<Order, Word>)
      requires OrderRepository.Valid()
      modifies OpenRecords(OrderRepository.db)`Amount
      ensures open.db == old(OrderRepository.db) && Listed(open)
      ensures HeapBook(open, bids, asks, amt)
      ensures forall o :: o in bids + asks ==> Amt(amt, o) == old(o.Amount)
      ensures Answered(bids, asks, amt, 0, resp) && !resp.Undecided?
      ensures (set o | o in bids + asks) == old(OpenRecords(OrderRepository.db))
    {
      var book, listed := BuildHeapBook();
      open := listed;
      label Built:
      resp, bids, asks, amt := MatchAndAnswer(book, open, 0);
      forall o | o in bids + asks
        ensures Amt(amt, o) == old(o.Amount)
      {
        assert Amt(amt, o) == old@Built(o.Amount);
      }
    }

    /**
     * `Finish` on what ingestion stored (`g`): the records matched start from the amounts
     * they were read with; the others keep theirs.
     */
    method Conclude(ghost g: Ingestion, fuel: nat) returns (resp: Response, ghost open: OpenOrders, ghost amt: map<Order, Word>)
      requires OrderRepository.Valid() && Read(g)
      modifies OpenRecords(OrderRepository.db)`Amount
      ensures OrderRepository.db == old(OrderRepository.db) && Typed(g)
      ensures open.db == OrderRepository.db && Listed(open) && Disjoint(open.bids, open.asks)
      ensures Answered(open.bids, open.asks, amt, fuel, resp)
      ensures Settled(g, open.bids + open.asks, amt)
      ensures (set o | o in open.bids + open.asks) == old(OpenRecords(OrderRepository.db))
    {
      resp, open, amt := Finish(fuel);
      ReadSettled(g, Matched(open.bids + open.asks, amt));
    }

    /**
     * `FinishWithHeaps` on what ingestion stored (`g`): the records matched start from the
     * amounts they were read with; the others keep theirs.
     */
    method ConcludeWithHeaps(ghost g: Ingestion)
      returns (resp: Response, ghost open: OpenOrders, ghost bids: seq<Order>, ghost asks: seq<Order>, ghost amt: map<Order, Word>)
      requires OrderRepository.Valid() && Read(g)
      modifies OpenRecords(OrderRepository.db)`Amount
      ensures OrderRepository.db == old(OrderRepository.db) && Typed(g)
      ensures open.db == OrderRepository.db && Listed(open) && HeapBook(open, bids, asks, amt)
      ensures Answered(bids, asks, amt, 0, resp) && !resp.Undecided?
      ensures Settled(g, bids + asks, amt)
      ensures (set o | o in bids + asks) == old(OpenRecords(OrderRepository.db))
    {
      resp, open, bids, asks, amt := FinishWithHeaps();
      forall o: Order | old(allocated(o)) && o !in bids + asks
        ensures o.Amount == old(o.Amount)
      {
        assert o !in old(OpenRecords(OrderRepository.db));
      }
      ReadSettled(g, Matched(bids + asks, amt));
    }

    /**
     * Lines 106-144: the buy side, then the sell side, read back and stored. `stop` is the
     * error that ends the request, if any; the map keeps every insert made before it.
     */
    method IngestBoth(metadata: Metadata) returns (stop: Option<Error>, ghost buys: seq<Order>, ghost sells: seq<Order>)
      requires OrderRepository.Valid()
      modifies OrderRepository
      ensures OrderRepository.Valid()
      ensures forall o :: o in OrderRepository.db.Values ==> o in old(OrderRepository.db.Values) || fresh(o)
      ensures var rb := Stored(metadata, BUY_ORDERS_STORAGE_SLOT, BUY_ORDERS_STATUS_STORAGE_SLOT);
        var rs := Stored(metadata, SELL_ORDERS_STORAGE_SLOT, SELL_ORDERS_STATUS_STORAGE_SLOT);
        && (SideStop(rb, Buy).Some? ==> stop == SideStop(rb, Buy) && OrderRepository.db == old(OrderRepository.db))
        && (SideStop(rb, Buy).None? ==>
              && SideRead(rb, buys, Buy) && (forall k :: 0 <= k < |buys| ==> fresh(buys[k]))
              && (SideStop(rs, Sell).Some? ==>
                    stop == SideStop(rs, Sell) && OrderRepository.db == InsertAll(old(OrderRepository.db), buys))
              && (SideStop(rs, Sell).None? ==>
                    && stop == None && SideRead(rs, sells, Sell) && (forall k :: 0 <= k < |sells| ==> fresh(sells[k]))
                    && OrderRepository.db == InsertAll(InsertAll(old(OrderRepository.db), buys), sells)))
    {
      sells := [];
      stop, buys := IngestSide(Buy, BUY_ORDERS_STORAGE_SLOT, BUY_ORDERS_STATUS_STORAGE_SLOT, metadata);
      if stop.Some? {
        return;
      }
      stop, sells := IngestSide(Sell, SELL_ORDERS_STORAGE_SLOT, SELL_ORDERS_STATUS_STORAGE_SLOT, metadata);
    }

    /**
     * Lines 50-144: the incoming order, then both sides read back and stored. `stop` is the
     * error `Execute` returns before matching, if any.
     */
    method Prepare(input: seq<Arg>, metadata: Metadata)
      returns (stop: Option<Error>, ghost incoming: Order?, ghost buys: seq<Order>, ghost sells: seq<Order>)
      requires OrderRepository.Valid()
      modifies OrderRepository
      ensures OrderRepository.Valid()
      ensures forall o :: o in OrderRepository.db.Values ==> o in old(OrderRepository.db.Values) || fresh(o)
      ensures var inc := IncomingOrder(input, metadata.MsgSender);
        var rb := Stored(metadata, BUY_ORDERS_STORAGE_SLOT, BUY_ORDERS_STATUS_STORAGE_SLOT);
        var rs := Stored(metadata, SELL_ORDERS_STORAGE_SLOT, SELL_ORDERS_STATUS_STORAGE_SLOT);
        var db1 := if incoming != null then old(OrderRepository.db)[incoming.Id := incoming] else old(OrderRepository.db);
        && (inc.Err? ==> stop == Some(inc.error) && OrderRepository.db == old(OrderRepository.db))
        && (inc.Ok? ==> incoming != null && fresh(incoming) && incoming.Data() == inc.value)
        && (inc.Ok? && SideStop(rb, Buy).Some? ==> stop == SideStop(rb, Buy) && OrderRepository.db == db1)
        && (inc.Ok? && SideStop(rb, Buy).None? ==>
              && SideRead(rb, buys, Buy) && (forall k :: 0 <= k < |buys| ==> fresh(buys[k]))
              && (SideStop(rs, Sell).Some? ==>
                    stop == SideStop(rs, Sell) && OrderRepository.db == InsertAll(db1, buys))
              && (SideStop(rs, Sell).None? ==>
                    && stop == None && SideRead(rs, sells, Sell) && (forall k :: 0 <= k < |sells| ==> fresh(sells[k]))
                    && OrderRepository.db == InsertAll(InsertAll(db1, buys), sells)))
    {
      buys, sells := [], [];
      stop, incoming := CreateIncoming(input, metadata);
      if stop.None? {
        stop, buys, sells := IngestBoth(metadata);
      }
    }

    /**
     * `Execute`, lines 44-198: prepare, then build the book with the slices' own `Push`,
     * match and answer. An error before matching is the answer and the inserts made
     * before it stay. Otherwise the engine runs on the open orders as listed; the incoming
     * order, when listed, starts from its quantity. Afterwards the records of the book
     * hold what the engine left them; an ingested record outside the book keeps the
     * amount it was read with, and only records open at the start or created by the
     * call may change amount at all. `fuel` bounds the rounds without progress the
     * engine follows (`MatchLoop`).
     */
    method Execute(input: seq<Arg>, metadata: Metadata, fuel: nat)
      returns (resp: Response, ghost incoming: Order?, ghost buys: seq<Order>, ghost sells: seq<Order>,
               ghost open: OpenOrders, ghost amt: map<Order, Word>)
      requires OrderRepository.Valid()
      modifies OrderRepository, OpenRecords(OrderRepository.db)`Amount
      ensures OrderRepository.Valid()
      ensures var inc := IncomingOrder(input, metadata.MsgSender);
        var rb := Stored(metadata, BUY_ORDERS_STORAGE_SLOT, BUY_ORDERS_STATUS_STORAGE_SLOT);
        var rs := Stored(metadata, SELL_ORDERS_STORAGE_SLOT, SELL_ORDERS_STATUS_STORAGE_SLOT);
        var db1 := if incoming != null then old(OrderRepository.db)[incoming.Id := incoming] else old(OrderRepository.db);
        && (inc.Err? ==> resp == Failure(inc.error) && OrderRepository.db == old(OrderRepository.db))
        && (inc.Ok? ==> incoming != null && fresh(incoming) && SameRecord(incoming, inc.value))
        && (inc.Ok? && SideStop(rb, Buy).Some? ==> resp == Failure(SideStop(rb, Buy).value) && OrderRepository.db == db1)
        && (inc.Ok? && SideStop(rb, Buy).None? && SideStop(rs, Sell).Some? ==>
              resp == Failure(SideStop(rs, Sell).value) && OrderRepository.db == InsertAll(db1, buys))
        && (inc.Ok? && SideStop(rb, Buy).None? && SideStop(rs, Sell).None? ==>
              && (rb.Err? ==> buys == []) && (rb.Ok? ==> Ingested(buys, rb.value, Buy))
              && (rs.Err? ==> sells == []) && (rs.Ok? ==> Ingested(sells, rs.value, Sell))
              && OrderRepository.db == InsertAll(InsertAll(db1, buys), sells)
              && open.db == OrderRepository.db && Listed(open) && Disjoint(open.bids, open.asks)
              && Answered(open.bids, open.asks, amt, fuel, resp)
              && Settled(Ingestion(inc.value, incoming, rb, buys, rs, sells), open.bids + open.asks, amt))
    {
      var stop;
      stop, incoming, buys, sells := Prepare(input, metadata);
      if stop.Some? {
        resp, open, amt := Failure(stop.value), OpenOrders([], [], OrderRepository.db), map[];
      } else {
        ghost var g := Ingestion(IncomingOrder(input, metadata.MsgSender).value, incoming,
          Stored(metadata, BUY_ORDERS_STORAGE_SLOT, BUY_ORDERS_STATUS_STORAGE_SLOT), buys,
          Stored(metadata, SELL_ORDERS_STORAGE_SLOT, SELL_ORDERS_STATUS_STORAGE_SLOT), sells);
        resp, open, amt := Conclude(g, fuel);
      }
    }

    /**
     * `Execute` with both sides pushed by `heap.Push`: the same answers before matching,
     * and the engine then starts from two valid heaps holding the open orders as listed,
     * so it needs no fuel and its answer is always decided. The amounts afterwards are
     * as in `Execute`.
     */
    method ExecuteWithHeaps(input: seq<Arg>, metadata: Metadata)
      returns (resp: Response, ghost incoming: Order?, ghost buys: seq<Order>, ghost sells: seq<Order>,
               ghost open: OpenOrders, ghost bids: seq<Order>, ghost asks: seq<Order>, ghost amt: map<Order, Word>)
      requires OrderRepository.Valid()
      modifies OrderRepository, OpenRecords(OrderRepository.db)`Amount
      ensures OrderRepository.Valid()
      ensures var inc := IncomingOrder(input, metadata.MsgSender);
        var rb := Stored(metadata, BUY_ORDERS_STORAGE_SLOT, BUY_ORDERS_STATUS_STORAGE_SLOT);
        var rs := Stored(metadata, SELL_ORDERS_STORAGE_SLOT, SELL_ORDERS_STATUS_STORAGE_SLOT);
        var db1 := if incoming != null then old(OrderRepository.db)[incoming.Id := incoming] else old(OrderRepository.db);
        && (inc.Err? ==> resp == Failure(inc.error) && OrderRepository.db == old(OrderRepository.db))
        && (inc.Ok? ==> incoming != null && fresh(incoming) && SameRecord(incoming, inc.value))
        && (inc.Ok? && SideStop(rb, Buy).Some? ==> resp == Failure(SideStop(rb, Buy).value) && OrderRepository.db == db1)
        && (inc.Ok? && SideStop(rb, Buy).None? && SideStop(rs, Sell).Some? ==>
              resp == Failure(SideStop(rs, Sell).value) && OrderRepository.db == InsertAll(db1, buys))
        && (inc.Ok? && SideStop(rb, Buy).None? && SideStop(rs, Sell).None? ==>
              && (rb.Err? ==> buys == []) && (rb.Ok? ==> Ingested(buys, rb.value, Buy))
              && (rs.Err? ==> sells == []) && (rs.Ok? ==> Ingested(sells, rs.value, Sell))
              && OrderRepository.db == InsertAll(InsertAll(db1, buys), sells)
              && open.db == OrderRepository.db && Listed(open)
              && HeapBook(open, bids, asks, amt)
              && Answered(bids, asks, amt, 0, resp) && !resp.Undecided?
              && Settled(Ingestion(inc.value, incoming, rb, buys, rs, sells), bids + asks, amt))
    {
      var stop;
      stop, incoming, buys, sells := Prepare(input, metadata);
      if stop.Some? {
        resp, open, bids, asks, amt := Failure(stop.value), OpenOrders([], [], OrderRepository.db), [], [], map[];
      } else {
        ghost var g := Ingestion(IncomingOrder(input, metadata.MsgSender).value, incoming,
          Stored(metadata, BUY_ORDERS_STORAGE_SLOT, BUY_ORDERS_STATUS_STORAGE_SLOT), buys,
          Stored(metadata, SELL_ORDERS_STORAGE_SLOT, SELL_ORDERS_STATUS_STORAGE_SLOT), sells);
        resp, open, bids, asks, amt := ConcludeWithHeaps(g);
      }
    }
  }
}
