/**
 * `OrderBook` of `internal/domain/order_book.go`: two heap objects and the matching
 * loop that pops, pushes and subtracts amounts in place on the shared order records.
 * `MatchOrders` is proved to compute what the functional engine `Matching.MatchLoop`
 * describes, so everything proved about `MatchLoop` holds of it.
 */
module Book {
  import opened Wrappers
  import opened Encoding
  import opened Domain
  import opened Heap
  import opened Matching

  /** The records of `objs` hold the amounts `amt` lists. */
  ghost predicate AllTracked(objs: set<Order>, amt: map<Order, Word>)
    reads objs`Amount
  {
    forall o :: o in objs ==> o.Amount == Amt(amt, o)
  }

  predicate Within(xs: seq<Order>, objs: set<Order>) {
    forall o :: o in xs ==> o in objs
  }

  /** The current amounts of a set of records, as a map. */
  ghost function AmountsOf(objs: set<Order>): (amt: map<Order, Word>)
    reads objs`Amount
    ensures AllTracked(objs, amt)
  {
    map o | o in objs :: o.Amount
  }

  lemma IdsAppend(fills: seq<Order>, x: Order)
    ensures Ids(fills + [x]) == Ids(fills) + [FormatUint(x.Id)]
  {
  }

  /** A pop takes its result from the heap and leaves only records of the heap. */
  lemma PopWithin(pr: Priority, h: seq<Order>, objs: set<Order>)
    requires |h| > 0 && Within(h, objs)
    ensures PopSeq(pr, h).top in h && PopSeq(pr, h).top in objs && Within(PopSeq(pr, h).rest, objs)
  {
    forall o | o in PopSeq(pr, h).rest
      ensures o in objs
    {
      PopMember(pr, h, o);
    }
    PopMember(pr, h, PopSeq(pr, h).top);
  }

  /** A push adds only the pushed record. */
  lemma PushWithin(pr: Priority, h: seq<Order>, x: Order, objs: set<Order>)
    requires Within(h, objs) && x in objs
    ensures Within(PushSeq(pr, h, x), objs)
  {
    forall o | o in PushSeq(pr, h, x)
      ensures o in objs
    {
      PushMember(pr, h, x, o);
    }
  }

  /** A heap whose records are among the tracked ones tracks the same amounts. */
  lemma TrackedHeap(h: OrderHeap, objs: set<Order>, amt: map<Order, Word>)
    requires Within(h.items, objs) && AllTracked(objs, amt)
    ensures h.Tracks(amt)
  {
  }

  /**
   * Lines 97-105 in place: subtract the match size from the bid's and the ask's
   * amount; the amounts the records hold are then the ones `Fill` computes.
   */
  method Subtract(bid: Order, ask: Order, ghost amt: map<Order, Word>, ghost objs: set<Order>)
    requires bid != ask && bid in objs && ask in objs && AllTracked(objs, amt)
    modifies bid`Amount, ask`Amount
    ensures AllTracked(objs, Fill(amt, bid, ask))
  {
    var matchSize := MatchSize(bid.Amount, ask.Amount);
    bid.Amount := bid.Amount - matchSize;
    ask.Amount := ask.Amount - matchSize;
    forall o | o in objs
      ensures o.Amount == Amt(Fill(amt, bid, ask), o)
    {
      FillTakesMatchSize(amt, bid, ask, o);
    }
  }

  /**
   * Lines 81 and 91-92 after a round whose stretch of rounds so far ends in `o` and that
   * left the book `next`, with the heaps `bids` and `asks`: a round that made no progress
   * does not end the Go loop. It never exits when the book is diverging; otherwise it
   * goes on, with one unit of `budget` less.
   */
  method Decide(ghost o: Outcome, ghost next: Engine, bids: seq<Order>, asks: seq<Order>, stuck: bool, budget: nat)
    returns (stop: Option<MatchResult>, budget': nat)
    requires Disjoint(next.bids, next.asks) && bids == next.bids && asks == next.asks
    requires stuck ==> o == Stalled(next)
    requires !stuck ==> o == Run(next)
    ensures stop.None? && !stuck ==> budget' == budget && LoopFrom(Run(next), budget) == LoopFrom(o, budget)
    ensures stop.None? && stuck ==> budget > 0 && budget' == budget - 1 && LoopFrom(Run(next), budget - 1) == LoopFrom(o, budget)
    ensures stop.Some? ==> stop.value == ResultOf(LoopFrom(o, budget)) && LoopFrom(o, budget).e == next
  {
    if !stuck {
      return None, budget;
    }
    if Separated(bids, asks) {
      return Some(NeverReturns), budget;
    }
    if budget == 0 {
      return Some(Unresolved), budget;
    }
    LoopFromStep(o, budget);
    return None, budget - 1;
  }

  class OrderBook {
    const Bids: OrderHeap
    const Asks: OrderHeap

    ghost predicate Valid()
      reads this
    {
      Bids != Asks && Bids.IsMax && !Asks.IsMax
    }

    /** `NewOrderBook`: two empty heaps (`heap.Init` on an empty slice does nothing). */
    constructor ()
      ensures Valid() && fresh(Bids) && fresh(Asks)
      ensures Bids.items == [] && Asks.items == []
    {
      Bids := new OrderHeap(true);
      Asks := new OrderHeap(false);
    }

    /** The records in either heap. */
    ghost function Records(): set<Order>
      reads Bids`items, Asks`items
    {
      set o | o in Bids.items + Asks.items
    }

    /** The book as the functional engine sees it before `MatchOrders` starts. */
    ghost function Snapshot(): Engine
      reads Bids`items, Asks`items, Records()`Amount
    {
      Start(Bids.items, Asks.items, AmountsOf(Records()))
    }

    /** `heap.Pop` on one of the two heaps: the result and the remaining heap stay among the tracked records. */
    method PopBest(h: OrderHeap, ghost amt: map<Order, Word>, ghost objs: set<Order>) returns (x: Order)
      requires h == Bids || h == Asks
      requires |h.items| > 0 && Within(h.items, objs) && AllTracked(objs, amt)
      modifies h`items
      ensures x == PopSeq(Priority(h.IsMax, amt), old(h.items)).top
      ensures h.items == PopSeq(Priority(h.IsMax, amt), old(h.items)).rest
      ensures x in old(h.items) && x in objs && Within(h.items, objs) && AllTracked(objs, amt)
    {
      PopWithin(Priority(h.IsMax, amt), h.items, objs);
      TrackedHeap(h, objs, amt);
      x := h.HeapPop(amt);
    }

    /** `heap.Push` on one of the two heaps of a tracked record. */
    method PushTracked(h: OrderHeap, x: Order, ghost amt: map<Order, Word>, ghost objs: set<Order>)
      requires h == Bids || h == Asks
      requires x in objs && Within(h.items, objs) && AllTracked(objs, amt)
      modifies h`items
      ensures h.items == PushSeq(Priority(h.IsMax, amt), old(h.items), x)
      ensures Within(h.items, objs) && AllTracked(objs, amt)
      ensures forall o :: o in h.items <==> o in old(h.items) || o == x
    {
      PushWithin(Priority(h.IsMax, amt), h.items, x, objs);
      forall o
        ensures o in PushSeq(Priority(h.IsMax, amt), h.items, x) <==> o in h.items || o == x
      {
        PushMember(Priority(h.IsMax, amt), h.items, x, o);
      }
      TrackedHeap(h, objs, amt);
      h.HeapPush(x, amt);
    }

    /**
     * One pass of the body of the inner loop (lines 86-113) for the popped bid `bid`:
     * pop the best ask; if the bid is below it push both back and stop (lines 88-92);
     * otherwise record the ask's id, take the match size from both and stop if the
     * bid's amount is used up (lines 94-109). `exit` is `None` when the loop goes on.
     */
    method MatchAsk(bid: Order, ghost amt: map<Order, Word>, ghost objs: set<Order>,
                    ghost fills: seq<Order>, matched: seq<string>)
      returns (exit: Option<Exit>, ghost amt': map<Order, Word>, ghost fills': seq<Order>, matched': seq<string>)
      requires Valid() && bid in objs && bid !in Asks.items && |Asks.items| > 0
      requires Within(Asks.items, objs) && Within(Bids.items, objs) && AllTracked(objs, amt)
      requires matched == Ids(fills)
      modifies Bids`items, Asks`items, objs`Amount
      ensures var p := PopSeq(AskPriority(amt), old(Asks.items));
        && (BelowAsk(bid, p.top) ==>
              && exit == Some(NoCross) && amt' == amt && fills' == fills
              && Asks.items == PushSeq(AskPriority(amt), p.rest, p.top)
              && Bids.items == PushSeq(BidPriority(amt), old(Bids.items), bid))
        && (!BelowAsk(bid, p.top) ==>
              && amt' == Fill(amt, bid, p.top) && fills' == fills + [p.top]
              && Asks.items == p.rest && Bids.items == old(Bids.items)
              && exit == if Amt(amt', bid) == 0 then Some(BidFilled) else None)
      ensures Within(Asks.items, objs) && Within(Bids.items, objs) && AllTracked(objs, amt')
      ensures matched' == Ids(fills')
    {
      var ask := PopBest(Asks, amt, objs);
      if bid.SqrtPrice < ask.SqrtPrice {
        PushTracked(Bids, bid, amt, objs);
        PushTracked(Asks, ask, amt, objs);
        return Some(NoCross), amt, fills, matched;
      }
      exit, amt', fills', matched' := TakeAsk(bid, ask, amt, objs, fills, matched);
    }

    /**
     * Lines 94-113 for a bid and an ask that cross: record the ask's id, take the match
     * size from both, and stop if the bid's amount is used up.
     */
    method TakeAsk(bid: Order, ask: Order, ghost amt: map<Order, Word>, ghost objs: set<Order>,
                   ghost fills: seq<Order>, matched: seq<string>)
      returns (exit: Option<Exit>, ghost amt': map<Order, Word>, ghost fills': seq<Order>, matched': seq<string>)
      requires bid != ask && bid in objs && ask in objs && AllTracked(objs, amt)
      requires matched == Ids(fills)
      modifies bid`Amount, ask`Amount
      ensures amt' == Fill(amt, bid, ask) && fills' == fills + [ask] && matched' == Ids(fills')
      ensures exit == if Amt(amt', bid) == 0 then Some(BidFilled) else None
      ensures AllTracked(objs, amt')
    {
      IdsAppend(fills, ask);
      matched' := matched + [FormatUint(ask.Id)];
      fills' := fills + [ask];
      Subtract(bid, ask, amt, objs);
      amt' := Fill(amt, bid, ask);
      if bid.Amount == 0 {
        return Some(BidFilled), amt', fills', matched';
      }
      // Line 111: a matched ask that leaves the bid with an amount is used up, so it is never pushed back.
      FillTakesMatchSize(amt, bid, ask, bid);
      assert ask.Amount == 0;
      exit := None;
    }

    /**
     * The inner loop of lines 85-114 for the popped bid `bid`. Returns the ids of the
     * matched asks, whether the loop ended on a non-crossing ask, and (as a ghost) the
     * functional result `c` it computed.
     */
    method ConsumeAsks(bid: Order, ghost amt0: map<Order, Word>, ghost objs: set<Order>)
      returns (matched: seq<string>, stuck: bool, ghost c: Consumed)
      requires Valid() && bid in objs && bid !in Asks.items
      requires Within(Asks.items, objs) && Within(Bids.items, objs) && AllTracked(objs, amt0)
      modifies Bids`items, Asks`items, objs`Amount
      ensures c == Consume(bid, old(Asks.items), amt0, [])
      ensures Asks.items == c.asks && matched == Ids(c.fills) && (stuck <==> c.exit == NoCross)
      ensures Bids.items == if stuck then PushSeq(BidPriority(c.amt), old(Bids.items), bid) else old(Bids.items)
      ensures Within(Asks.items, objs) && Within(Bids.items, objs) && AllTracked(objs, c.amt)
    {
      ghost var amt := amt0;
      ghost var fills: seq<Order> := [];
      c := Consume(bid, Asks.items, amt0, []);
      matched := [];
      while Asks.Len() > 0
        invariant bid !in Asks.items && Within(Asks.items, objs) && AllTracked(objs, amt)
        invariant Bids.items == old(Bids.items)
        invariant Consume(bid, Asks.items, amt, fills) == c
        invariant matched == Ids(fills)
        decreases |Asks.items|
      {
        ConsumeUnfold(bid, Asks.items, amt, fills);
        var exit;
        exit, amt, fills, matched := MatchAsk(bid, amt, objs, fills, matched);
        if exit.Some? {
          stuck := exit.value == NoCross;
          return;
        }
      }
      stuck := false;
    }

    /** Lines 120-122: the bid goes back onto its heap if it still has an amount. */
    method Requeue(bid: Order, ghost amt: map<Order, Word>, ghost objs: set<Order>)
      requires Valid() && bid in objs && Within(Bids.items, objs) && AllTracked(objs, amt)
      modifies Bids`items
      ensures Bids.items == PushIf(Amt(amt, bid) > 0, BidPriority(amt), old(Bids.items), bid)
      ensures Within(Bids.items, objs) && AllTracked(objs, amt)
    {
      if bid.Amount > 0 {
        PushTracked(Bids, bid, amt, objs);
      }
    }

    /**
     * One pass of the outer loop (lines 82-122) from the engine state `e` the book and
     * the locals `buyToSell`, `hasBuyMatch` make up: pop the best bid, let it consume
     * asks, record its matches and push it back if it still has an amount.
     */
    method MatchBid(ghost e: Engine, ghost objs: set<Order>, buyToSell: map<string, seq<string>>, hasBuyMatch: bool)
      returns (stuck: bool, buyToSell': map<string, seq<string>>, hasBuyMatch': bool, ghost amt': map<Order, Word>)
      requires Valid() && e == Engine(Bids.items, Asks.items, e.amt, buyToSell, hasBuyMatch)
      requires |e.bids| > 0 && |e.asks| > 0 && Disjoint(e.bids, e.asks)
      requires Within(Bids.items, objs) && Within(Asks.items, objs) && AllTracked(objs, e.amt)
      modifies Bids`items, Asks`items, objs`Amount
      ensures Engine(Bids.items, Asks.items, amt', buyToSell', hasBuyMatch') == Round(e).e
      ensures stuck <==> Round(e).Stuck?
      ensures Within(Bids.items, objs) && Within(Asks.items, objs) && AllTracked(objs, amt')
    {
      ghost var p := PopSeq(BidPriority(e.amt), e.bids);
      PopMember(BidPriority(e.amt), e.bids, p.top);
      ConsumeSplits(p.top, e.asks, e.amt);
      var bid := PopBest(Bids, e.amt, objs);
      var matched;
      ghost var c;
      matched, stuck, c := ConsumeAsks(bid, e.amt, objs);
      amt' := c.amt;
      buyToSell', hasBuyMatch' := buyToSell, hasBuyMatch;
      if |matched| > 0 {
        buyToSell' := buyToSell[FormatUint(bid.Id) := matched];
        hasBuyMatch' := true;  // line 95
      }
      Requeue(bid, amt', objs);
    }

    /**
     * One pass of the outer loop (lines 81-123) and what follows from it: the loop goes on,
     * with one unit of `budget` less after a round that made no progress, or `stop` says
     * what the whole loop comes to when the book is diverging or the budget is used up.
     */
    method Advance(ghost objs: set<Order>, ghost amt: map<Order, Word>, buyToSell: map<string, seq<string>>,
                   hasBuyMatch: bool, budget: nat)
      returns (stop: Option<MatchResult>, ghost amt': map<Order, Word>, buyToSell': map<string, seq<string>>,
               hasBuyMatch': bool, budget': nat)
      requires Valid() && |Bids.items| > 0 && |Asks.items| > 0 && Disjoint(Bids.items, Asks.items)
      requires Within(Bids.items, objs) && Within(Asks.items, objs) && AllTracked(objs, amt)
      modifies Bids`items, Asks`items, objs`Amount
      ensures Within(Bids.items, objs) && Within(Asks.items, objs) && AllTracked(objs, amt')
      ensures Disjoint(Bids.items, Asks.items)
      ensures var rest := LoopFrom(Run(Engine(old(Bids.items), old(Asks.items), amt, buyToSell, hasBuyMatch)), budget);
        && (stop.None? ==> LoopFrom(Run(Engine(Bids.items, Asks.items, amt', buyToSell', hasBuyMatch')), budget') == rest)
        && (stop.Some? ==> stop.value == ResultOf(rest) && rest.e == Engine(Bids.items, Asks.items, amt', buyToSell', hasBuyMatch'))
      ensures stop.None? ==> budget' < budget || (budget' == budget && |Asks.items| < |old(Asks.items)|)
    {
      ghost var e := Engine(Bids.items, Asks.items, amt, buyToSell, hasBuyMatch);
      var stuck;
      stuck, buyToSell', hasBuyMatch', amt' := MatchBid(e, objs, buyToSell, hasBuyMatch);
      RoundOutcome(e);
      stop, budget' := Decide(Run(e), Engine(Bids.items, Asks.items, amt', buyToSell', hasBuyMatch'), Bids.items, Asks.items, stuck, budget);
    }

    /**
     * Lines 74-177. Requires only what the in-place subtraction needs, no record on both
     * sides: on slices that are not heaps `container/heap` still pops and pushes as
     * `PopSeq` and `PushSeq` say. A round that ends on a non-crossing ask does not stop
     * the Go loop. The method stops there when the book is diverging, since the loop then
     * never exits (`DivergingStaysStuck`). Otherwise it goes on, for at most `fuel` such
     * rounds; on valid heaps that case never arises (`ValidLoopDecided`).
     */
    method MatchOrders(fuel: nat) returns (r: MatchResult)
      requires Valid() && Disjoint(Bids.items, Asks.items)
      modifies Bids`items, Asks`items, Records()`Amount
      ensures r == ResultOf(MatchLoop(old(Snapshot()), fuel))
      ensures Bids.items == MatchLoop(old(Snapshot()), fuel).e.bids
      ensures Asks.items == MatchLoop(old(Snapshot()), fuel).e.asks
      ensures AllTracked(old(Records()), MatchLoop(old(Snapshot()), fuel).e.amt)
    {
      ghost var objs := Records();
      ghost var e0 := Snapshot();
      ghost var amt := e0.amt;
      var buyToSell: map<string, seq<string>> := map[];
      var hasBuyMatch := false;
      var budget := fuel;
      LoopStarts(e0, fuel);
      while Bids.Len() > 0 && Asks.Len() > 0
        invariant Within(Bids.items, objs) && Within(Asks.items, objs) && AllTracked(objs, amt)
        invariant Disjoint(Bids.items, Asks.items)
        invariant LoopFrom(Run(Engine(Bids.items, Asks.items, amt, buyToSell, hasBuyMatch)), budget) == MatchLoop(e0, fuel)
        decreases budget, |Asks.items|
      {
        var stop;
        stop, amt, buyToSell, hasBuyMatch, budget := Advance(objs, amt, buyToSell, hasBuyMatch, budget);
        if stop.Some? {
          return stop.value;
        }
      }
      LoopFromEnds(Run(Engine(Bids.items, Asks.items, amt, buyToSell, hasBuyMatch)), budget);
      // The loop of lines 125-163 does not start: one heap is empty, so `hasSellMatch` stays false.
      if !hasBuyMatch {
        return Returned(None, None, Some(NoMatch));
      }
      return Returned(Some(buyToSell), None, None);
    }
  }
}
