/**
 * The scenarios of `internal/domain/order_book_test.go`, run through the functional
 * engine as the code is written. The books are built as `setupOrderBook` builds them,
 * with `heap.Push` in list order; `amt` gives the records their test amounts. Each
 * lemma states the outcome the code produces, which differs from what the tests
 * expect where noted.
 */
module Scenarios {
  import opened Wrappers
  import opened Encoding
  import opened Domain
  import opened Heap
  import opened Matching

  lemma PushFirst(pr: Priority, x: Order)
    ensures PushSeq(pr, [], x) == [x]
  {
  }

  /** The second push swaps only if the new record beats the root. */
  lemma PushSecond(pr: Priority, x: Order, y: Order)
    ensures PushSeq(pr, [x], y) == if Precedes(pr, y, x) then [y, x] else [x, y]
  {
    assert [x] + [y] == [x, y];
    assert SwapSeq([x, y], 0, 1) == [y, x];
  }

  lemma PopLast(pr: Priority, x: Order)
    ensures PopSeq(pr, [x]) == Popped(x, [])
  {
  }

  lemma PopOfTwo(pr: Priority, x: Order, y: Order)
    ensures PopSeq(pr, [x, y]) == Popped(x, [y])
  {
    assert SwapSeq([x, y], 0, 1) == [y, x];
  }

  lemma FormatSmall()
    ensures FormatUint(1) == "1" && FormatUint(2) == "2" && FormatUint(3) == "3"
  {
  }

  /** One pass of the inner loop on an ask that crosses the bid. */
  lemma CrossStep(bid: Order, asks: seq<Order>, amt: map<Order, Word>, fills: seq<Order>, top: Order, rest: seq<Order>)
    requires bid !in asks && |asks| > 0 && PopSeq(AskPriority(amt), asks) == Popped(top, rest)
    requires !BelowAsk(bid, top)
    ensures bid !in rest
    ensures Amt(Fill(amt, bid, top), bid) == 0 ==>
      Consume(bid, asks, amt, fills) == Consumed(rest, Fill(amt, bid, top), fills + [top], BidFilled)
    ensures Amt(Fill(amt, bid, top), bid) != 0 ==>
      Consume(bid, asks, amt, fills) == Consume(bid, rest, Fill(amt, bid, top), fills + [top])
  {
    ConsumeUnfold(bid, asks, amt, fills);
  }

  /** A round that fills the best bid and empties the ask heap is the last one. */
  lemma LastRound(e: Engine)
    requires |e.bids| > 0 && |e.asks| > 0 && Disjoint(e.bids, e.asks)
    requires var p := PopSeq(BidPriority(e.amt), e.bids);
      var c := Consume(p.top, e.asks, e.amt, []);
      c.exit == BidFilled && c.asks == [] && Amt(c.amt, p.top) == 0 && |c.fills| > 0
    ensures var p := PopSeq(BidPriority(e.amt), e.bids);
      var c := Consume(p.top, e.asks, e.amt, []);
      Run(e) == Finished(Engine(p.rest, [], c.amt, e.buyToSell[FormatUint(p.top.Id) := Ids(c.fills)], true))
  {
  }

  /** The inner loop for a bid against a single ask of at least the bid's amount that it crosses. */
  lemma SingleAskConsume(b: Order, a: Order, amt: map<Order, Word>)
    requires b != a && b.SqrtPrice >= a.SqrtPrice && 0 < Amt(amt, b) <= Amt(amt, a)
    ensures var c := Consume(b, [a], amt, []);
      && c.asks == [] && c.fills == [a] && c.exit == BidFilled
      && Amt(c.amt, b) == 0 && Amt(c.amt, a) == Amt(amt, a) - Amt(amt, b)
      && forall o :: o != a && o != b ==> Amt(c.amt, o) == Amt(amt, o)
  {
    PopLast(AskPriority(amt), a);
    FillTakesMatchSize(amt, b, a, a);
    CrossStep(b, [a], amt, [], a, []);
    forall o | o != a && o != b
      ensures Amt(Fill(amt, b, a), o) == Amt(amt, o)
    {
      FillTakesMatchSize(amt, b, a, o);
    }
  }

  /** One bid against one ask, both used up: the book empties and reports `{1: [2]}`. */
  lemma OnePairRun(b1: Order, a2: Order, amt: map<Order, Word>)
    requires b1 != a2 && b1.Id == 1 && a2.Id == 2 && b1.SqrtPrice >= a2.SqrtPrice
    requires 0 < Amt(amt, b1) == Amt(amt, a2)
    ensures var o := Run(Start([b1], [a2], amt));
      && o == Finished(o.e) && o.e.bids == [] && o.e.asks == []
      && Amt(o.e.amt, b1) == 0 && Amt(o.e.amt, a2) == 0
      && ResultOf(Exited(o.e)) == Returned(Some(map["1" := ["2"]]), None, None)
  {
    PopLast(BidPriority(amt), b1);
    SingleAskConsume(b1, a2, amt);
    LastRound(Start([b1], [a2], amt));
    FormatSmall();
    assert Ids([a2]) == ["2"];
  }

  /** Lines 25-53: one bid of 50 at 100 against one ask of 50 at 90 gives `{1: [2]}`; both are used up. */
  lemma BidFullyMatchedBySingleAsk(b1: Order, a2: Order, amt: map<Order, Word>, fuel: nat)
    requires b1 != a2
    requires b1.Id == 1 && b1.SqrtPrice == 100 && a2.Id == 2 && a2.SqrtPrice == 90
    requires Amt(amt, b1) == 50 && Amt(amt, a2) == 50
    ensures var e := Start(PushSeq(BidPriority(amt), [], b1), PushSeq(AskPriority(amt), [], a2), amt);
      var o := Run(e);
      && o == Finished(o.e) && o.e.bids == [] && o.e.asks == []
      && Amt(o.e.amt, b1) == 0 && Amt(o.e.amt, a2) == 0
      && MatchLoop(e, fuel) == Exited(o.e) && ResultOf(Exited(o.e)) == Returned(Some(map["1" := ["2"]]), None, None)
  {
    PushFirst(BidPriority(amt), b1);
    PushFirst(AskPriority(amt), a2);
    OnePairRun(b1, a2, amt);
  }

  /** Lines 131-159: a bid and an ask of 50 at the same price 100 cross: `{1: [2]}`. */
  lemma AskFullyMatchedBySingleBid(b1: Order, a2: Order, amt: map<Order, Word>, fuel: nat)
    requires b1 != a2
    requires b1.Id == 1 && b1.SqrtPrice == 100 && a2.Id == 2 && a2.SqrtPrice == 100
    requires Amt(amt, b1) == 50 && Amt(amt, a2) == 50
    ensures var e := Start(PushSeq(BidPriority(amt), [], b1), PushSeq(AskPriority(amt), [], a2), amt);
      var o := Run(e);
      && o == Finished(o.e) && o.e.bids == [] && o.e.asks == []
      && Amt(o.e.amt, b1) == 0 && Amt(o.e.amt, a2) == 0
      && MatchLoop(e, fuel) == Exited(o.e) && ResultOf(Exited(o.e)) == Returned(Some(map["1" := ["2"]]), None, None)
  {
    PushFirst(BidPriority(amt), b1);
    PushFirst(AskPriority(amt), a2);
    OnePairRun(b1, a2, amt);
  }

  /**
   * The inner loop for a bid against two asks it crosses, the first smaller than the
   * bid: it takes the whole first ask and then the rest of its own amount from the second.
   */
  lemma TwoAsksConsume(b: Order, x: Order, y: Order, amt: map<Order, Word>)
    requires b != x && b != y && x != y
    requires b.SqrtPrice >= x.SqrtPrice && b.SqrtPrice >= y.SqrtPrice
    requires 0 < Amt(amt, x) < Amt(amt, b) <= Amt(amt, x) + Amt(amt, y)
    ensures var c := Consume(b, [x, y], amt, []);
      && c.asks == [] && c.fills == [x, y] && c.exit == BidFilled
      && Amt(c.amt, b) == 0 && Amt(c.amt, x) == 0
      && Amt(c.amt, y) == Amt(amt, x) + Amt(amt, y) - Amt(amt, b)
  {
    PopOfTwo(AskPriority(amt), x, y);
    FillTakesMatchSize(amt, b, x, y);
    CrossStep(b, [x, y], amt, [], x, [y]);
    var amt1 := Fill(amt, b, x);
    PopLast(AskPriority(amt1), y);
    FillTakesMatchSize(amt1, b, y, x);
    CrossStep(b, [y], amt1, [x], y, []);
  }

  /** One bid against two asks `[x, y]` (heap order) that together cover it. */
  lemma TwoAsksRun(b: Order, x: Order, y: Order, amt: map<Order, Word>)
    requires b != x && b != y && x != y
    requires b.SqrtPrice >= x.SqrtPrice && b.SqrtPrice >= y.SqrtPrice
    requires 0 < Amt(amt, x) < Amt(amt, b) <= Amt(amt, x) + Amt(amt, y)
    ensures var o := Run(Start([b], [x, y], amt));
      && o == Finished(o.e) && o.e.bids == [] && o.e.asks == []
      && Amt(o.e.amt, b) == 0 && Amt(o.e.amt, x) == 0
      && Amt(o.e.amt, y) == Amt(amt, x) + Amt(amt, y) - Amt(amt, b)
      && o.e.buyToSell == map[FormatUint(b.Id) := [FormatUint(x.Id), FormatUint(y.Id)]]
      && o.e.hasBuyMatch
  {
    PopLast(BidPriority(amt), b);
    TwoAsksConsume(b, x, y, amt);
    LastRound(Start([b], [x, y], amt));
    assert Ids([x, y]) == [FormatUint(x.Id), FormatUint(y.Id)];
  }

  /**
   * Lines 55-91: a bid of 100 at 100 against asks of 40 at 90 and 60 at 85 takes the
   * cheaper ask first: `{1: [3, 2]}`, all three used up.
   */
  lemma BidFullyMatchedByMultipleAsks(b1: Order, a2: Order, a3: Order, amt: map<Order, Word>, fuel: nat)
    requires b1 != a2 && b1 != a3 && a2 != a3
    requires b1.Id == 1 && b1.SqrtPrice == 100
    requires a2.Id == 2 && a2.SqrtPrice == 90 && a3.Id == 3 && a3.SqrtPrice == 85
    requires Amt(amt, b1) == 100 && Amt(amt, a2) == 40 && Amt(amt, a3) == 60
    ensures var asks := PushSeq(AskPriority(amt), PushSeq(AskPriority(amt), [], a2), a3);
      var e := Start(PushSeq(BidPriority(amt), [], b1), asks, amt);
      var o := Run(e);
      && o == Finished(o.e) && o.e.bids == [] && o.e.asks == []
      && Amt(o.e.amt, b1) == 0 && Amt(o.e.amt, a2) == 0 && Amt(o.e.amt, a3) == 0
      && MatchLoop(e, fuel) == Exited(o.e) && ResultOf(Exited(o.e)) == Returned(Some(map["1" := ["3", "2"]]), None, None)
  {
    PushFirst(BidPriority(amt), b1);
    PushFirst(AskPriority(amt), a2);
    PushSecond(AskPriority(amt), a2, a3);
    TwoAsksRun(b1, a3, a2, amt);
    FormatSmall();
  }

  /**
   * Lines 93-129: a bid of 80 at 100 against asks of 50 at 90 and 40 at 100 gives
   * `{1: [2, 3]}`; the second ask keeps 10 but leaves the book, as lines 107-109 drop it.
   */
  lemma BidPartiallyMatched(b1: Order, a2: Order, a3: Order, amt: map<Order, Word>, fuel: nat)
    requires b1 != a2 && b1 != a3 && a2 != a3
    requires b1.Id == 1 && b1.SqrtPrice == 100
    requires a2.Id == 2 && a2.SqrtPrice == 90 && a3.Id == 3 && a3.SqrtPrice == 100
    requires Amt(amt, b1) == 80 && Amt(amt, a2) == 50 && Amt(amt, a3) == 40
    ensures var asks := PushSeq(AskPriority(amt), PushSeq(AskPriority(amt), [], a2), a3);
      var e := Start(PushSeq(BidPriority(amt), [], b1), asks, amt);
      var o := Run(e);
      && o == Finished(o.e) && o.e.bids == [] && o.e.asks == []
      && Amt(o.e.amt, b1) == 0 && Amt(o.e.amt, a2) == 0 && Amt(o.e.amt, a3) == 10
      && MatchLoop(e, fuel) == Exited(o.e) && ResultOf(Exited(o.e)) == Returned(Some(map["1" := ["2", "3"]]), None, None)
  {
    PushFirst(BidPriority(amt), b1);
    PushFirst(AskPriority(amt), a2);
    PushSecond(AskPriority(amt), a2, a3);
    TwoAsksRun(b1, a2, a3, amt);
    FormatSmall();
  }

  /**
   * Lines 161-197: bids of 60 and 40 at 100 against one ask of 100 at 90. The first bid
   * fills and the ask, which keeps 40, is dropped (lines 107-109), so the result is
   * `{1: [3]}` with the second bid left unmatched, not the pairs (1,3), (2,3) the test expects.
   */
  lemma AskFullyMatchedByMultipleBids(b1: Order, b2: Order, a3: Order, amt: map<Order, Word>, fuel: nat)
    requires b1 != b2 && b1 != a3 && b2 != a3
    requires b1.Id == 1 && b1.SqrtPrice == 100 && b2.Id == 2 && b2.SqrtPrice == 100
    requires a3.Id == 3 && a3.SqrtPrice == 90
    requires Amt(amt, b1) == 60 && Amt(amt, b2) == 40 && Amt(amt, a3) == 100
    ensures var bids := PushSeq(BidPriority(amt), PushSeq(BidPriority(amt), [], b1), b2);
      var e := Start(bids, PushSeq(AskPriority(amt), [], a3), amt);
      var o := Run(e);
      && o == Finished(o.e) && o.e.bids == [b2] && o.e.asks == []
      && Amt(o.e.amt, b1) == 0 && Amt(o.e.amt, b2) == 40 && Amt(o.e.amt, a3) == 40
      && MatchLoop(e, fuel) == Exited(o.e) && ResultOf(Exited(o.e)) == Returned(Some(map["1" := ["3"]]), None, None)
  {
    PushFirst(BidPriority(amt), b1);
    PushSecond(BidPriority(amt), b1, b2);
    assert PushSeq(BidPriority(amt), PushSeq(BidPriority(amt), [], b1), b2) == [b1, b2];
    PushFirst(AskPriority(amt), a3);
    PopOfTwo(BidPriority(amt), b1, b2);
    SingleAskConsume(b1, a3, amt);
    var c := Consume(b1, [a3], amt, []);
    LastRound(Start([b1, b2], [a3], amt));
    FormatSmall();
    assert Ids([a3]) == ["3"];
    assert Run(Start([b1, b2], [a3], amt)) == Finished(Engine([b2], [], c.amt, map["1" := ["3"]], true));
  }

  /** Lines 199-217: a bid and no asks: `ErrNoMatch` with nil maps. */
  lemma BidNoMatchingAsk(b1: Order, amt: map<Order, Word>, fuel: nat)
    ensures ResultOf(MatchLoop(Start(PushSeq(BidPriority(amt), [], b1), [], amt), fuel)) == Returned(None, None, Some(NoMatch))
  {
    PushFirst(BidPriority(amt), b1);
  }

  /** Lines 219-237: an ask and no bids: `ErrNoMatch` with nil maps. */
  lemma AskNoMatchingBid(a1: Order, amt: map<Order, Word>, fuel: nat)
    ensures ResultOf(MatchLoop(Start([], PushSeq(AskPriority(amt), [], a1), amt), fuel)) == Returned(None, None, Some(NoMatch))
  {
    PushFirst(AskPriority(amt), a1);
  }

  /**
   * Lines 88-92 and 120-122 on a book whose best bid is below its best ask: the round
   * pushes the bid back twice and matches nothing, and the book it leaves has every bid
   * below every ask, so `MatchOrders` never returns, whatever the fuel.
   */
  lemma BidBelowAskNeverReturns(b1: Order, a2: Order, amt: map<Order, Word>, fuel: nat)
    requires b1 != a2 && b1.SqrtPrice == 80 && a2.SqrtPrice == 90 && Amt(amt, b1) > 0
    ensures var e := Start(PushSeq(BidPriority(amt), [], b1), PushSeq(AskPriority(amt), [], a2), amt);
      var o := Run(e);
      && o == Stalled(o.e) && o.e.bids == [b1, b1] && o.e.asks == [a2] && o.e.amt == amt
      && MatchLoop(e, fuel) == Diverged(o.e) && ResultOf(MatchLoop(e, fuel)) == NeverReturns
  {
    PushFirst(BidPriority(amt), b1);
    PushFirst(AskPriority(amt), a2);
    PopLast(BidPriority(amt), b1);
    PopLast(AskPriority(amt), a2);
    ConsumeUnfold(b1, [a2], amt, []);
    PushSecond(BidPriority(amt), b1, b1);
  }

  /** A third push below the root stays at the end. */
  lemma PushUnderRoot(pr: Priority, x: Order, y: Order, z: Order)
    requires !Precedes(pr, z, x)
    ensures PushSeq(pr, [x, y], z) == [x, y, z]
  {
    assert [x, y] + [z] == [x, y, z];
  }

  /** Popping a three-slot heap whose last two records tie gives the root and the other two. */
  lemma PopOfThreeTied(pr: Priority, x: Order, y: Order)
    ensures PopSeq(pr, [x, y, y]) == Popped(x, [y, y])
  {
    assert SwapSeq([x, y, y], 0, 2) == [y, y, x];
    SiftDownTurn(pr, [y, y, x], 0, 2, 1);
    assert [y, y, x][..2] == [y, y];
  }

  /** The first round on the raw book: the bid at 80 is popped, does not cross and goes back twice. */
  lemma RawFirstRound(b1: Order, b2: Order, a3: Order, amt: map<Order, Word>)
    requires b1 != b2 && b1 != a3 && b2 != a3
    requires b1.SqrtPrice == 80 && b2.SqrtPrice == 100 && a3.SqrtPrice == 90
    requires Amt(amt, b1) == 10 && Amt(amt, b2) == 10
    ensures Run(Start([b1, b2], [a3], amt)) == Stalled(Engine([b2, b1, b1], [a3], amt, map[], false))
  {
    var e := Start([b1, b2], [a3], amt);
    PopOfTwo(BidPriority(amt), b1, b2);
    PopLast(AskPriority(amt), a3);
    PushFirst(AskPriority(amt), a3);
    ConsumeUnfold(b1, [a3], amt, []);
    PushSecond(BidPriority(amt), b2, b1);
    PushUnderRoot(BidPriority(amt), b2, b1, b1);
    assert Round(e) == Stuck(Engine([b2, b1, b1], [a3], amt, map[], false));
    RoundOutcome(e);
  }

  /** The next stretch: the bid at 100 is popped and fills against the ask. */
  lemma RawSecondRun(b1: Order, b2: Order, a3: Order, amt: map<Order, Word>)
    requires b1 != b2 && b1 != a3 && b2 != a3
    requires b2.Id == 2 && b2.SqrtPrice == 100 && a3.Id == 3 && a3.SqrtPrice == 90
    requires Amt(amt, b2) == 10 && Amt(amt, a3) == 10
    ensures var o := Run(Engine([b2, b1, b1], [a3], amt, map[], false));
      o.Finished? && o.e.hasBuyMatch && o.e.buyToSell == map["2" := ["3"]]
  {
    var e1 := Engine([b2, b1, b1], [a3], amt, map[], false);
    PopOfThreeTied(BidPriority(amt), b2, b1);
    SingleAskConsume(b2, a3, amt);
    LastRound(e1);
    FormatSmall();
    assert Ids([a3]) == ["3"];
  }

  /**
   * The one-sided book of match_orders.go lines 159-161: the bids are appended with the
   * slice's own `Push`, so they stay in list order [80, 100] and are no heap; one ask at
   * 90. `heap.Pop` returns index 0, the bid at 80, which does not cross; the round pushes
   * it back twice and stalls on a book that is not diverging. The next round pops the bid
   * at 100, which fills against the ask, and `MatchOrders` returns `{2: [3]}`. The model
   * gives that answer once it may follow one round without progress; with no fuel it
   * leaves the answer open rather than calling the loop non-returning.
   */
  lemma RawBookMovesOn(b1: Order, b2: Order, a3: Order, amt: map<Order, Word>, fuel: nat)
    requires b1 != b2 && b1 != a3 && b2 != a3
    requires b1.Id == 1 && b1.SqrtPrice == 80 && b2.Id == 2 && b2.SqrtPrice == 100
    requires a3.Id == 3 && a3.SqrtPrice == 90
    requires Amt(amt, b1) == 10 && Amt(amt, b2) == 10 && Amt(amt, a3) == 10
    ensures var e := Start([b1, b2], [a3], amt);
      && Run(e).Stalled? && Run(e).e.bids == [b2, b1, b1] && !Diverging(Run(e).e)
      && ResultOf(MatchLoop(e, 0)) == Unresolved
      && (fuel > 0 ==> ResultOf(MatchLoop(e, fuel)) == Returned(Some(map["2" := ["3"]]), None, None))
  {
    var e := Start([b1, b2], [a3], amt);
    var e1 := Engine([b2, b1, b1], [a3], amt, map[], false);
    RawFirstRound(b1, b2, a3, amt);
    assert !Diverging(e1) by {
      assert b2 in e1.bids && a3 in e1.asks && !(b2.SqrtPrice < a3.SqrtPrice);
    }
    RawSecondRun(b1, b2, a3, amt);
    if fuel > 0 {
      LoopFromStep(Run(e), fuel);
    }
  }
}
