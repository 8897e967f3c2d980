/**
 * The matching engine of `internal/domain/order_book.go`, as a function of the
 * two heaps and of the amounts of the records in them.
 *
 * `Consume` is the inner loop (one bid against the asks), `Round` one pass of the
 * outer loop, `Run` the outer loop up to the point where it either exits or reaches
 * a round that makes no progress. `MatchLoop` is the whole outer loop: after such a
 * round it stops for good only when every bid is priced below every ask, a book from
 * which the Go loop never exits (`DivergingStaysStuck`); otherwise it follows the Go
 * loop for up to `fuel` more such rounds. `ResultOf` is the three-way return at the end.
 */
module Matching {
  import opened Wrappers
  import opened Encoding
  import opened Domain
  import opened Heap

  function BidPriority(amt: map<Order, Word>): Priority {
    Priority(true, amt)
  }

  function AskPriority(amt: map<Order, Word>): Priority {
    Priority(false, amt)
  }

  /** Line 88: the bid's price is below the ask's, so the two do not cross. */
  predicate BelowAsk(bid: Order, ask: Order) {
    bid.SqrtPrice < ask.SqrtPrice
  }

  /** Lines 97-102: the quantity one match takes from both sides. */
  function MatchSize(bidAmount: Word, askAmount: Word): (ms: Word)
    ensures ms <= bidAmount && ms <= askAmount
    ensures ms == bidAmount || ms == askAmount
  {
    if bidAmount < askAmount then bidAmount else askAmount
  }

  /** Lines 97-105: take the match size from the bid's and then from the ask's amount. */
  function Fill(amt: map<Order, Word>, bid: Order, ask: Order): map<Order, Word> {
    var ms := MatchSize(Amt(amt, bid), Amt(amt, ask));
    amt[bid := Amt(amt, bid) - ms][ask := Amt(amt, ask) - ms]
  }

  /**
   * One match takes the same quantity, the smaller amount, from both sides: neither
   * subtraction underflows, at least one side ends at zero, and no other record changes.
   */
  lemma FillTakesMatchSize(amt: map<Order, Word>, bid: Order, ask: Order, o: Order)
    requires bid != ask
    ensures var ms := MatchSize(Amt(amt, bid), Amt(amt, ask));
      && Amt(Fill(amt, bid, ask), bid) == Amt(amt, bid) - ms
      && Amt(Fill(amt, bid, ask), ask) == Amt(amt, ask) - ms
      && (Amt(Fill(amt, bid, ask), bid) == 0 || Amt(Fill(amt, bid, ask), ask) == 0)
      && (o != bid && o != ask ==> Amt(Fill(amt, bid, ask), o) == Amt(amt, o))
  {
  }

  /** How the inner loop ended: no ask left, the bid filled (line 108), or no cross (line 91). */
  datatype Exit = AsksEmpty | BidFilled | NoCross

  datatype Consumed = Consumed(asks: seq<Order>, amt: map<Order, Word>, fills: seq<Order>, exit: Exit)

  /** A record not in a heap is not in what remains after a pop. */
  lemma PopNotIn(pr: Priority, h: seq<Order>, o: Order)
    requires |h| > 0 && o !in h
    ensures o !in PopSeq(pr, h).rest
  {
    var p := PopSeq(pr, h);
    assert multiset(h)[o] == 0;
    assert multiset(p.rest)[o] == 0;
  }

  /**
   * Lines 85-114 for one popped bid, from a point where `fills` are the asks
   * matched so far: pop the best ask; if the bid is below it, push it back and stop;
   * else take the match size from both, stop if the bid is empty, otherwise go on
   * (the ask is then empty and, as line 111 checks, is not pushed back).
   */
  function Consume(bid: Order, asks: seq<Order>, amt: map<Order, Word>, fills: seq<Order>): (r: Consumed)
    requires bid !in asks
    decreases |asks|
  {
    if |asks| == 0 then Consumed(asks, amt, fills, AsksEmpty)
    else
      var p := PopSeq(AskPriority(amt), asks);
      if BelowAsk(bid, p.top) then
        Consumed(PushSeq(AskPriority(amt), p.rest, p.top), amt, fills, NoCross)
      else
        var amt' := Fill(amt, bid, p.top);
        assert p.top in asks;
        PopNotIn(AskPriority(amt), asks, bid);
        if Amt(amt', bid) == 0 then Consumed(p.rest, amt', fills + [p.top], BidFilled)
        else
          assert Amt(amt', p.top) == 0;
          Consume(bid, p.rest, amt', fills + [p.top])
  }

  /** One iteration of the inner loop, as an equation. */
  lemma ConsumeUnfold(bid: Order, asks: seq<Order>, amt: map<Order, Word>, fills: seq<Order>)
    requires bid !in asks && |asks| > 0
    ensures var p := PopSeq(AskPriority(amt), asks);
      && p.top in asks && bid != p.top && bid !in p.rest
      && (BelowAsk(bid, p.top) ==>
            Consume(bid, asks, amt, fills) == Consumed(PushSeq(AskPriority(amt), p.rest, p.top), amt, fills, NoCross))
      && (!BelowAsk(bid, p.top) && Amt(Fill(amt, bid, p.top), bid) == 0 ==>
            Consume(bid, asks, amt, fills) == Consumed(p.rest, Fill(amt, bid, p.top), fills + [p.top], BidFilled))
      && (!BelowAsk(bid, p.top) && Amt(Fill(amt, bid, p.top), bid) != 0 ==>
            Consume(bid, asks, amt, fills) == Consume(bid, p.rest, Fill(amt, bid, p.top), fills + [p.top]))
  {
    var p := PopSeq(AskPriority(amt), asks);
    assert p.top in asks;
    PopNotIn(AskPriority(amt), asks, bid);
  }

  /** The bid never lands in the ask heap. */
  lemma {:induction false} ConsumeKeepsBidOut(bid: Order, asks: seq<Order>, amt: map<Order, Word>, fills: seq<Order>)
    requires bid !in asks
    ensures bid !in Consume(bid, asks, amt, fills).asks
    decreases |asks|
  {
    if |asks| > 0 {
      var p := PopSeq(AskPriority(amt), asks);
      ConsumeUnfold(bid, asks, amt, fills);
      if BelowAsk(bid, p.top) {
        var h: seq<Order> := PushSeq(AskPriority(amt), p.rest, p.top);
        assert multiset(p.rest)[bid] == 0;
        assert multiset(h)[bid] == 0;
      } else if Amt(Fill(amt, bid, p.top), bid) != 0 {
        ConsumeKeepsBidOut(bid, p.rest, Fill(amt, bid, p.top), fills + [p.top]);
      }
    }
  }

  /** Every popped ask is either matched or back in the heap. */
  lemma {:induction false} ConsumeConserves(bid: Order, asks: seq<Order>, amt: map<Order, Word>, fills: seq<Order>)
    requires bid !in asks
    ensures var r := Consume(bid, asks, amt, fills);
      multiset(r.asks) + multiset(r.fills) == multiset(asks) + multiset(fills)
    decreases |asks|
  {
    if |asks| > 0 {
      var p := PopSeq(AskPriority(amt), asks);
      ConsumeUnfold(bid, asks, amt, fills);
      if !BelowAsk(bid, p.top) && Amt(Fill(amt, bid, p.top), bid) != 0 {
        ConsumeConserves(bid, p.rest, Fill(amt, bid, p.top), fills + [p.top]);
      }
    }
  }

  /**
   * `r` carried on from the fills `fills`: they are a prefix of its fills; it stops with
   * no ask left, after a fill, or on a non-crossing ask that is back in the heap, and it
   * makes at least one fill unless the first ask of `asks` does not cross.
   */
  predicate Appended(asks: seq<Order>, fills: seq<Order>, r: Consumed) {
    && |fills| <= |r.fills| && r.fills[..|fills|] == fills
    && (r.exit == AsksEmpty ==> r.asks == [])
    && (r.exit == BidFilled ==> |r.fills| > |fills|)
    && (r.exit == NoCross ==> |r.asks| > 0)
    && (|asks| > 0 && r.exit != NoCross ==> |r.fills| > |fills|)
  }

  lemma AppendedLast(bid: Order, asks: seq<Order>, amt: map<Order, Word>, fills: seq<Order>)
    requires bid !in asks && |asks| > 0
    requires var p := PopSeq(AskPriority(amt), asks);
      BelowAsk(bid, p.top) || Amt(Fill(amt, bid, p.top), bid) == 0
    ensures Appended(asks, fills, Consume(bid, asks, amt, fills))
  {
    ConsumeUnfold(bid, asks, amt, fills);
  }

  lemma AppendedNext(bid: Order, asks: seq<Order>, amt: map<Order, Word>, fills: seq<Order>)
    requires bid !in asks && |asks| > 0
    requires !BelowAsk(bid, PopSeq(AskPriority(amt), asks).top)
    requires Amt(Fill(amt, bid, PopSeq(AskPriority(amt), asks).top), bid) != 0
    requires bid !in PopSeq(AskPriority(amt), asks).rest
    requires var p := PopSeq(AskPriority(amt), asks);
      Appended(p.rest, fills + [p.top], Consume(bid, p.rest, Fill(amt, bid, p.top), fills + [p.top]))
    ensures Appended(asks, fills, Consume(bid, asks, amt, fills))
  {
    var p := PopSeq(AskPriority(amt), asks);
    ConsumeNext(bid, asks, amt, fills);
    PrefixOfPrefix(Consume(bid, p.rest, Fill(amt, bid, p.top), fills + [p.top]).fills, fills, p.top);
  }

  /** Matched asks are appended in pop order, and the loop stops only in one of its three ways. */
  lemma {:induction false} ConsumeAppends(bid: Order, asks: seq<Order>, amt: map<Order, Word>, fills: seq<Order>)
    requires bid !in asks
    ensures Appended(asks, fills, Consume(bid, asks, amt, fills))
    decreases |asks|
  {
    if |asks| > 0 {
      var p := PopSeq(AskPriority(amt), asks);
      if BelowAsk(bid, p.top) || Amt(Fill(amt, bid, p.top), bid) == 0 {
        AppendedLast(bid, asks, amt, fills);
      } else {
        ConsumeNext(bid, asks, amt, fills);
        ConsumeAppends(bid, p.rest, Fill(amt, bid, p.top), fills + [p.top]);
        AppendedNext(bid, asks, amt, fills);
      }
    }
  }

  lemma PrefixOfPrefix(s: seq<Order>, fills: seq<Order>, x: Order)
    requires |fills| + 1 <= |s| && s[..|fills| + 1] == fills + [x]
    ensures s[..|fills|] == fills && s[|fills|] == x
  {
    assert s[..|fills|] == s[..|fills| + 1][..|fills|];
  }

  /** The case of `ConsumeUnfold` where the loop goes on after a match. */
  lemma ConsumeNext(bid: Order, asks: seq<Order>, amt: map<Order, Word>, fills: seq<Order>)
    requires bid !in asks && |asks| > 0
    requires !BelowAsk(bid, PopSeq(AskPriority(amt), asks).top)
    requires Amt(Fill(amt, bid, PopSeq(AskPriority(amt), asks).top), bid) != 0
    ensures var p := PopSeq(AskPriority(amt), asks);
      && bid !in p.rest
      && Consume(bid, asks, amt, fills) == Consume(bid, p.rest, Fill(amt, bid, p.top), fills + [p.top])
  {
    ConsumeUnfold(bid, asks, amt, fills);
  }

  /** `ConsumeFrame` when the first ask ends the loop. */
  lemma FrameLast(bid: Order, asks: seq<Order>, amt: map<Order, Word>, fills: seq<Order>, o: Order)
    requires bid !in asks && o != bid && |asks| > 0
    requires var p := PopSeq(AskPriority(amt), asks);
      BelowAsk(bid, p.top) || Amt(Fill(amt, bid, p.top), bid) == 0
    requires var r := Consume(bid, asks, amt, fills);
      forall k :: |fills| <= k < |r.fills| ==> r.fills[k] != o
    ensures Amt(Consume(bid, asks, amt, fills).amt, o) == Amt(amt, o)
  {
    var p := PopSeq(AskPriority(amt), asks);
    ConsumeUnfold(bid, asks, amt, fills);
    FillTakesMatchSize(amt, bid, p.top, o);
    if !BelowAsk(bid, p.top) {
      assert Consume(bid, asks, amt, fills).fills[|fills|] == p.top;
    }
  }

  /** The inner loop changes the amounts of the bid and of the asks it matched, and no other. */
  lemma {:induction false} ConsumeFrame(bid: Order, asks: seq<Order>, amt: map<Order, Word>, fills: seq<Order>, o: Order)
    requires bid !in asks && o != bid
    requires var r := Consume(bid, asks, amt, fills);
      forall k :: |fills| <= k < |r.fills| ==> r.fills[k] != o
    ensures Amt(Consume(bid, asks, amt, fills).amt, o) == Amt(amt, o)
    decreases |asks|, 1
  {
    if |asks| > 0 {
      var p := PopSeq(AskPriority(amt), asks);
      if BelowAsk(bid, p.top) || Amt(Fill(amt, bid, p.top), bid) == 0 {
        FrameLast(bid, asks, amt, fills, o);
      } else {
        FrameNext(bid, asks, amt, fills, o);
      }
    }
  }

  /** `ConsumeFrame` when the loop goes on after matching the first ask. */
  lemma {:induction false} FrameNext(bid: Order, asks: seq<Order>, amt: map<Order, Word>, fills: seq<Order>, o: Order)
    requires bid !in asks && o != bid && |asks| > 0
    requires !BelowAsk(bid, PopSeq(AskPriority(amt), asks).top)
    requires Amt(Fill(amt, bid, PopSeq(AskPriority(amt), asks).top), bid) != 0
    requires var r := Consume(bid, asks, amt, fills);
      forall k :: |fills| <= k < |r.fills| ==> r.fills[k] != o
    ensures Amt(Consume(bid, asks, amt, fills).amt, o) == Amt(amt, o)
    decreases |asks|, 0
  {
    var p := PopSeq(AskPriority(amt), asks);
    var amt' := Fill(amt, bid, p.top);
    var fills' := fills + [p.top];
    ConsumeNext(bid, asks, amt, fills);
    ConsumeAppends(bid, p.rest, amt', fills');
    PrefixOfPrefix(Consume(bid, p.rest, amt', fills').fills, fills, p.top);
    assert p.top in asks;
    FillTakesMatchSize(amt, bid, p.top, o);
    ConsumeFrame(bid, p.rest, amt', fills', o);
  }

  /** Two sequences that together hold the elements of a third are each within it. */
  lemma SplitMembers(whole: seq<Order>, xs: seq<Order>, ys: seq<Order>)
    requires multiset(xs) + multiset(ys) == multiset(whole)
    ensures |xs| + |ys| == |whole|
    ensures forall o :: o in xs ==> o in whole
    ensures forall o :: o in ys ==> o in whole
  {
    forall o | o in xs || o in ys
      ensures o in whole
    {
      assert multiset(whole)[o] == multiset(xs)[o] + multiset(ys)[o];
    }
    assert |multiset(xs) + multiset(ys)| == |multiset(whole)|;
  }

  predicate Distinct(s: seq<Order>) {
    forall o :: o in s ==> multiset(s)[o] == 1
  }

  /** Taking one element out of a sequence without repeats leaves one without repeats and without it. */
  lemma DistinctRemove(whole: seq<Order>, rest: seq<Order>, x: Order)
    requires multiset(rest) + multiset{x} == multiset(whole) && Distinct(whole)
    ensures Distinct(rest) && x !in rest
  {
    assert multiset(whole)[x] == multiset(rest)[x] + 1;
    assert x in whole;
    forall o | o in rest
      ensures multiset(rest)[o] == 1
    {
      assert multiset(whole)[o] == multiset(rest)[o] + multiset{x}[o];
    }
  }

  /** Adding an element a sequence without repeats lacks keeps it without repeats. */
  lemma DistinctAdd(whole: seq<Order>, part: seq<Order>, x: Order)
    requires multiset(whole) == multiset(part) + multiset{x} && Distinct(part) && x !in part
    ensures Distinct(whole)
  {
    forall o | o in whole
      ensures multiset(whole)[o] == 1
    {
      assert multiset(whole)[o] == multiset(part)[o] + multiset{x}[o];
      if o != x {
        assert o in multiset(part);
      }
    }
  }

  /**
   * Popping the best ask off a valid ask heap: what remains is a valid heap, also under
   * the amounts after the match with `bid`, none of its asks changes amount in that match,
   * and none has a lower price than the popped one.
   */
  lemma PopAskStep(bid: Order, asks: seq<Order>, amt: map<Order, Word>)
    requires |asks| > 0 && bid !in asks && Distinct(asks) && IsHeap(AskPriority(amt), asks)
    ensures var p := PopSeq(AskPriority(amt), asks);
      && p.top in asks && p.top != bid
      && Distinct(p.rest) && p.top !in p.rest && bid !in p.rest
      && IsHeap(AskPriority(amt), p.rest)
      && IsHeap(AskPriority(Fill(amt, bid, p.top)), p.rest)
      && (forall o :: o in asks ==> p.top.SqrtPrice <= o.SqrtPrice)
      && (forall o :: o in p.rest ==> o in asks)
      && (forall o :: o in p.rest ==> Amt(Fill(amt, bid, p.top), o) == Amt(amt, o))
  {
    var pr := AskPriority(amt);
    var p := PopSeq(pr, asks);
    PopNotIn(pr, asks, bid);
    DistinctRemove(asks, p.rest, p.top);
    PopKeepsHeap(pr, asks);
    forall o | o in asks
      ensures p.top.SqrtPrice <= o.SqrtPrice
    {
      RootBeatsMember(pr, asks, o);
    }
    forall o | o in p.rest
      ensures o in asks && Amt(Fill(amt, bid, p.top), o) == Amt(amt, o)
    {
      PopMember(pr, asks, o);
      FillTakesMatchSize(amt, bid, p.top, o);
    }
    IsHeapFrame(pr, AskPriority(Fill(amt, bid, p.top)), p.rest);
  }

  /** Pushing the popped ask back (line 90) restores a valid heap without repeats. */
  lemma PushBackStep(asks: seq<Order>, amt: map<Order, Word>)
    requires |asks| > 0 && Distinct(asks) && IsHeap(AskPriority(amt), asks)
    ensures var p := PopSeq(AskPriority(amt), asks);
      var h := PushSeq(AskPriority(amt), p.rest, p.top);
      && Distinct(h) && IsHeap(AskPriority(amt), h)
      && (forall o :: o in h <==> o in asks)
  {
    var pr := AskPriority(amt);
    var p := PopSeq(pr, asks);
    var h := PushSeq(pr, p.rest, p.top);
    DistinctRemove(asks, p.rest, p.top);
    DistinctAdd(h, p.rest, p.top);
    PopKeepsHeap(pr, asks);
    PushKeepsHeap(pr, p.rest, p.top);
    forall o
      ensures o in h <==> o in asks
    {
      PushMember(pr, p.rest, p.top, o);
      PopMember(pr, asks, o);
    }
  }

  /** The asks of `r` form a valid heap without repeats, made of asks of `asks` with their amounts under `amt`. */
  predicate KeepsBook(asks: seq<Order>, amt: map<Order, Word>, r: Consumed) {
    && Distinct(r.asks) && IsHeap(AskPriority(r.amt), r.asks)
    && (forall o :: o in r.asks ==> o in asks && Amt(r.amt, o) == Amt(amt, o))
  }

  /** `KeepsBook` after a first ask that does not cross (lines 88-91). */
  lemma KeepsBookNoCross(bid: Order, asks: seq<Order>, amt: map<Order, Word>, fills: seq<Order>)
    requires bid !in asks && Distinct(asks) && IsHeap(AskPriority(amt), asks)
    requires |asks| > 0 && BelowAsk(bid, PopSeq(AskPriority(amt), asks).top)
    ensures KeepsBook(asks, amt, Consume(bid, asks, amt, fills))
  {
    ConsumeUnfold(bid, asks, amt, fills);
    PushBackStep(asks, amt);
  }

  /** `KeepsBook` after a first match that fills the bid (lines 107-109). */
  lemma KeepsBookFilled(bid: Order, asks: seq<Order>, amt: map<Order, Word>, fills: seq<Order>)
    requires bid !in asks && Distinct(asks) && IsHeap(AskPriority(amt), asks)
    requires |asks| > 0 && !BelowAsk(bid, PopSeq(AskPriority(amt), asks).top)
    requires Amt(Fill(amt, bid, PopSeq(AskPriority(amt), asks).top), bid) == 0
    ensures KeepsBook(asks, amt, Consume(bid, asks, amt, fills))
  {
    ConsumeUnfold(bid, asks, amt, fills);
    PopAskStep(bid, asks, amt);
  }

  /** `KeepsBook` carries over from the loop on the rest of the heap to the whole loop. */
  lemma KeepsBookNext(bid: Order, asks: seq<Order>, amt: map<Order, Word>, fills: seq<Order>)
    requires bid !in asks && Distinct(asks) && IsHeap(AskPriority(amt), asks)
    requires |asks| > 0 && !BelowAsk(bid, PopSeq(AskPriority(amt), asks).top)
    requires Amt(Fill(amt, bid, PopSeq(AskPriority(amt), asks).top), bid) != 0
    requires bid !in PopSeq(AskPriority(amt), asks).rest
    requires var p := PopSeq(AskPriority(amt), asks);
      KeepsBook(p.rest, Fill(amt, bid, p.top), Consume(bid, p.rest, Fill(amt, bid, p.top), fills + [p.top]))
    ensures KeepsBook(asks, amt, Consume(bid, asks, amt, fills))
  {
    ConsumeUnfold(bid, asks, amt, fills);
    PopAskStep(bid, asks, amt);
  }

  /**
   * The inner loop leaves a valid ask heap without repeats, made of asks that were in
   * the heap and whose amounts it did not change.
   */
  lemma {:induction false} ConsumeKeepsBook(bid: Order, asks: seq<Order>, amt: map<Order, Word>, fills: seq<Order>)
    requires bid !in asks && Distinct(asks) && IsHeap(AskPriority(amt), asks)
    ensures KeepsBook(asks, amt, Consume(bid, asks, amt, fills))
    decreases |asks|
  {
    if |asks| > 0 {
      var p := PopSeq(AskPriority(amt), asks);
      if BelowAsk(bid, p.top) {
        KeepsBookNoCross(bid, asks, amt, fills);
      } else if Amt(Fill(amt, bid, p.top), bid) == 0 {
        KeepsBookFilled(bid, asks, amt, fills);
      } else {
        PopAskStep(bid, asks, amt);
        ConsumeKeepsBook(bid, p.rest, Fill(amt, bid, p.top), fills + [p.top]);
        KeepsBookNext(bid, asks, amt, fills);
      }
    }
  }

  /** Line 88: the loop stops on a non-crossing ask only when every ask left is above the bid. */
  lemma {:induction false} ConsumeStopsBelow(bid: Order, asks: seq<Order>, amt: map<Order, Word>, fills: seq<Order>)
    requires bid !in asks && Distinct(asks) && IsHeap(AskPriority(amt), asks)
    ensures var r := Consume(bid, asks, amt, fills);
      r.exit == NoCross ==> forall o :: o in r.asks ==> bid.SqrtPrice < o.SqrtPrice
    decreases |asks|
  {
    if |asks| > 0 {
      var p := PopSeq(AskPriority(amt), asks);
      ConsumeUnfold(bid, asks, amt, fills);
      PopAskStep(bid, asks, amt);
      if BelowAsk(bid, p.top) {
        PushBackStep(asks, amt);
      } else if Amt(Fill(amt, bid, p.top), bid) != 0 {
        ConsumeStopsBelow(bid, p.rest, Fill(amt, bid, p.top), fills + [p.top]);
      }
    }
  }

  /** When no ask is above the bid, the loop never stops on a non-crossing ask. */
  lemma {:induction false} ConsumeCrossesAll(bid: Order, asks: seq<Order>, amt: map<Order, Word>, fills: seq<Order>)
    requires bid !in asks
    requires forall o :: o in asks ==> o.SqrtPrice <= bid.SqrtPrice
    ensures Consume(bid, asks, amt, fills).exit != NoCross
    decreases |asks|
  {
    if |asks| > 0 {
      var p := PopSeq(AskPriority(amt), asks);
      ConsumeUnfold(bid, asks, amt, fills);
      if Amt(Fill(amt, bid, p.top), bid) != 0 {
        assert forall o :: o in p.rest ==> o in asks by {
          forall o | o in p.rest
            ensures o in asks
          {
            PopMember(AskPriority(amt), asks, o);
          }
        }
        ConsumeCrossesAll(bid, p.rest, Fill(amt, bid, p.top), fills + [p.top]);
      }
    }
  }

  /**
   * From position `n` on, the fills of `r` are asks of `asks` that crossed the bid
   * (price at most the bid's), in ascending price.
   */
  predicate FillsOrdered(bid: Order, asks: seq<Order>, n: nat, r: Consumed) {
    && n <= |r.fills|
    && (forall k :: n <= k < |r.fills| ==> r.fills[k] in asks && r.fills[k].SqrtPrice <= bid.SqrtPrice)
    && (forall k :: n <= k < |r.fills| - 1 ==> r.fills[k].SqrtPrice <= r.fills[k + 1].SqrtPrice)
  }

  lemma FillsOrderedExtend(bid: Order, asks: seq<Order>, top: Order, rest: seq<Order>, n: nat, r: Consumed)
    requires top in asks && top.SqrtPrice <= bid.SqrtPrice
    requires forall o :: o in rest ==> o in asks && top.SqrtPrice <= o.SqrtPrice
    requires FillsOrdered(bid, rest, n + 1, r) && n < |r.fills| && r.fills[n] == top
    ensures FillsOrdered(bid, asks, n, r)
  {
  }

  /** `FillsOrdered` when the first ask ends the loop. */
  lemma FillsOrderedLast(bid: Order, asks: seq<Order>, amt: map<Order, Word>, fills: seq<Order>)
    requires bid !in asks && |asks| > 0
    requires var p := PopSeq(AskPriority(amt), asks);
      BelowAsk(bid, p.top) || Amt(Fill(amt, bid, p.top), bid) == 0
    ensures FillsOrdered(bid, asks, |fills|, Consume(bid, asks, amt, fills))
  {
    ConsumeUnfold(bid, asks, amt, fills);
  }

  /** `FillsOrdered` carries over from the loop on the rest of the heap. */
  lemma FillsOrderedNext(bid: Order, asks: seq<Order>, amt: map<Order, Word>, fills: seq<Order>)
    requires bid !in asks && Distinct(asks) && IsHeap(AskPriority(amt), asks) && |asks| > 0
    requires !BelowAsk(bid, PopSeq(AskPriority(amt), asks).top)
    requires Amt(Fill(amt, bid, PopSeq(AskPriority(amt), asks).top), bid) != 0
    requires bid !in PopSeq(AskPriority(amt), asks).rest
    requires var p := PopSeq(AskPriority(amt), asks);
      FillsOrdered(bid, p.rest, |fills| + 1, Consume(bid, p.rest, Fill(amt, bid, p.top), fills + [p.top]))
    ensures FillsOrdered(bid, asks, |fills|, Consume(bid, asks, amt, fills))
  {
    var p := PopSeq(AskPriority(amt), asks);
    var r := Consume(bid, p.rest, Fill(amt, bid, p.top), fills + [p.top]);
    ConsumeAppends(bid, p.rest, Fill(amt, bid, p.top), fills + [p.top]);
    ConsumeNext(bid, asks, amt, fills);
    PopAskStep(bid, asks, amt);
    PrefixOfPrefix(r.fills, fills, p.top);
    FillsOrderedExtend(bid, asks, p.top, p.rest, |fills|, r);
  }

  /**
   * Lines 94 and 116-118: the asks matched are asks of the heap whose price is at most
   * the bid's, recorded in pop order, which is ascending price.
   */
  lemma {:induction false} ConsumeFillsOrdered(bid: Order, asks: seq<Order>, amt: map<Order, Word>, fills: seq<Order>)
    requires bid !in asks && Distinct(asks) && IsHeap(AskPriority(amt), asks)
    ensures FillsOrdered(bid, asks, |fills|, Consume(bid, asks, amt, fills))
    decreases |asks|
  {
    if |asks| > 0 {
      var p := PopSeq(AskPriority(amt), asks);
      var amt' := Fill(amt, bid, p.top);
      if BelowAsk(bid, p.top) || Amt(amt', bid) == 0 {
        FillsOrderedLast(bid, asks, amt, fills);
      } else {
        PopAskStep(bid, asks, amt);
        ConsumeFillsOrdered(bid, p.rest, amt', fills + [p.top]);
        FillsOrderedNext(bid, asks, amt, fills);
      }
    }
  }

  /** Lines 107-109: with a positive bid amount, the loop ends on a fill exactly when the bid is used up. */
  lemma {:induction false} ConsumeExit(bid: Order, asks: seq<Order>, amt: map<Order, Word>, fills: seq<Order>)
    requires bid !in asks && Amt(amt, bid) > 0
    ensures var r := Consume(bid, asks, amt, fills);
      r.exit == BidFilled <==> Amt(r.amt, bid) == 0
    decreases |asks|
  {
    if |asks| > 0 {
      var p := PopSeq(AskPriority(amt), asks);
      var amt' := Fill(amt, bid, p.top);
      if BelowAsk(bid, p.top) || Amt(amt', bid) == 0 {
        ConsumeUnfold(bid, asks, amt, fills);
      } else {
        ConsumeNext(bid, asks, amt, fills);
        ConsumeExit(bid, p.rest, amt', fills + [p.top]);
      }
    }
  }

  /** From position `n` on, every fill of `r` has amount 0, except the last when `r` ended on a filled bid. */
  predicate Exhausted(n: nat, r: Consumed) {
    forall k :: n <= k < |r.fills| && (k < |r.fills| - 1 || r.exit != BidFilled) ==> Amt(r.amt, r.fills[k]) == 0
  }

  lemma ExhaustedLast(bid: Order, asks: seq<Order>, amt: map<Order, Word>, fills: seq<Order>)
    requires bid !in asks && |asks| > 0
    requires var p := PopSeq(AskPriority(amt), asks);
      BelowAsk(bid, p.top) || Amt(Fill(amt, bid, p.top), bid) == 0
    ensures Exhausted(|fills|, Consume(bid, asks, amt, fills))
  {
    ConsumeUnfold(bid, asks, amt, fills);
  }

  lemma ExhaustedNext(bid: Order, asks: seq<Order>, amt: map<Order, Word>, fills: seq<Order>)
    requires bid !in asks && Distinct(asks) && IsHeap(AskPriority(amt), asks) && |asks| > 0
    requires !BelowAsk(bid, PopSeq(AskPriority(amt), asks).top)
    requires Amt(Fill(amt, bid, PopSeq(AskPriority(amt), asks).top), bid) != 0
    requires bid !in PopSeq(AskPriority(amt), asks).rest
    requires var p := PopSeq(AskPriority(amt), asks);
      Exhausted(|fills| + 1, Consume(bid, p.rest, Fill(amt, bid, p.top), fills + [p.top]))
    ensures Exhausted(|fills|, Consume(bid, asks, amt, fills))
  {
    var p := PopSeq(AskPriority(amt), asks);
    var amt' := Fill(amt, bid, p.top);
    var fills' := fills + [p.top];
    var r := Consume(bid, p.rest, amt', fills');
    PopAskStep(bid, asks, amt);
    ConsumeFillsOrdered(bid, p.rest, amt', fills');
    ConsumeAppends(bid, p.rest, amt', fills');
    ConsumeFrame(bid, p.rest, amt', fills', p.top);
    ConsumeNext(bid, asks, amt, fills);
    PrefixOfPrefix(r.fills, fills, p.top);
    FillTakesMatchSize(amt, bid, p.top, p.top);
  }

  /**
   * Lines 104-113: every matched ask is used up, except possibly the last one when the
   * loop ended because the bid was used up; that one is dropped with what it has left.
   */
  lemma {:induction false} ConsumeExhausts(bid: Order, asks: seq<Order>, amt: map<Order, Word>, fills: seq<Order>)
    requires bid !in asks && Distinct(asks) && IsHeap(AskPriority(amt), asks)
    ensures Exhausted(|fills|, Consume(bid, asks, amt, fills))
    decreases |asks|
  {
    if |asks| > 0 {
      var p := PopSeq(AskPriority(amt), asks);
      var amt' := Fill(amt, bid, p.top);
      if BelowAsk(bid, p.top) || Amt(amt', bid) == 0 {
        ExhaustedLast(bid, asks, amt, fills);
      } else {
        PopAskStep(bid, asks, amt);
        ConsumeExhausts(bid, p.rest, amt', fills + [p.top]);
        ExhaustedNext(bid, asks, amt, fills);
      }
    }
  }


  /** With no fills carried in, the inner loop returns a split of the ask heap into remaining and matched asks. */
  lemma ConsumeSplits(bid: Order, asks: seq<Order>, amt: map<Order, Word>)
    requires bid !in asks
    ensures var r := Consume(bid, asks, amt, []);
      && bid !in r.asks
      && |r.asks| + |r.fills| == |asks|
      && (forall o :: o in r.asks ==> o in asks)
      && (forall o :: o in r.fills ==> o in asks)
  {
    var r := Consume(bid, asks, amt, []);
    ConsumeKeepsBidOut(bid, asks, amt, []);
    ConsumeConserves(bid, asks, amt, []);
    SplitMembers(asks, r.asks, r.fills);
  }

  /** The state the outer loop works on: both heaps, the amounts, and what it has reported so far. */
  datatype Engine = Engine(
    bids: seq<Order>,
    asks: seq<Order>,
    amt: map<Order, Word>,
    buyToSell: map<string, seq<string>>,
    hasBuyMatch: bool)

  predicate Disjoint(xs: seq<Order>, ys: seq<Order>) {
    forall o :: o in xs ==> o !in ys
  }

  /** The map values of line 94: the decimal ids of the matched asks. */
  function Ids(os: seq<Order>): (ids: seq<string>)
    ensures |ids| == |os| && forall k :: 0 <= k < |os| ==> ids[k] == FormatUint(os[k].Id)
  {
    seq(|os|, k requires 0 <= k < |os| => FormatUint(os[k].Id))
  }

  datatype Step = Crossed(e: Engine) | Stuck(e: Engine)

  /** `heap.Push` of `x` when `cond` holds (lines 89 and 121), else the heap unchanged. */
  function PushIf(cond: bool, pr: Priority, h: seq<Order>, x: Order): (r: seq<Order>)
    ensures multiset(r) == if cond then multiset(h) + multiset{x} else multiset(h)
    ensures forall o :: o in r ==> o in h || o == x
  {
    if cond then
      assert forall o :: o in PushSeq(pr, h, x) ==> o in h || o == x by {
        forall o | o in PushSeq(pr, h, x)
          ensures o in h || o == x
        {
          PushMember(pr, h, x, o);
        }
      }
      PushSeq(pr, h, x)
    else h
  }

  /** The bid heap after lines 89 and 120-123: `bid` pushed back once per push that applies. */
  function Requeued(bid: Order, rest: seq<Order>, c: Consumed): (r: seq<Order>)
    ensures forall o :: o in r ==> o in rest || o == bid
  {
    var bids1 := PushIf(c.exit == NoCross, BidPriority(c.amt), rest, bid);
    PushIf(Amt(c.amt, bid) > 0, BidPriority(c.amt), bids1, bid)
  }

  /**
   * Lines 116-123, after the inner loop `c` for the popped bid `bid` (the bid heap
   * without it is `rest`): record the matched ask ids under the bid's id, push the bid
   * back if it still has an amount. When the inner loop ended on a non-crossing ask the
   * bid was pushed once already (line 89), so it is then in the bid heap twice.
   */
  function Settle(e: Engine, bid: Order, rest: seq<Order>, c: Consumed): (r: Step)
    requires bid in e.bids && bid !in c.asks && Disjoint(e.bids, e.asks)
    requires forall o :: o in rest ==> o in e.bids
    requires forall o :: o in c.asks ==> o in e.asks
    ensures Disjoint(r.e.bids, r.e.asks)
    ensures forall o :: o in r.e.bids ==> o in e.bids
    ensures r.e.asks == c.asks && r.e.amt == c.amt
    ensures r.Stuck? <==> c.exit == NoCross
  {
    var bids2 := Requeued(bid, rest, c);
    var buyToSell := if |c.fills| > 0 then e.buyToSell[FormatUint(bid.Id) := Ids(c.fills)] else e.buyToSell;
    var e' := Engine(bids2, c.asks, c.amt, buyToSell, e.hasBuyMatch || |c.fills| > 0);
    if c.exit == NoCross then Stuck(e') else Crossed(e')
  }

  /**
   * One pass of lines 81-123: pop the best bid, let it consume asks, settle it. A
   * round whose inner loop ended on a non-crossing ask is `Stuck`.
   */
  function Round(e: Engine): (r: Step)
    requires |e.bids| > 0 && |e.asks| > 0 && Disjoint(e.bids, e.asks)
    ensures Disjoint(r.e.bids, r.e.asks)
    ensures forall o :: o in r.e.bids ==> o in e.bids
    ensures forall o :: o in r.e.asks ==> o in e.asks
    ensures r.Crossed? ==> |r.e.asks| < |e.asks|
  {
    var p := PopSeq(BidPriority(e.amt), e.bids);
    assert forall o :: o in p.rest ==> o in e.bids by {
      forall o | o in p.rest
        ensures o in e.bids
      {
        PopMember(BidPriority(e.amt), e.bids, o);
      }
    }
    var c := Consume(p.top, e.asks, e.amt, []);
    ConsumeSplits(p.top, e.asks, e.amt);
    ConsumeAppends(p.top, e.asks, e.amt, []);
    Settle(e, p.top, p.rest, c)
  }

  /** Where a stretch of the outer loop ends: at its exit, or after a round that made no progress. */
  datatype Outcome = Finished(e: Engine) | Stalled(e: Engine)

  /** The outer loop of lines 81-123, up to its exit or up to the first round that makes no progress. */
  function Run(e: Engine): (r: Outcome)
    requires Disjoint(e.bids, e.asks)
    ensures r.Finished? ==> |r.e.bids| == 0 || |r.e.asks| == 0
    ensures Disjoint(r.e.bids, r.e.asks)
    decreases |e.asks|
  {
    if |e.bids| == 0 || |e.asks| == 0 then Finished(e)
    else
      match Round(e)
      case Crossed(e') => Run(e')
      case Stuck(e') => Stalled(e')
  }

  /**
   * What the whole outer loop comes to: it exits, it reaches a book from which it never
   * exits (`DivergingStaysStuck`), or it was still running when the fuel ran out.
   */
  datatype Loop = Exited(e: Engine) | Diverged(e: Engine) | OutOfFuel(e: Engine)

  /**
   * Lines 81-123 as a whole. A stretch of crossing rounds (`Run`) needs no fuel. After a
   * round that made no progress the loop stops for good when the book is diverging;
   * otherwise, which happens only on slices that are not heaps (`ValidLoopDecided`), the
   * Go loop goes on and may still exit. `fuel` bounds how many such rounds are followed.
   */
  function MatchLoop(e: Engine, fuel: nat): (r: Loop)
    requires Disjoint(e.bids, e.asks)
    ensures r.Exited? ==> |r.e.bids| == 0 || |r.e.asks| == 0
    ensures r.Diverged? ==> Diverging(r.e)
    ensures r.OutOfFuel? ==> !Diverging(r.e)
    decreases fuel, 1
  {
    LoopFrom(Run(e), fuel)
  }

  /** The loop after a stretch of rounds that ended in `o`. */
  function LoopFrom(o: Outcome, fuel: nat): (r: Loop)
    requires Disjoint(o.e.bids, o.e.asks)
    requires o.Finished? ==> |o.e.bids| == 0 || |o.e.asks| == 0
    ensures r.Exited? ==> |r.e.bids| == 0 || |r.e.asks| == 0
    ensures r.Diverged? ==> Diverging(r.e)
    ensures r.OutOfFuel? ==> !Diverging(r.e)
    decreases fuel, 0
  {
    match o
    case Finished(e') => Exited(e')
    case Stalled(e') =>
      if Diverging(e') then Diverged(e')
      else if fuel == 0 then OutOfFuel(e')
      else MatchLoop(e', fuel - 1)
  }

  /**
   * The three results of `MatchOrders`, the fact that it never returns, or that it had not
   * returned when the fuel ran out.
   */
  datatype MatchResult =
    | Returned(buyToSell: Option<map<string, seq<string>>>, sellToBuy: Option<map<string, seq<string>>>, err: Option<Error>)
    | NeverReturns
    | Unresolved

  /**
   * Lines 165-176. The sell-side loop of lines 125-163 never starts, because the
   * first loop exits only with one heap empty, so `hasSellMatch` is false.
   */
  function ResultOf(l: Loop): (r: MatchResult)
    ensures r.NeverReturns? <==> l.Diverged?
    ensures r.Unresolved? <==> l.OutOfFuel?
  {
    match l
    case Diverged(_) => NeverReturns
    case OutOfFuel(_) => Unresolved
    case Exited(e) =>
      if !e.hasBuyMatch then Returned(None, None, Some(NoMatch))
      else Returned(Some(e.buyToSell), None, None)
  }

  /** The engine before the first round: nothing reported. */
  function Start(bids: seq<Order>, asks: seq<Order>, amt: map<Order, Word>): Engine {
    Engine(bids, asks, amt, map[], false)
  }

  // ---------------------------------------------------------------------------
  // Rounds on a valid book
  // ---------------------------------------------------------------------------

  /** Both heaps valid under the current amounts, no record twice, none on both sides. */
  predicate EngineValid(e: Engine) {
    && Distinct(e.bids) && Distinct(e.asks) && Disjoint(e.bids, e.asks)
    && IsHeap(BidPriority(e.amt), e.bids) && IsHeap(AskPriority(e.amt), e.asks)
  }

  /** The inner loop leaves the amounts of records that are not asks alone. */
  lemma BidsUnaffected(bid: Order, asks: seq<Order>, amt: map<Order, Word>, rest: seq<Order>)
    requires bid !in asks && Distinct(asks) && IsHeap(AskPriority(amt), asks)
    requires forall o :: o in rest ==> o !in asks && o != bid
    ensures forall o :: o in rest ==> Amt(Consume(bid, asks, amt, []).amt, o) == Amt(amt, o)
  {
    ConsumeFillsOrdered(bid, asks, amt, []);
    forall o | o in rest
      ensures Amt(Consume(bid, asks, amt, []).amt, o) == Amt(amt, o)
    {
      ConsumeFrame(bid, asks, amt, [], o);
    }
  }

  /** Popping the best bid of a valid book leaves a valid bid heap, also after its inner loop. */
  lemma PopBidStep(e: Engine)
    requires EngineValid(e) && |e.bids| > 0
    ensures var p := PopSeq(BidPriority(e.amt), e.bids);
      && p.top in e.bids && p.top !in e.asks && p.top !in p.rest && Distinct(p.rest)
      && (forall o :: o in p.rest ==> o in e.bids)
      && (forall o :: o in e.bids ==> o.SqrtPrice <= p.top.SqrtPrice)
      && IsHeap(BidPriority(Consume(p.top, e.asks, e.amt, []).amt), p.rest)
  {
    var pr := BidPriority(e.amt);
    var p := PopSeq(pr, e.bids);
    DistinctRemove(e.bids, p.rest, p.top);
    PopKeepsHeap(pr, e.bids);
    forall o | o in p.rest
      ensures o in e.bids && o !in e.asks && o != p.top
    {
      PopMember(pr, e.bids, o);
    }
    forall o | o in e.bids
      ensures o.SqrtPrice <= p.top.SqrtPrice
    {
      RootBeatsMember(pr, e.bids, o);
    }
    BidsUnaffected(p.top, e.asks, e.amt, p.rest);
    IsHeapFrame(pr, BidPriority(Consume(p.top, e.asks, e.amt, []).amt), p.rest);
  }

  /** A round that crossed keeps the book valid. */
  lemma RoundKeepsValid(e: Engine)
    requires EngineValid(e) && |e.bids| > 0 && |e.asks| > 0 && Round(e).Crossed?
    ensures EngineValid(Round(e).e)
  {
    var p := PopSeq(BidPriority(e.amt), e.bids);
    PopBidStep(e);
    var c := Consume(p.top, e.asks, e.amt, []);
    ConsumeKeepsBook(p.top, e.asks, e.amt, []);
    if Amt(c.amt, p.top) > 0 {
      PushKeepsHeap(BidPriority(c.amt), p.rest, p.top);
      DistinctAdd(PushSeq(BidPriority(c.amt), p.rest, p.top), p.rest, p.top);
    }
  }

  /**
   * A book on which no round can cross: both sides non-empty and every bid priced
   * below every ask. Nothing else is needed, not even valid heaps.
   */
  predicate Diverging(e: Engine) {
    Separated(e.bids, e.asks)
  }

  /** Both sides non-empty, no record on both, every bid priced below every ask. */
  predicate Separated(bids: seq<Order>, asks: seq<Order>) {
    && |bids| > 0 && |asks| > 0 && Disjoint(bids, asks)
    && (forall b, a :: b in bids && a in asks ==> b.SqrtPrice < a.SqrtPrice)
  }

  /** Settling a bid after a non-crossing ask, when every bid is at most it and every ask above it. */
  lemma SettleStuck(e: Engine, bid: Order, rest: seq<Order>, c: Consumed)
    requires bid in e.bids && bid !in c.asks && Disjoint(e.bids, e.asks)
    requires forall o :: o in rest ==> o in e.bids
    requires forall o :: o in c.asks ==> o in e.asks
    requires c.exit == NoCross && |c.asks| > 0
    requires forall o :: o in e.bids ==> o.SqrtPrice <= bid.SqrtPrice
    requires forall o :: o in c.asks ==> bid.SqrtPrice < o.SqrtPrice
    ensures Diverging(Settle(e, bid, rest, c).e)
  {
    var bids1 := PushIf(true, BidPriority(c.amt), rest, bid);
    assert bid in bids1;
    var bids2 := PushIf(Amt(c.amt, bid) > 0, BidPriority(c.amt), bids1, bid);
    assert |bids2| > 0;
  }

  /** A round on a valid book that hits a non-crossing ask leaves a diverging book. */
  lemma StuckRoundDiverges(e: Engine)
    requires EngineValid(e) && |e.bids| > 0 && |e.asks| > 0 && Round(e).Stuck?
    ensures Diverging(Round(e).e)
  {
    var p := PopSeq(BidPriority(e.amt), e.bids);
    PopBidStep(e);
    ConsumeSplits(p.top, e.asks, e.amt);
    ConsumeAppends(p.top, e.asks, e.amt, []);
    ConsumeStopsBelow(p.top, e.asks, e.amt, []);
    SettleStuck(e, p.top, p.rest, Consume(p.top, e.asks, e.amt, []));
  }

  /**
   * Lines 88-92 with 120-122: on a diverging book a round pops the best bid and the best
   * ask, pushes both back and pushes the bid a second time. Amounts and reports do not
   * change, the ask heap keeps its records, the bid heap grows by one (when the bid has
   * an amount), and the book is diverging again, so the loop never exits.
   */
  lemma DivergingStaysStuck(e: Engine)
    requires Diverging(e)
    ensures Round(e).Stuck?
    ensures var e' := Round(e).e;
      && Diverging(e')
      && e'.amt == e.amt && e'.buyToSell == e.buyToSell && e'.hasBuyMatch == e.hasBuyMatch
      && multiset(e'.asks) == multiset(e.asks)
      && |e'.bids| == |e.bids| + (if Amt(e.amt, e.bids[0]) > 0 then 1 else 0)
  {
    var p := PopSeq(BidPriority(e.amt), e.bids);
    var q := PopSeq(AskPriority(e.amt), e.asks);
    assert p.top in e.bids && q.top in e.asks;
    ConsumeUnfold(p.top, e.asks, e.amt, []);
    assert BelowAsk(p.top, q.top);
  }

  /** A stretch of rounds on a valid book stalls only on a diverging book. */
  lemma {:induction false} RunDiverges(e: Engine)
    requires EngineValid(e)
    ensures Run(e).Stalled? ==> Diverging(Run(e).e)
    decreases |e.asks|
  {
    if |e.bids| > 0 && |e.asks| > 0 {
      if Round(e).Crossed? {
        RoundKeepsValid(e);
        RunDiverges(Round(e).e);
      } else {
        StuckRoundDiverges(e);
      }
    }
  }

  /**
   * On a valid book the loop never runs out of fuel, and what it comes to is the same for
   * every fuel: the first round that makes no progress leaves a diverging book.
   */
  lemma ValidLoopDecided(e: Engine, fuel: nat)
    requires EngineValid(e)
    ensures !MatchLoop(e, fuel).OutOfFuel?
    ensures MatchLoop(e, fuel) == MatchLoop(e, 0)
  {
    RunDiverges(e);
  }

  /** A stretch that finished, or stalled on a diverging book, ends the loop whatever the fuel. */
  lemma LoopFromEnds(o: Outcome, fuel: nat)
    requires Disjoint(o.e.bids, o.e.asks) && (o.Finished? ==> |o.e.bids| == 0 || |o.e.asks| == 0)
    requires o.Finished? || Diverging(o.e)
    ensures LoopFrom(o, fuel) == if o.Finished? then Exited(o.e) else Diverged(o.e)
  {
  }

  /** After a stalled stretch on a book that is not diverging, the loop goes on with one unit of fuel less. */
  lemma LoopFromStep(o: Outcome, fuel: nat)
    requires Disjoint(o.e.bids, o.e.asks) && o.Stalled? && !Diverging(o.e) && fuel > 0
    ensures LoopFrom(o, fuel) == LoopFrom(Run(o.e), fuel - 1)
  {
  }

  /** The loop is its first stretch followed by what comes after it. */
  lemma LoopStarts(e: Engine, fuel: nat)
    requires Disjoint(e.bids, e.asks)
    ensures MatchLoop(e, fuel) == LoopFrom(Run(e), fuel)
  {
  }

  /** A stretch of rounds goes on after a round that crossed and stalls after one that did not. */
  lemma RoundOutcome(e: Engine)
    requires |e.bids| > 0 && |e.asks| > 0 && Disjoint(e.bids, e.asks)
    ensures Round(e).Crossed? ==> Run(e) == Run(Round(e).e)
    ensures Round(e).Stuck? ==> Run(e) == Stalled(Round(e).e)
  {
  }

  /** Every bid priced at least every ask. */
  predicate AllCross(e: Engine) {
    forall b, a :: b in e.bids && a in e.asks ==> a.SqrtPrice <= b.SqrtPrice
  }

  /** When every bid crosses every ask, the outer loop exits: `MatchOrders` returns. */
  lemma {:induction false} AllCrossFinishes(e: Engine, fuel: nat)
    requires Disjoint(e.bids, e.asks) && AllCross(e)
    ensures Run(e).Finished?
    ensures MatchLoop(e, fuel).Exited? && ResultOf(MatchLoop(e, fuel)).Returned?
    decreases |e.asks|
  {
    if |e.bids| > 0 && |e.asks| > 0 {
      var p := PopSeq(BidPriority(e.amt), e.bids);
      assert p.top in e.bids;
      ConsumeCrossesAll(p.top, e.asks, e.amt, []);
      AllCrossFinishes(Round(e).e, fuel);
      assert Round(e).Crossed?;
    }
  }

  // ---------------------------------------------------------------------------
  // What the engine reports
  // ---------------------------------------------------------------------------

  /** `hasBuyMatch` is set exactly when `buyToSell` has an entry, and no entry is empty. */
  predicate Reported(e: Engine) {
    && (e.hasBuyMatch <==> e.buyToSell != map[])
    && (forall k :: k in e.buyToSell ==> |e.buyToSell[k]| > 0)
  }

  lemma SettleReports(e: Engine, bid: Order, rest: seq<Order>, c: Consumed)
    requires bid in e.bids && bid !in c.asks && Disjoint(e.bids, e.asks)
    requires forall o :: o in rest ==> o in e.bids
    requires forall o :: o in c.asks ==> o in e.asks
    requires Reported(e)
    ensures Reported(Settle(e, bid, rest, c).e)
  {
    if |c.fills| > 0 {
      assert FormatUint(bid.Id) in Settle(e, bid, rest, c).e.buyToSell;
    }
  }

  lemma RoundReports(e: Engine)
    requires |e.bids| > 0 && |e.asks| > 0 && Disjoint(e.bids, e.asks) && Reported(e)
    ensures Reported(Round(e).e)
  {
    var p := PopSeq(BidPriority(e.amt), e.bids);
    PopMember(BidPriority(e.amt), e.bids, p.top);
    assert forall o :: o in p.rest ==> o in e.bids by {
      forall o | o in p.rest
        ensures o in e.bids
      {
        PopMember(BidPriority(e.amt), e.bids, o);
      }
    }
    ConsumeSplits(p.top, e.asks, e.amt);
    SettleReports(e, p.top, p.rest, Consume(p.top, e.asks, e.amt, []));
  }

  lemma {:induction false} RunReports(e: Engine)
    requires Disjoint(e.bids, e.asks) && Reported(e)
    ensures Reported(Run(e).e)
    decreases |e.asks|
  {
    if |e.bids| > 0 && |e.asks| > 0 {
      RoundReports(e);
      if Round(e).Crossed? {
        RunReports(Round(e).e);
      }
    }
  }

  lemma {:induction false} LoopReports(e: Engine, fuel: nat)
    requires Disjoint(e.bids, e.asks) && Reported(e)
    ensures Reported(MatchLoop(e, fuel).e)
    decreases fuel, 1
  {
    RunReports(e);
    LoopFromReports(Run(e), fuel);
  }

  lemma {:induction false} LoopFromReports(o: Outcome, fuel: nat)
    requires Disjoint(o.e.bids, o.e.asks) && Reported(o.e)
    requires o.Finished? ==> |o.e.bids| == 0 || |o.e.asks| == 0
    ensures Reported(LoopFrom(o, fuel).e)
    decreases fuel, 0
  {
    if o.Stalled? && !Diverging(o.e) && fuel > 0 {
      LoopReports(o.e, fuel - 1);
    }
  }

  /**
   * Lines 165-176 for a run from the start: when `MatchOrders` returns, it returns either
   * `ErrNoMatch` with two nil maps, exactly when no ask was matched, or the non-empty
   * `buyToSell` map with no error; `sellToBuy` is never returned.
   */
  lemma ResultMeaning(bids: seq<Order>, asks: seq<Order>, amt: map<Order, Word>, fuel: nat)
    requires Disjoint(bids, asks)
    ensures var o := MatchLoop(Start(bids, asks, amt), fuel);
      var r := ResultOf(o);
      r.Returned? ==>
        && r.sellToBuy.None?
        && (r.err == Some(NoMatch) <==> o.e.buyToSell == map[])
        && (r.err == Some(NoMatch) ==> r.buyToSell.None?)
        && (r.err != Some(NoMatch) ==> r.err.None? && r.buyToSell == Some(o.e.buyToSell))
        && (forall k :: k in o.e.buyToSell ==> |o.e.buyToSell[k]| > 0)
  {
    LoopReports(Start(bids, asks, amt), fuel);
  }

  /** Lines 165-167: with one side empty nothing is matched and the result is `ErrNoMatch`. */
  lemma OneSideEmptyIsNoMatch(bids: seq<Order>, asks: seq<Order>, amt: map<Order, Word>, fuel: nat)
    requires |bids| == 0 || |asks| == 0
    ensures ResultOf(MatchLoop(Start(bids, asks, amt), fuel)) == Returned(None, None, Some(NoMatch))
  {
  }
}
