/**
 * The two priority queues of the order book: `MaxHeap` (bids) and `MinHeap` (asks),
 * driven by Go's `container/heap` (binary heap in a slice, `up`/`down` sifting).
 *
 * The sifts are first defined as functions on sequences (`SiftUp`, `SiftDown`,
 * `PushSeq`, `PopSeq`), with the heap property and its preservation proved about
 * them; the class `OrderHeap` then implements the same loops in place and is proved
 * equal to those functions.
 *
 * The order of two records depends on their current amounts, which the matching
 * engine changes in place; a `Priority` carries the amounts the comparison sees.
 */
module Heap {
  import opened Encoding
  import opened Domain

  /** The amount `amt` records for `o`; zero for a record it does not list. */
  function Amt(amt: map<Order, Word>, o: Order): Word {
    if o in amt then amt[o] else 0
  }

  /**
   * `MaxHeap.Less` (isMax) and `MinHeap.Less` on the keys of two records: at equal
   * price the larger amount comes first; otherwise the higher price (bids) or the
   * lower price (asks) comes first.
   */
  predicate Before(isMax: bool, p1: nat, a1: nat, p2: nat, a2: nat) {
    if p1 == p2 then a1 > a2 else if isMax then p1 > p2 else p1 < p2
  }

  /** Which heap, and the amounts the records hold when it is consulted. */
  datatype Priority = Priority(isMax: bool, amt: map<Order, Word>)

  predicate Precedes(pr: Priority, x: Order, y: Order) {
    Before(pr.isMax, x.SqrtPrice, Amt(pr.amt, x), y.SqrtPrice, Amt(pr.amt, y))
  }

  /** Bid order: higher price first; at equal price the larger amount, whatever the ids. */
  lemma BidOrder(amt: map<Order, Word>, x: Order, y: Order)
    ensures Precedes(Priority(true, amt), x, y) <==>
      x.SqrtPrice > y.SqrtPrice || (x.SqrtPrice == y.SqrtPrice && Amt(amt, x) > Amt(amt, y))
  {
  }

  /** Ask order: lower price first; at equal price the larger amount, whatever the ids. */
  lemma AskOrder(amt: map<Order, Word>, x: Order, y: Order)
    ensures Precedes(Priority(false, amt), x, y) <==>
      x.SqrtPrice < y.SqrtPrice || (x.SqrtPrice == y.SqrtPrice && Amt(amt, x) > Amt(amt, y))
  {
  }

  /** `Precedes` is a strict weak order, as `container/heap` requires of `sort.Interface`. */
  lemma PrecedesIsStrictWeakOrder(pr: Priority, x: Order, y: Order, z: Order)
    ensures !Precedes(pr, x, x)
    ensures Precedes(pr, x, y) ==> !Precedes(pr, y, x)
    ensures Precedes(pr, x, y) && Precedes(pr, y, z) ==> Precedes(pr, x, z)
    ensures !Precedes(pr, x, y) && !Precedes(pr, y, z) ==> !Precedes(pr, x, z)
  {
  }

  // ---------------------------------------------------------------------------
  // The heap algorithm on sequences
  // ---------------------------------------------------------------------------

  function SwapSeq(h: seq<Order>, i: nat, j: nat): (r: seq<Order>)
    requires i < |h| && j < |h|
    ensures |r| == |h| && r[i] == h[j] && r[j] == h[i]
    ensures forall k :: 0 <= k < |h| && k != i && k != j ==> r[k] == h[k]
    ensures multiset(r) == multiset(h)
  {
    h[i := h[j]][j := h[i]]
  }

  /** `container/heap.up`: move the element at `j` towards the root while it beats its parent. */
  function SiftUp(pr: Priority, h: seq<Order>, j: nat): (r: seq<Order>)
    requires j < |h|
    ensures |r| == |h| && multiset(r) == multiset(h)
    decreases j
  {
    if j == 0 then h
    else
      var i := (j - 1) / 2;
      if !Precedes(pr, h[j], h[i]) then h else SiftUp(pr, SwapSeq(h, i, j), i)
  }

  /**
   * `container/heap.down`: move the element at `i` away from the root, within the
   * first `n` positions, while its better child beats it.
   */
  function SiftDown(pr: Priority, h: seq<Order>, i: nat, n: nat): (r: seq<Order>)
    requires n <= |h|
    ensures |r| == |h| && multiset(r) == multiset(h) && r[n..] == h[n..]
    decreases n - i
  {
    var j1 := 2 * i + 1;
    if j1 >= n then h
    else
      var j := if j1 + 1 < n && Precedes(pr, h[j1 + 1], h[j1]) then j1 + 1 else j1;
      if !Precedes(pr, h[j], h[i]) then h
      else
        var h' := SwapSeq(h, i, j);
        assert h'[n..] == h[n..];
        SiftDown(pr, h', j, n)
  }

  /** One turn of `down`: stop at a child that does not precede, or swap with it and go on. */
  lemma SiftDownTurn(pr: Priority, h: seq<Order>, i: nat, n: nat, j: nat)
    requires n <= |h| && 2 * i + 1 < n
    requires j == if 2 * i + 2 < n && Precedes(pr, h[2 * i + 2], h[2 * i + 1]) then 2 * i + 2 else 2 * i + 1
    ensures !Precedes(pr, h[j], h[i]) ==> SiftDown(pr, h, i, n) == h
    ensures Precedes(pr, h[j], h[i]) ==> SiftDown(pr, h, i, n) == SiftDown(pr, SwapSeq(h, i, j), j, n)
  {
  }

  /** `heap.Push`: append, then sift the new last element up. */
  function PushSeq(pr: Priority, h: seq<Order>, x: Order): (r: seq<Order>)
    ensures |r| == |h| + 1 && multiset(r) == multiset(h) + multiset{x}
  {
    SiftUp(pr, h + [x], |h|)
  }

  datatype Popped = Popped(top: Order, rest: seq<Order>)

  /** `heap.Pop`: swap the root with the last element, sift the new root down, remove the last. */
  function PopSeq(pr: Priority, h: seq<Order>): (r: Popped)
    requires |h| > 0
    ensures r.top == h[0] && |r.rest| == |h| - 1
    ensures multiset(r.rest) + multiset{r.top} == multiset(h)
  {
    var n := |h| - 1;
    var d := SiftDown(pr, SwapSeq(h, 0, n), 0, n);
    assert d == d[..n] + [d[n]];
    Popped(d[n], d[..n])
  }

  // ---------------------------------------------------------------------------
  // The heap property
  // ---------------------------------------------------------------------------

  /** The element at `c` does not beat its parent. */
  predicate ParentOk(pr: Priority, h: seq<Order>, c: nat)
    requires 0 < c < |h|
  {
    !Precedes(pr, h[c], h[(c - 1) / 2])
  }

  /** No element among the first `n` beats its parent. */
  predicate HeapUpTo(pr: Priority, h: seq<Order>, n: nat)
    requires n <= |h|
  {
    forall c :: 0 < c < n ==> ParentOk(pr, h, c)
  }

  predicate IsHeap(pr: Priority, h: seq<Order>) {
    HeapUpTo(pr, h, |h|)
  }

  /** The root of a heap is beaten by no element. */
  lemma {:induction false} RootIsBest(pr: Priority, h: seq<Order>, k: nat)
    requires IsHeap(pr, h) && k < |h|
    ensures !Precedes(pr, h[k], h[0])
    decreases k
  {
    if k > 0 {
      var p := (k - 1) / 2;
      assert ParentOk(pr, h, k);
      RootIsBest(pr, h, p);
      PrecedesIsStrictWeakOrder(pr, h[k], h[p], h[0]);
    }
  }

  /** The heap property everywhere except at `j`, whose children also respect `j`'s parent. */
  predicate HeapExceptAt(pr: Priority, h: seq<Order>, j: nat)
    requires j < |h|
  {
    && (forall c :: 0 < c < |h| && c != j ==> ParentOk(pr, h, c))
    && (j > 0 ==> forall c :: 0 < c < |h| && (c - 1) / 2 == j ==> !Precedes(pr, h[c], h[(j - 1) / 2]))
  }

  lemma {:induction false} SiftUpRestores(pr: Priority, h: seq<Order>, j: nat)
    requires j < |h| && HeapExceptAt(pr, h, j)
    ensures IsHeap(pr, SiftUp(pr, h, j))
    decreases j
  {
    if j == 0 {
      assert IsHeap(pr, h);
    } else {
      var i := (j - 1) / 2;
      if Precedes(pr, h[j], h[i]) {
        var h' := SwapSeq(h, i, j);
        forall c | 0 < c < |h'| && c != i
          ensures ParentOk(pr, h', c)
        {
          var p := (c - 1) / 2;
          if c == j {
            PrecedesIsStrictWeakOrder(pr, h[j], h[i], h[i]);
          } else if p == j {
            assert h'[c] == h[c] && h'[p] == h[i];
          } else if p == i {
            assert ParentOk(pr, h, c);
            PrecedesIsStrictWeakOrder(pr, h[c], h[j], h[i]);
          } else {
            assert ParentOk(pr, h, c);
          }
        }
        if i > 0 {
          var g := (i - 1) / 2;
          forall c | 0 < c < |h'| && (c - 1) / 2 == i
            ensures !Precedes(pr, h'[c], h'[g])
          {
            assert ParentOk(pr, h, i);
            if c != j {
              assert ParentOk(pr, h, c);
              PrecedesIsStrictWeakOrder(pr, h[c], h[i], h[g]);
            }
          }
        }
        SiftUpRestores(pr, h', i);
      } else {
        forall c | 0 < c < |h|
          ensures ParentOk(pr, h, c)
        {
        }
      }
    }
  }

  /** The heap property among the first `n`, except between `i` and its children, which respect `i`'s parent. */
  predicate HeapExceptBelow(pr: Priority, h: seq<Order>, i: nat, n: nat)
    requires n <= |h|
  {
    && (forall c :: 0 < c < n && (c - 1) / 2 != i ==> ParentOk(pr, h, c))
    && (i > 0 ==> forall c :: 0 < c < n && (c - 1) / 2 == i ==> !Precedes(pr, h[c], h[(i - 1) / 2]))
  }

  /** Neither child of `i` (within `n`) beats the child `SiftDown` picks. */
  lemma BetterChild(pr: Priority, h: seq<Order>, i: nat, n: nat, j: nat)
    requires n <= |h| && 2 * i + 1 < n
    requires j == if 2 * i + 2 < n && Precedes(pr, h[2 * i + 2], h[2 * i + 1]) then 2 * i + 2 else 2 * i + 1
    ensures forall c :: 0 < c < n && (c - 1) / 2 == i ==> !Precedes(pr, h[c], h[j])
  {
    if 2 * i + 2 < n {
      PrecedesIsStrictWeakOrder(pr, h[2 * i + 2], h[2 * i + 1], h[2 * i + 1]);
    }
    PrecedesIsStrictWeakOrder(pr, h[2 * i + 1], h[2 * i + 1], h[2 * i + 1]);
  }

  /** Swapping `i` with its better child `j`, which beats it, moves the hole down to `j`. */
  lemma SwapDownStep(pr: Priority, h: seq<Order>, i: nat, n: nat, j: nat)
    requires n <= |h| && HeapExceptBelow(pr, h, i, n)
    requires 0 < j < n && (j - 1) / 2 == i && Precedes(pr, h[j], h[i])
    requires forall c :: 0 < c < n && (c - 1) / 2 == i ==> !Precedes(pr, h[c], h[j])
    ensures HeapExceptBelow(pr, SwapSeq(h, i, j), j, n)
  {
    var h' := SwapSeq(h, i, j);
    forall c | 0 < c < n && (c - 1) / 2 != j
      ensures ParentOk(pr, h', c)
    {
      var p := (c - 1) / 2;
      if c == j {
        PrecedesIsStrictWeakOrder(pr, h[j], h[i], h[i]);
      } else if p == i {
        assert h'[c] == h[c] && h'[p] == h[j];
      } else if c == i {
        assert h'[c] == h[j] && h'[p] == h[p];
      } else {
        assert ParentOk(pr, h, c);
      }
    }
    forall c | 0 < c < n && (c - 1) / 2 == j
      ensures !Precedes(pr, h'[c], h'[(j - 1) / 2])
    {
      assert ParentOk(pr, h, c);
    }
  }

  /** When the better child does not beat `i`, the first `n` form a heap already. */
  lemma SiftDownStops(pr: Priority, h: seq<Order>, i: nat, n: nat, j: nat)
    requires n <= |h| && HeapExceptBelow(pr, h, i, n)
    requires 0 < j < n && (j - 1) / 2 == i && !Precedes(pr, h[j], h[i])
    requires forall c :: 0 < c < n && (c - 1) / 2 == i ==> !Precedes(pr, h[c], h[j])
    ensures HeapUpTo(pr, h, n)
  {
    forall c | 0 < c < n
      ensures ParentOk(pr, h, c)
    {
      if (c - 1) / 2 == i {
        PrecedesIsStrictWeakOrder(pr, h[c], h[j], h[i]);
      }
    }
  }

  lemma {:induction false} SiftDownRestores(pr: Priority, h: seq<Order>, i: nat, n: nat)
    requires n <= |h| && HeapExceptBelow(pr, h, i, n)
    ensures HeapUpTo(pr, SiftDown(pr, h, i, n), n)
    decreases n - i, 1
  {
    var j1 := 2 * i + 1;
    if j1 >= n {
      assert SiftDown(pr, h, i, n) == h;
      forall c | 0 < c < n
        ensures ParentOk(pr, h, c)
      {
      }
    } else {
      var j := if j1 + 1 < n && Precedes(pr, h[j1 + 1], h[j1]) then j1 + 1 else j1;
      BetterChild(pr, h, i, n, j);
      if Precedes(pr, h[j], h[i]) {
        SiftDownSwaps(pr, h, i, n, j);
      } else {
        assert SiftDown(pr, h, i, n) == h;
        SiftDownStops(pr, h, i, n, j);
      }
    }
  }

  /** The step of `SiftDownRestores` that swaps `i` with its better child `j` and goes on from `j`. */
  lemma {:induction false} SiftDownSwaps(pr: Priority, h: seq<Order>, i: nat, n: nat, j: nat)
    requires n <= |h| && HeapExceptBelow(pr, h, i, n)
    requires j == if 2 * i + 2 < n && Precedes(pr, h[2 * i + 2], h[2 * i + 1]) then 2 * i + 2 else 2 * i + 1
    requires j < n && Precedes(pr, h[j], h[i])
    requires forall c :: 0 < c < n && (c - 1) / 2 == i ==> !Precedes(pr, h[c], h[j])
    ensures HeapUpTo(pr, SiftDown(pr, h, i, n), n)
    decreases n - i, 0
  {
    var h' := SwapSeq(h, i, j);
    assert SiftDown(pr, h, i, n) == SiftDown(pr, h', j, n);
    SwapDownStep(pr, h, i, n, j);
    SiftDownRestores(pr, h', j, n);
  }

  /** `heap.Push` keeps a heap a heap. */
  lemma PushKeepsHeap(pr: Priority, h: seq<Order>, x: Order)
    requires IsHeap(pr, h)
    ensures IsHeap(pr, PushSeq(pr, h, x))
  {
    var h' := h + [x];
    forall c | 0 < c < |h'| && c != |h|
      ensures ParentOk(pr, h', c)
    {
      assert ParentOk(pr, h, c);
    }
    SiftUpRestores(pr, h', |h|);
  }

  /** Moving the last element to the root leaves a heap except below the root. */
  lemma SwapRootLast(pr: Priority, h: seq<Order>)
    requires IsHeap(pr, h) && |h| > 0
    ensures HeapExceptBelow(pr, SwapSeq(h, 0, |h| - 1), 0, |h| - 1)
  {
    var n := |h| - 1;
    var h1 := SwapSeq(h, 0, n);
    forall c | 0 < c < n && (c - 1) / 2 != 0
      ensures ParentOk(pr, h1, c)
    {
      assert ParentOk(pr, h, c);
    }
  }

  lemma HeapPrefix(pr: Priority, d: seq<Order>, n: nat)
    requires n <= |d| && HeapUpTo(pr, d, n)
    ensures IsHeap(pr, d[..n])
  {
    forall c | 0 < c < n
      ensures ParentOk(pr, d[..n], c)
    {
      assert ParentOk(pr, d, c);
    }
  }

  /** `heap.Pop` returns an element no other element beats, and leaves a heap. */
  lemma PopKeepsHeap(pr: Priority, h: seq<Order>)
    requires IsHeap(pr, h) && |h| > 0
    ensures IsHeap(pr, PopSeq(pr, h).rest)
    ensures forall k :: 0 <= k < |h| ==> !Precedes(pr, h[k], PopSeq(pr, h).top)
  {
    var n := |h| - 1;
    SwapRootLast(pr, h);
    SiftDownRestores(pr, SwapSeq(h, 0, n), 0, n);
    HeapPrefix(pr, SiftDown(pr, SwapSeq(h, 0, n), 0, n), n);
    forall k | 0 <= k < |h|
      ensures !Precedes(pr, h[k], h[0])
    {
      RootIsBest(pr, h, k);
    }
  }

  /** A push adds exactly the pushed element. */
  lemma PushMember(pr: Priority, h: seq<Order>, x: Order, o: Order)
    ensures o in PushSeq(pr, h, x) <==> o in h || o == x
  {
    assert multiset(PushSeq(pr, h, x))[o] == multiset(h)[o] + multiset{x}[o];
  }

  /** A pop removes exactly the returned element, which was in the heap. */
  lemma PopMember(pr: Priority, h: seq<Order>, o: Order)
    requires |h| > 0
    ensures PopSeq(pr, h).top in h
    ensures o in h <==> o in PopSeq(pr, h).rest || o == PopSeq(pr, h).top
  {
    var p := PopSeq(pr, h);
    assert multiset(h)[o] == multiset(p.rest)[o] + multiset{p.top}[o];
  }

  /** No element of a heap precedes its root. */
  lemma RootBeatsMember(pr: Priority, h: seq<Order>, o: Order)
    requires IsHeap(pr, h) && o in h
    ensures !Precedes(pr, o, h[0])
  {
    var k :| 0 <= k < |h| && h[k] == o;
    RootIsBest(pr, h, k);
  }

  /** The heap property reads only the amounts of the elements in the heap. */
  lemma IsHeapFrame(pr1: Priority, pr2: Priority, h: seq<Order>)
    requires pr1.isMax == pr2.isMax
    requires forall k :: 0 <= k < |h| ==> Amt(pr1.amt, h[k]) == Amt(pr2.amt, h[k])
    ensures IsHeap(pr1, h) <==> IsHeap(pr2, h)
  {
    forall c | 0 < c < |h|
      ensures ParentOk(pr1, h, c) <==> ParentOk(pr2, h, c)
    {
      assert (c - 1) / 2 < |h|;
    }
  }

  // ---------------------------------------------------------------------------
  // The heaps as objects
  // ---------------------------------------------------------------------------

  /**
   * A `MaxHeap` (IsMax) or a `MinHeap`: a slice of record references that the
   * methods rearrange in place.
   */
  class OrderHeap {
    const IsMax: bool
    var items: seq<Order>

    constructor (isMax: bool)
      ensures IsMax == isMax && items == []
    {
      IsMax := isMax;
      items := [];
    }

    function Len(): nat
      reads this`items
    {
      |items|
    }

    /** The amounts the records hold now are the ones `amt` lists. */
    ghost predicate Tracks(amt: map<Order, Word>)
      reads this`items, items`Amount
    {
      forall o :: o in items ==> o.Amount == Amt(amt, o)
    }

    /** `MaxHeap.Less` / `MinHeap.Less` on the records' current fields. */
    predicate Less(i: nat, j: nat)
      requires i < |items| && j < |items|
      reads this`items, items`Amount
    {
      Before(IsMax, items[i].SqrtPrice, items[i].Amount, items[j].SqrtPrice, items[j].Amount)
    }

    lemma LessAgrees(amt: map<Order, Word>, i: nat, j: nat)
      requires Tracks(amt) && i < |items| && j < |items|
      ensures Less(i, j) == Precedes(Priority(IsMax, amt), items[i], items[j])
    {
      assert items[i] in items && items[j] in items;
    }

    /** A rearrangement of records `amt` tracked is tracked too. */
    lemma SameElementsTracked(amt: map<Order, Word>, before: seq<Order>)
      requires multiset(items) == multiset(before)
      requires forall o :: o in before ==> o.Amount == Amt(amt, o)
      ensures Tracks(amt)
    {
      forall o | o in items
        ensures o.Amount == Amt(amt, o)
      {
        assert o in multiset(items);
      }
    }

    method Swap(i: nat, j: nat)
      requires i < |items| && j < |items|
      modifies this`items
      ensures items == SwapSeq(old(items), i, j)
    {
      items := items[i := items[j]][j := items[i]];
    }

    /** The `Push` of the slice type: append only. */
    method Push(x: Order)
      modifies this`items
      ensures items == old(items) + [x]
    {
      items := items + [x];
    }

    /** The `Pop` of the slice type: remove and return the last element. */
    method Pop() returns (x: Order)
      requires |items| > 0
      modifies this`items
      ensures x == old(items)[|old(items)| - 1] && items == old(items)[..|old(items)| - 1]
    {
      x := items[|items| - 1];
      items := items[..|items| - 1];
    }

    method Up(j0: nat, ghost amt: map<Order, Word>)
      requires j0 < |items| && Tracks(amt)
      modifies this`items
      ensures items == SiftUp(Priority(IsMax, amt), old(items), j0)
      ensures Tracks(amt)
    {
      var j: nat := j0;
      while j > 0
        invariant j < |items| && Tracks(amt)
        invariant SiftUp(Priority(IsMax, amt), items, j) == SiftUp(Priority(IsMax, amt), old(items), j0)
        decreases j
      {
        var i: nat := (j - 1) / 2;
        LessAgrees(amt, j, i);
        if !Less(j, i) {
          break;
        }
        ghost var before := items;
        Swap(i, j);
        SameElementsTracked(amt, before);
        j := i;
      }
    }

    /** The child of `i` that `down` compares with `i`: the right one only when it beats the left one. */
    method BetterChild(i: nat, n: nat, ghost amt: map<Order, Word>) returns (j: nat)
      requires 2 * i + 1 < n <= |items| && Tracks(amt)
      ensures j == if 2 * i + 2 < n && Precedes(Priority(IsMax, amt), items[2 * i + 2], items[2 * i + 1])
        then 2 * i + 2 else 2 * i + 1
    {
      var j1 := 2 * i + 1;
      j := j1;
      if j1 + 1 < n {
        LessAgrees(amt, j1 + 1, j1);
        if Less(j1 + 1, j1) {
          j := j1 + 1;
        }
      }
    }

    method Down(i0: nat, n: nat, ghost amt: map<Order, Word>)
      requires n <= |items| && Tracks(amt)
      modifies this`items
      ensures items == SiftDown(Priority(IsMax, amt), old(items), i0, n)
      ensures Tracks(amt)
    {
      ghost var pr := Priority(IsMax, amt);
      var i: nat := i0;
      while true
        invariant n <= |items| && Tracks(amt)
        invariant SiftDown(pr, items, i, n) == SiftDown(pr, old(items), i0, n)
        decreases n - i
      {
        var j1 := 2 * i + 1;
        if j1 >= n {
          assert SiftDown(pr, items, i, n) == items;
          break;
        }
        var j := BetterChild(i, n, amt);
        LessAgrees(amt, j, i);
        SiftDownTurn(pr, items, i, n, j);
        if !Less(j, i) {
          break;
        }
        ghost var before := items;
        Swap(i, j);
        SameElementsTracked(amt, before);
        i := j;
      }
    }

    /** `heap.Push(h, x)`. */
    method HeapPush(x: Order, ghost amt: map<Order, Word>)
      requires Tracks(amt) && x.Amount == Amt(amt, x)
      modifies this`items
      ensures items == PushSeq(Priority(IsMax, amt), old(items), x)
      ensures Tracks(amt)
    {
      Push(x);
      Up(|items| - 1, amt);
    }

    /** `heap.Pop(h)`. */
    method HeapPop(ghost amt: map<Order, Word>) returns (x: Order)
      requires |items| > 0 && Tracks(amt)
      modifies this`items
      ensures x == PopSeq(Priority(IsMax, amt), old(items)).top
      ensures items == PopSeq(Priority(IsMax, amt), old(items)).rest
      ensures Tracks(amt)
    {
      var n := |items| - 1;
      Swap(0, n);
      Down(0, n, amt);
      x := Pop();
    }
  }
}
