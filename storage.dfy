/**
 * `OrderStorageService` of `internal/infra/service/order_storage_service.go`: rebuilds the
 * hook contract's order arrays from raw storage words, following the Solidity storage
 * layout. The length of a dynamic array sits at its slot `p`, its elements from
 * `keccak256(p)` on, four words per order (word 0 unused, then price, amount, matched
 * amount); a mapping entry for key `k` sits at `keccak256(pad32(k) ++ p)`.
 *
 * The storage read (the gio handler plus the decoding of its hex answer into a number)
 * and Keccak-256 are parameters: `read` is one fixed function for the whole call.
 */
module Storage {
  import opened Wrappers
  import opened Encoding
  import opened Domain

  /** One storage read: block hash, contract address and slot in; the number read, or the handler's error. */
  type Reader = (Word, Address, Word) -> Result<nat, Error>

  /** Keccak-256 over a byte string, left uninterpreted. */
  type Hasher = seq<Byte> -> Word

  // ---------------------------------------------------------------------------
  // Slot arithmetic
  // ---------------------------------------------------------------------------

  /** `BigToHash(slotHash + 1)`: the slot after `s`, wrapping to 0 after the last one. */
  function NextSlot(s: Word): (t: Word)
    ensures t == WrapWord(s + 1)
  {
    if s == WORD_MODULUS - 1 then 0 else s + 1
  }

  /** The slot `k` increments after `s`, as the loops reach it. */
  function Advance(s: Word, k: nat): Word {
    if k == 0 then s else NextSlot(Advance(s, k - 1))
  }

  /** The slot of word `j` of array element `i` when the elements start at `base`. */
  function ElementSlot(base: Word, i: nat, j: nat): Word {
    Advance(base, 4 * i + j)
  }

  lemma {:induction false} WrapSucc(x: nat)
    ensures WrapWord(WrapWord(x) + 1) == WrapWord(x + 1)
    decreases x
  {
    if x >= WORD_MODULUS {
      WrapSucc(x - WORD_MODULUS);
    }
  }

  /** `k` increments from `s` reach `(s + k) mod 2^256`. */
  lemma {:induction false} AdvanceWraps(s: Word, k: nat)
    ensures Advance(s, k) == WrapWord(s + k)
  {
    if k != 0 {
      AdvanceWraps(s, k - 1);
      WrapSucc(s + k - 1);
    }
  }

  /** Advancing one slot at a time walks the words of one element and then of the next. */
  lemma NextElementSlot(base: Word, i: nat, j: nat)
    ensures NextSlot(ElementSlot(base, i, j)) == ElementSlot(base, i, j + 1)
    ensures ElementSlot(base, i, 4) == ElementSlot(base, i + 1, 0)
  {
    assert 4 * i + 4 == 4 * (i + 1) + 0;
  }

  lemma ModSmall(x: nat, m: nat)
    requires x < m
    ensures x % m == x
  {
    ModUnique(x, m, 0, x);
  }

  /** The mapping entry of key `key` in the mapping at slot `slot`. */
  function MappingSlot(keccak: Hasher, key: Word, slot: Word): Word {
    keccak(Bytes32(key) + Bytes32(slot))
  }

  // ---------------------------------------------------------------------------
  // Conversions of the Go code
  // ---------------------------------------------------------------------------

  /** `big.Int.Int64()`: the low 64 bits, read as a two's-complement number. */
  function Int64Of(n: nat): (v: int)
    ensures -(INT64_LIMIT as int) <= v < INT64_LIMIT
    ensures n < INT64_LIMIT ==> v == n
    ensures v < 0 <==> Uint64Of(n) >= INT64_LIMIT
  {
    var lo := Uint64Of(n);
    if lo < INT64_LIMIT then lo else lo - UINT64_MODULUS
  }

  /** The `int64` keeps the low 64 bits of the number it was taken from. */
  lemma Int64OfLowBits(n: nat)
    ensures Int64Of(n) % UINT64_MODULUS == n % UINT64_MODULUS
  {
    TruncateMod(n, UINT64_MODULUS);
    var v := Int64Of(n);
    if v < 0 {
      ModUnique(v + UINT64_MODULUS, UINT64_MODULUS, 0, v + UINT64_MODULUS);
    } else {
      ModUnique(v, UINT64_MODULUS, 0, v);
    }
  }

  /** `uint256.MustFromBig` of a read: a number of 2^256 or more panics. */
  function ReadWord(read: Reader, blockHash: Word, hook: Address, slot: Word): (r: Result<Word, Error>)
    ensures var v := read(blockHash, hook, slot);
      && (r.Ok? <==> v.Ok? && v.value < WORD_MODULUS)
      && (r.Ok? ==> r.value == v.value)
      && (v.Err? ==> r == Err(v.error))
      && (v.Ok? && v.value >= WORD_MODULUS ==> r == Err(Panic))
  {
    match read(blockHash, hook, slot)
    case Err(e) => Err(e)
    case Ok(v) => if v < WORD_MODULUS then Ok(v) else Err(Panic)
  }

  /** `uint256.Sub(a, b).IsZero()`: the difference modulo 2^256 is zero. */
  function Sub256(a: Word, b: Word): Word {
    (a - b) % WORD_MODULUS
  }

  /** The wrapped difference is zero exactly when the two words are equal. */
  lemma Sub256Zero(a: Word, b: Word)
    ensures Sub256(a, b) == 0 <==> a == b
  {
    if a < b {
      ModUnique(a - b + WORD_MODULUS, WORD_MODULUS, 0, a - b + WORD_MODULUS);
      assert (a - b) % WORD_MODULUS == (a - b + WORD_MODULUS) % WORD_MODULUS;
    } else if a > b {
      ModUnique(a - b, WORD_MODULUS, 0, a - b);
    }
  }

  /** Prepends `xs` to a successful result; an error stays that error. */
  function Prepend<T>(xs: seq<T>, r: Result<seq<T>, Error>): (r': Result<seq<T>, Error>)
    ensures r.Err? ==> r' == r
  {
    match r
    case Ok(ys) => Ok(xs + ys)
    case Err(e) => Err(e)
  }

  lemma PrependPrepend<T>(xs: seq<T>, ys: seq<T>, r: Result<seq<T>, Error>)
    ensures Prepend(xs, Prepend(ys, r)) == Prepend(xs + ys, r)
  {
    if r.Ok? {
      assert xs + (ys + r.value) == xs + ys + r.value;
    }
  }

  lemma PrependNothing<T>(r: Result<seq<T>, Error>)
    ensures Prepend([], r) == r
  {
    if r.Ok? {
      assert [] + r.value == r.value;
    }
  }

  /**
   * `elem(i)`, ..., `elem(n - 1)` computed in index order, as both loops of
   * `FindOrdersBySlot` do: the first error ends the walk and is the result.
   */
  function Collect<T>(elem: nat -> Result<T, Error>, i: nat, n: nat): (r: Result<seq<T>, Error>)
    ensures r.Ok? && i <= n ==> |r.value| == n - i
    decreases n - i
  {
    if i >= n then Ok([])
    else
      match elem(i)
      case Err(e) => Err(e)
      case Ok(x) => Prepend([x], Collect(elem, i + 1, n))
  }

  /** All or nothing: the walk succeeds exactly when every element does, and lists them in order. */
  lemma {:induction false} CollectMeaning<T>(elem: nat -> Result<T, Error>, i: nat, n: nat)
    requires i <= n
    ensures var r := Collect(elem, i, n);
      && (r.Ok? <==> forall k :: i <= k < n ==> elem(k).Ok?)
      && (r.Ok? ==> forall k :: i <= k < n ==> r.value[k - i] == elem(k).value)
    decreases n - i
  {
    if i < n {
      CollectMeaning(elem, i + 1, n);
      var rest := Collect(elem, i + 1, n);
      if elem(i).Ok? && rest.Ok? {
        var r := [elem(i).value] + rest.value;
        assert Collect(elem, i, n) == Ok(r);
        forall k | i <= k < n
          ensures r[k - i] == elem(k).value
        {
          if k > i {
            assert r[k - i] == rest.value[k - (i + 1)];
          }
        }
      }
    }
  }

  /** The walk so far, `done`, extended by a successful element `i`. */
  lemma CollectGrows<T>(elem: nat -> Result<T, Error>, done: seq<T>, i: nat, n: nat, x: T)
    requires i < n && elem(i) == Ok(x)
    requires Collect(elem, 0, n) == Prepend(done, Collect(elem, i, n))
    ensures Collect(elem, 0, n) == Prepend(done + [x], Collect(elem, i + 1, n))
  {
    PrependPrepend(done, [x], Collect(elem, i + 1, n));
  }

  /** The walk so far, `done`, ended by a failing element `i`. */
  lemma CollectFails<T>(elem: nat -> Result<T, Error>, done: seq<T>, i: nat, n: nat)
    requires i < n && elem(i).Err?
    requires Collect(elem, 0, n) == Prepend(done, Collect(elem, i, n))
    ensures Collect(elem, 0, n) == Err(elem(i).error)
  {
  }

  /** On failure the error is the one of the first failing element. */
  lemma {:induction false} CollectError<T>(elem: nat -> Result<T, Error>, i: nat, n: nat)
    requires Collect(elem, i, n).Err?
    ensures exists k :: i <= k < n && elem(k) == Err(Collect(elem, i, n).error)
    decreases n - i
  {
    if elem(i).Ok? {
      CollectError(elem, i + 1, n);
    }
  }

  // ---------------------------------------------------------------------------
  // What one call reads and builds
  // ---------------------------------------------------------------------------

  /** `FindOrderStatus`: the cancel flag of `orderId` is set when its mapping entry holds exactly 1. */
  function FindOrderStatus(read: Reader, keccak: Hasher, hook: Address, orderId: nat, blockHash: Word, slot: Word): (r: Result<bool, Error>)
    ensures var v := read(blockHash, hook, MappingSlot(keccak, WrapWord(orderId), slot));
      && (r.Ok? <==> v.Ok?)
      && (r.Ok? ==> (r.value <==> v.value == 1))
      && (v.Err? ==> r == Err(v.error))
  {
    match read(blockHash, hook, MappingSlot(keccak, WrapWord(orderId), slot))
    case Err(e) => Err(e)
    case Ok(v) => Ok(v == 1)
  }

  /** Word `j` of element `i`, read at `ElementSlot(base, i, j)`. */
  function Words(read: Reader, blockHash: Word, hook: Address, base: Word, i: nat): nat -> Result<Word, Error> {
    (j: nat) => ReadWord(read, blockHash, hook, ElementSlot(base, i, j))
  }

  /**
   * The status a rebuilt order gets: closed when cancelled or fully matched. The code
   * tests the wrapped difference `Sub256(amount, matchedAmount)` for zero, which
   * `Sub256Zero` shows is the same test.
   */
  function StatusOf(cancelled: bool, amount: Word, matchedAmount: Word): (s: OrderStatus)
  {
    if cancelled || amount == matchedAmount then CancelledOrFulfilled else NotCancelledOrFulfilled
  }

  /**
   * Order `i` of the array: its four words, its cancel flag, then validation of the record
   * with id `uint64(i + 1)`.
   */
  function Element(read: Reader, keccak: Hasher, hook: Address, blockHash: Word, base: Word, statusSlot: Word, i: nat): Result<OrderData, Error>
  {
    match Collect(Words(read, blockHash, hook, base, i), 0, 4)
    case Err(e) => Err(e)
    case Ok(w) =>
      match FindOrderStatus(read, keccak, hook, i, blockHash, statusSlot)
      case Err(e) => Err(e)
      case Ok(cancelled) =>
        var d := OrderData(Uint64Of(i + 1), hook, w[1], w[2], w[3], None, StatusOf(cancelled, w[2], w[3]));
        if d.Validate().Some? then Err(d.Validate().value) else Ok(d)
  }

  /** The orders of the array, as functions of their index. */
  function Elements(read: Reader, keccak: Hasher, hook: Address, blockHash: Word, base: Word, statusSlot: Word): nat -> Result<OrderData, Error> {
    (i: nat) => Element(read, keccak, hook, blockHash, base, statusSlot, i)
  }

  /**
   * What order `i` becomes: id `i + 1`, the hook's address, no type, words 1-3 as price,
   * amount and matched amount, closed iff cancelled or fully matched; and when it fails.
   */
  lemma ElementMeaning(read: Reader, keccak: Hasher, hook: Address, blockHash: Word, base: Word, statusSlot: Word, i: nat)
    requires i < INT64_LIMIT
    ensures var r := Element(read, keccak, hook, blockHash, base, statusSlot, i);
      var w := Words(read, blockHash, hook, base, i);
      var cancelled := FindOrderStatus(read, keccak, hook, i, blockHash, statusSlot);
      && (r.Ok? <==>
            && (forall k :: 0 <= k < 4 ==> w(k).Ok?)
            && cancelled.Ok?
            && hook != ZERO_ADDRESS
            && w(1).value != 0
            && w(2).value != 0)
      && (r.Ok? ==>
            && r.value.id == i + 1 && r.value.hook == hook && r.value.orderType == None
            && r.value.sqrtPrice == w(1).value
            && r.value.amount == w(2).value
            && r.value.matchedAmount == w(3).value
            && (r.value.status == CancelledOrFulfilled <==> cancelled.value || r.value.amount == r.value.matchedAmount))
  {
    var w := Words(read, blockHash, hook, base, i);
    CollectMeaning(w, 0, 4);
    var ws := Collect(w, 0, 4);
    var cancelled := FindOrderStatus(read, keccak, hook, i, blockHash, statusSlot);
    if ws.Ok? && cancelled.Ok? {
      var v := ws.value;
      assert v[1] == w(1).value && v[2] == w(2).value && v[3] == w(3).value;
      var d := OrderData(i + 1, hook, v[1], v[2], v[3], None, StatusOf(cancelled.value, v[2], v[3]));
      assert Element(read, keccak, hook, blockHash, base, statusSlot, i) == if d.Validate().Some? then Err(d.Validate().value) else Ok(d);
    }
  }

  /**
   * The result of `FindOrdersBySlot`: the length word first (a zero length is the service's
   * `ErrNoOrdersFound`, a length whose low 64 bits are negative as an `int64` makes
   * `make` panic), then the elements from `keccak256(ordersSlot)`.
   */
  function Reconstruct(read: Reader, keccak: Hasher, hook: Address, blockHash: Word, ordersSlot: Word, statusSlot: Word): (r: Result<seq<OrderData>, Error>)
  {
    match read(blockHash, hook, ordersSlot)
    case Err(e) => Err(e)
    case Ok(len) =>
      if len == 0 then Err(StorageNoOrdersFound)
      else
        var n := Int64Of(len);
        if n < 0 then Err(Panic)
        else Collect(Elements(read, keccak, hook, blockHash, keccak(Bytes32(ordersSlot)), statusSlot), 0, n)
  }

  /**
   * A failed length read is the error; a zero length is the service's `ErrNoOrdersFound`;
   * a length whose `Int64` is negative panics in `make`. Otherwise the call succeeds
   * exactly when each of the first `Int64(length)` orders does, and returns exactly that
   * many orders in index order (for a length below 2^63 that is the length itself).
   */
  lemma ReconstructMeaning(read: Reader, keccak: Hasher, hook: Address, blockHash: Word, ordersSlot: Word, statusSlot: Word)
    ensures var r := Reconstruct(read, keccak, hook, blockHash, ordersSlot, statusSlot);
      var len := read(blockHash, hook, ordersSlot);
      var elem := Elements(read, keccak, hook, blockHash, keccak(Bytes32(ordersSlot)), statusSlot);
      && (len.Err? ==> r == Err(len.error))
      && (len == Ok(0) ==> r == Err(StorageNoOrdersFound))
      && (len.Ok? && len.value != 0 && Int64Of(len.value) < 0 ==> r == Err(Panic))
      && (len.Ok? && len.value != 0 && Int64Of(len.value) >= 0 ==>
            var n := Int64Of(len.value);
            && (r.Ok? <==> forall k :: 0 <= k < n ==> elem(k).Ok?)
            && (r.Ok? ==> |r.value| == n)
            && (r.Ok? ==> forall k :: 0 <= k < n ==> r.value[k] == elem(k).value))
  {
    var len := read(blockHash, hook, ordersSlot);
    if len.Ok? && len.value != 0 && Int64Of(len.value) >= 0 {
      var elem := Elements(read, keccak, hook, blockHash, keccak(Bytes32(ordersSlot)), statusSlot);
      assert Reconstruct(read, keccak, hook, blockHash, ordersSlot, statusSlot) == Collect(elem, 0, Int64Of(len.value));
      CollectMeaning(elem, 0, Int64Of(len.value));
    }
  }

  /** A length word of exactly 2^64 is non-zero, yet its `Int64` is 0: no orders and no error. */
  lemma ReconstructLength64(read: Reader, keccak: Hasher, hook: Address, blockHash: Word, ordersSlot: Word, statusSlot: Word)
    requires read(blockHash, hook, ordersSlot) == Ok(UINT64_MODULUS)
    ensures Reconstruct(read, keccak, hook, blockHash, ordersSlot, statusSlot) == Ok([])
  {
    assert Int64Of(UINT64_MODULUS) == 0;
  }

  /** The read never yields the domain's `ErrNoOrdersFound` (it is a transport). */
  ghost predicate ReadErrorsForeign(read: Reader) {
    forall b, a, s :: read(b, a, s) != Err(NoOrdersFound)
  }

  /** An order never fails with the domain's `ErrNoOrdersFound`. */
  lemma ElementNotDomainNoOrders(read: Reader, keccak: Hasher, hook: Address, blockHash: Word, base: Word, statusSlot: Word, i: nat)
    requires ReadErrorsForeign(read)
    ensures Element(read, keccak, hook, blockHash, base, statusSlot, i) != Err(NoOrdersFound)
  {
    var w := Words(read, blockHash, hook, base, i);
    if Collect(w, 0, 4).Err? {
      CollectError(w, 0, 4);
      var k :| 0 <= k < 4 && w(k) == Err(Collect(w, 0, 4).error);
      assert read(blockHash, hook, ElementSlot(base, i, k)) != Err(NoOrdersFound);
    }
    assert read(blockHash, hook, MappingSlot(keccak, WrapWord(i), statusSlot)) != Err(NoOrdersFound);
  }

  /**
   * The service never fails with the domain package's `ErrNoOrdersFound`: it reports an
   * empty array with its own, distinct `ErrNoOrdersFound`.
   */
  lemma ReconstructNotDomainNoOrders(read: Reader, keccak: Hasher, hook: Address, blockHash: Word, ordersSlot: Word, statusSlot: Word)
    requires ReadErrorsForeign(read)
    ensures Reconstruct(read, keccak, hook, blockHash, ordersSlot, statusSlot) != Err(NoOrdersFound)
  {
    assert read(blockHash, hook, ordersSlot) != Err(NoOrdersFound);
    var len := read(blockHash, hook, ordersSlot);
    if len.Ok? && len.value != 0 && Int64Of(len.value) >= 0 {
      var elem := Elements(read, keccak, hook, blockHash, keccak(Bytes32(ordersSlot)), statusSlot);
      var r := Collect(elem, 0, Int64Of(len.value));
      if r.Err? {
        CollectError(elem, 0, Int64Of(len.value));
        var k :| 0 <= k < Int64Of(len.value) && elem(k) == Err(r.error);
        ElementNotDomainNoOrders(read, keccak, hook, blockHash, keccak(Bytes32(ordersSlot)), statusSlot, k);
      }
    }
  }

  // ---------------------------------------------------------------------------
  // The service
  // ---------------------------------------------------------------------------

  /**
   * The inner loop of `FindOrdersBySlot`: the four words of order `i` into a fresh buffer,
   * one slot at a time from `slotHash`; `next` is where the following order starts.
   */
  method ReadOrderWords(read: Reader, blockHash: Word, hook: Address, ghost base: Word, ghost i: nat, slotHash: Word)
    returns (raw: array<Word>, err: Option<Error>, next: Word)
    requires slotHash == ElementSlot(base, i, 0)
    ensures var r := Collect(Words(read, blockHash, hook, base, i), 0, 4);
      && (r.Err? ==> err == Some(r.error))
      && (r.Ok? ==> err == None && fresh(raw) && raw.Length == 4 && raw[..] == r.value && next == ElementSlot(base, i + 1, 0))
  {
    raw := new Word[4];
    ghost var words := Words(read, blockHash, hook, base, i);
    next := slotHash;
    PrependNothing(Collect(words, 0, 4));
    assert raw[..0] == [];
    var j := 0;
    while j < 4
      invariant 0 <= j <= 4
      invariant next == ElementSlot(base, i, j)
      invariant Collect(words, 0, 4) == Prepend(raw[..j], Collect(words, j, 4))
    {
      var data := ReadWord(read, blockHash, hook, next);
      if data.Err? {
        return raw, Some(data.error), next;
      }
      PrependPrepend(raw[..j], [data.value], Collect(words, j + 1, 4));
      raw[j] := data.value;
      assert raw[..j + 1] == raw[..j] + [data.value];
      NextElementSlot(base, i, j);
      next := NextSlot(next);
      j := j + 1;
    }
    NextElementSlot(base, i, 4);
    assert raw[..4] == raw[..];
    assert Collect(words, 4, 4) == Ok([]);
    return raw, None, next;
  }

  /**
   * One turn of the outer loop of `FindOrdersBySlot`: the words of order `i`, its cancel
   * flag, its status, and `NewOrder` with id `i + 1`, the hook and no type.
   */
  method ReadOrder(read: Reader, keccak: Hasher, hook: Address, blockHash: Word, ghost base: Word, statusSlot: Word, i: nat, slotHash: Word)
    returns (order: Order?, err: Option<Error>, next: Word)
    requires i < INT64_LIMIT && slotHash == ElementSlot(base, i, 0)
    ensures err.None? <==> Elements(read, keccak, hook, blockHash, base, statusSlot)(i).Ok?
    ensures err.Some? ==> err.value == Elements(read, keccak, hook, blockHash, base, statusSlot)(i).error
    ensures err.None? ==> next == ElementSlot(base, i + 1, 0)
    ensures err.None? ==> order != null && fresh(order) && order.Data() == Elements(read, keccak, hook, blockHash, base, statusSlot)(i).value
  {
    assert Elements(read, keccak, hook, blockHash, base, statusSlot)(i) == Element(read, keccak, hook, blockHash, base, statusSlot, i);
    var raw, e, slot := ReadOrderWords(read, blockHash, hook, base, i, slotHash);
    if e.Some? {
      return null, e, slot;
    }
    next := slot;
    var isCancelled := FindOrderStatus(read, keccak, hook, i, blockHash, statusSlot);
    if isCancelled.Err? {
      return null, Some(isCancelled.error), next;
    }
    var isFulfilled := Sub256(raw[2], raw[3]) == 0;
    var orderStatus := NotCancelledOrFulfilled;
    if isCancelled.value || isFulfilled {
      orderStatus := CancelledOrFulfilled;
    }
    Sub256Zero(raw[2], raw[3]);
    assert orderStatus == StatusOf(isCancelled.value, raw[2], raw[3]);
    order, err := NewOrder(i + 1, hook, raw[1], raw[2], raw[3], None, orderStatus);
  }

  /**
   * The outer loop of `FindOrdersBySlot`: orders `0` to `n - 1` one after the other, the
   * slot advancing by one per word across all of them. Any failure returns no orders.
   */
  /**
   * One turn of the outer loop, as the walk sees it: either the walk fails with the error
   * of order `i`, or order `i` extends the records read so far.
   */
  method ReadNext(read: Reader, keccak: Hasher, hook: Address, blockHash: Word, ghost base: Word, statusSlot: Word,
                  ghost n: nat, i: nat, slotHash: Word, ghost datas: seq<OrderData>)
    returns (order: Order?, err: Option<Error>, next: Word)
    requires i < n < INT64_LIMIT && slotHash == ElementSlot(base, i, 0)
    requires var elem := Elements(read, keccak, hook, blockHash, base, statusSlot);
      Collect(elem, 0, n) == Prepend(datas, Collect(elem, i, n))
    ensures var elem := Elements(read, keccak, hook, blockHash, base, statusSlot);
      && (err.Some? ==> Collect(elem, 0, n) == Err(err.value))
      && (err.None? ==> next == ElementSlot(base, i + 1, 0) && order != null && fresh(order))
      && (err.None? ==> Collect(elem, 0, n) == Prepend(datas + [order.Data()], Collect(elem, i + 1, n)))
  {
    ghost var elem := Elements(read, keccak, hook, blockHash, base, statusSlot);
    order, err, next := ReadOrder(read, keccak, hook, blockHash, base, statusSlot, i, slotHash);
    if err.Some? {
      CollectFails(elem, datas, i, n);
    } else {
      CollectGrows(elem, datas, i, n, order.Data());
    }
  }

  /**
   * The outer loop of `FindOrdersBySlot`: orders `0` to `n - 1` one after the other, the
   * slot advancing by one per word across all of them. Any failure returns no orders.
   */
  method ReadOrders(read: Reader, keccak: Hasher, hook: Address, blockHash: Word, base: Word, statusSlot: Word, n: nat)
    returns (orders: seq<Order>, err: Option<Error>)
    requires n < INT64_LIMIT
    ensures var r := Collect(Elements(read, keccak, hook, blockHash, base, statusSlot), 0, n);
      && (r.Err? ==> orders == [] && err == Some(r.error))
      && (r.Ok? ==> err == None && |orders| == |r.value|)
      && (r.Ok? ==> forall k :: 0 <= k < |orders| ==> fresh(orders[k]) && orders[k].Data() == r.value[k])
  {
    ghost var elem := Elements(read, keccak, hook, blockHash, base, statusSlot);
    ghost var datas: seq<OrderData> := [];
    var slotHash := base;
    orders := [];
    var i := 0;
    PrependNothing(Collect(elem, 0, n));
    while i < n
      invariant 0 <= i <= n
      invariant slotHash == ElementSlot(base, i, 0)
      invariant |orders| == |datas| == i
      invariant forall k :: 0 <= k < i ==> fresh(orders[k]) && orders[k].Data() == datas[k]
      invariant Collect(elem, 0, n) == Prepend(datas, Collect(elem, i, n))
    {
      var order, e;
      order, e, slotHash := ReadNext(read, keccak, hook, blockHash, base, statusSlot, n, i, slotHash, datas);
      if e.Some? {
        return [], e;
      }
      orders := orders + [order];
      datas := datas + [order.Data()];
      i := i + 1;
    }
    assert Collect(elem, n, n) == Ok([]);
    return orders, None;
  }

  /**
   * `FindOrdersBySlot`: the length word at `ordersSlot`, then the orders stored from
   * `keccak256(ordersSlot)` on.
   */
  method FindOrdersBySlot(read: Reader, keccak: Hasher, hook: Address, blockHash: Word, ordersSlot: Word, statusSlot: Word)
    returns (orders: seq<Order>, err: Option<Error>)
    ensures var r := Reconstruct(read, keccak, hook, blockHash, ordersSlot, statusSlot);
      && (r.Err? ==> orders == [] && err == Some(r.error))
      && (r.Ok? ==> err == None && |orders| == |r.value|)
      && (r.Ok? ==> forall k :: 0 <= k < |orders| ==> fresh(orders[k]) && orders[k].Data() == r.value[k])
  {
    var res := read(blockHash, hook, ordersSlot);
    if res.Err? {
      return [], Some(res.error);
    }
    var arrayLength := res.value;
    if arrayLength == 0 {
      return [], Some(StorageNoOrdersFound);
    }
    var n := Int64Of(arrayLength);
    if n < 0 {
      // make with a negative capacity
      return [], Some(Panic);
    }
    orders, err := ReadOrders(read, keccak, hook, blockHash, keccak(Bytes32(ordersSlot)), statusSlot, n);
  }
}
