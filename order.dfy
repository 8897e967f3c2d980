/**
 * The order record of the order book, its validation and the error values the
 * core passes around.
 */
module Domain {
  import opened Wrappers
  import opened Encoding

  datatype OrderType = Buy | Sell

  /** The two-valued order status: "open" and "fulfilled_or_closed". */
  datatype OrderStatus = NotCancelledOrFulfilled | CancelledOrFulfilled

  /** Which guard of `Validate` rejected an order. */
  datatype InvalidReason = ZeroId | ZeroHook | ZeroSqrtPrice | ZeroAmount

  datatype Error =
    | InvalidOrder(reason: InvalidReason)     // wraps ErrInvalidOrder
    | OrderNotFound                           // ErrOrderNotFound
    | NoOrdersFound                           // the domain package's ErrNoOrdersFound
    | NoMatch                                 // ErrNoMatch
    | StorageNoOrdersFound                    // the storage service's own ErrNoOrdersFound, a different value
    | TransportFailed                         // the HTTP request to the storage endpoint failed
    | UnexpectedStatus(code: nat)             // the storage endpoint answered with a status other than 202
    | InvalidJson                             // the storage endpoint's body is not a response object
    | Panic                                   // a Go runtime panic (makeslice with a negative capacity, MustFromBig out of range)
    | TooFewArguments                         // fewer than four unpacked arguments
    | InvalidArgumentType(index: nat)         // unpacked argument `index` is not a *big.Int
    | NoOrdersWithType(orderType: OrderType)  // "no orders found with type ..."

  /** The fields of an order as a value. */
  datatype OrderData = OrderData(
    id: Uint64,
    hook: Address,
    sqrtPrice: Word,
    amount: Word,
    matchedAmount: Word,
    orderType: Option<OrderType>,
    status: OrderStatus)
  {
    /** The guard chain of `Validate`: the first zero field among id, hook, price, amount. */
    function Validate(): (r: Option<Error>)
      ensures r.None? <==> id != 0 && hook != ZERO_ADDRESS && sqrtPrice != 0 && amount != 0
      ensures r.Some? ==> r.value.InvalidOrder?
      ensures id == 0 ==> r == Some(InvalidOrder(ZeroId))
      ensures id != 0 && hook == ZERO_ADDRESS ==> r == Some(InvalidOrder(ZeroHook))
      ensures id != 0 && hook != ZERO_ADDRESS && sqrtPrice == 0 ==> r == Some(InvalidOrder(ZeroSqrtPrice))
      ensures id != 0 && hook != ZERO_ADDRESS && sqrtPrice != 0 && amount == 0 ==> r == Some(InvalidOrder(ZeroAmount))
    {
      if id == 0 then Some(InvalidOrder(ZeroId))
      else if hook == ZERO_ADDRESS then Some(InvalidOrder(ZeroHook))
      else if sqrtPrice == 0 then Some(InvalidOrder(ZeroSqrtPrice))
      else if amount == 0 then Some(InvalidOrder(ZeroAmount))
      else None
    }
  }

  /** Validation reads only id, hook, price and amount. */
  lemma ValidateIgnoresBookkeeping(d: OrderData, matched: Word, t: Option<OrderType>, s: OrderStatus)
    ensures d.(matchedAmount := matched, orderType := t, status := s).Validate() == d.Validate()
  {
  }

  /** A matched amount above the amount is not a validation error. */
  lemma OverMatchedOrderValidates(d: OrderData)
    requires d.id != 0 && d.hook != ZERO_ADDRESS && d.sqrtPrice != 0 && d.amount != 0
    requires d.matchedAmount > d.amount
    ensures d.Validate() == None
  {
  }

  /**
   * An order record. Amount and Type are updated in place by the matching engine and
   * the match use case; the other fields are never assigned after construction.
   */
  class Order {
    const Id: Uint64
    const Hook: Address
    const SqrtPrice: Word
    var Amount: Word
    const MatchedAmount: Word
    var Type: Option<OrderType>
    const Status: OrderStatus

    constructor (d: OrderData)
      ensures Data() == d
    {
      Id, Hook, SqrtPrice, Amount := d.id, d.hook, d.sqrtPrice, d.amount;
      MatchedAmount, Type, Status := d.matchedAmount, d.orderType, d.status;
    }

    function Data(): OrderData
      reads this
    {
      OrderData(Id, Hook, SqrtPrice, Amount, MatchedAmount, Type, Status)
    }

    function Validate(): Option<Error>
      reads this
    {
      Data().Validate()
    }
  }

  /** Builds the record; on a validation failure returns no record and the error. */
  method NewOrder(id: Uint64, hook: Address, sqrtPrice: Word, amount: Word, matchedAmount: Word,
                  orderType: Option<OrderType>, orderStatus: OrderStatus)
    returns (order: Order?, err: Option<Error>)
    ensures err == OrderData(id, hook, sqrtPrice, amount, matchedAmount, orderType, orderStatus).Validate()
    ensures err.None? <==> order != null
    ensures order != null ==>
      fresh(order) && order.Data() == OrderData(id, hook, sqrtPrice, amount, matchedAmount, orderType, orderStatus)
  {
    var o := new Order(OrderData(id, hook, sqrtPrice, amount, matchedAmount, orderType, orderStatus));
    err := o.Validate();
    if err.Some? {
      return null, err;
    }
    order := o;
  }
}
