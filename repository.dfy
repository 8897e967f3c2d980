/**
 * `OrderRepositoryInMemory` of `internal/infra/repository/order_repository_in_memory.go`:
 * one map from order id to order record, shared by buy and sell orders. Inserts
 * overwrite; the queries loop over the map in an order Go leaves unspecified, which
 * the model leaves open by picking each next key arbitrarily.
 */
module Repository {
  import opened Wrappers
  import opened Encoding
  import opened Domain

  /**
   * `orders` lists the records stored under the ids `ids`, each exactly once
   * (records under distinct ids have distinct ids, so no record twice).
   */
  ghost predicate ListsExactly(orders: seq<Order>, db: map<Uint64, Order>, ids: set<Uint64>) {
    && (forall k :: 0 <= k < |orders| ==> orders[k].Id in ids && orders[k].Id in db && db[orders[k].Id] == orders[k])
    && (forall id :: id in ids ==> id in db && db[id] in orders)
    && (forall i, j :: 0 <= i < j < |orders| ==> orders[i].Id != orders[j].Id)
  }

  /**
   * `orders` lists, each once, exactly the stored records that pass the filter: what the
   * typed queries return.
   */
  ghost predicate ListsSelected(orders: seq<Order>, db: map<Uint64, Order>, orderType: OrderType, status: Option<OrderStatus>)
    reads db.Values`Type
  {
    && (forall k :: 0 <= k < |orders| ==>
          orders[k].Id in db && db[orders[k].Id] == orders[k] && Picks(orders[k], orderType, status))
    && (forall id :: id in db && Picks(db[id], orderType, status) ==> db[id] in orders)
    && (forall i, j :: 0 <= i < j < |orders| ==> orders[i].Id != orders[j].Id)
  }

  /** Adding the record of a fresh id to the listing of the others. */
  lemma ListsExactlyAdd(orders: seq<Order>, db: map<Uint64, Order>, ids: set<Uint64>, id: Uint64)
    requires ListsExactly(orders, db, ids) && id in db && id !in ids && db[id].Id == id
    ensures ListsExactly(orders + [db[id]], db, ids + {id})
  {
    var orders' := orders + [db[id]];
    forall i, j | 0 <= i < j < |orders'|
      ensures orders'[i].Id != orders'[j].Id
    {
      if j == |orders| {
        assert orders'[i].Id in ids;
      }
    }
  }

  class OrderRepositoryInMemory {
    var db: map<Uint64, Order>

    /** Every record is stored under its own id (`CreateOrder` keys by `order.Id`, which never changes). */
    ghost predicate Valid()
      reads this
    {
      forall id :: id in db ==> db[id].Id == id
    }

    /** `NewOrderRepositoryInMemory`: works on the map the in-memory database holds. */
    constructor (orders: map<Uint64, Order>)
      requires forall id :: id in orders ==> orders[id].Id == id
      ensures db == orders && Valid()
    {
      db := orders;
    }

    /** Stores the order under its id, replacing whatever was there; never fails. */
    method CreateOrder(order: Order) returns (r: Order, err: Option<Error>)
      requires Valid()
      modifies this
      ensures Valid()
      ensures db == old(db)[order.Id := order]
      ensures r == order && err == None
    {
      db := db[order.Id := order];
      return order, None;
    }

    /** Every stored order exactly once, in no particular order; never an error. */
    method FindAllOrders() returns (orders: seq<Order>, err: Option<Error>)
      requires Valid()
      ensures ListsExactly(orders, db, db.Keys) && err == None
    {
      var keys := db.Keys;
      ghost var done: set<Uint64> := {};
      orders := [];
      while keys != {}
        invariant keys <= db.Keys && done == db.Keys - keys
        invariant ListsExactly(orders, db, done)
        decreases |keys|
      {
        var id :| id in keys;
        ListsExactlyAdd(orders, db, done, id);
        orders := orders + [db[id]];
        keys := keys - {id};
        done := done + {id};
      }
      err := None;
    }

    /**
     * The order stored under `id` if its type is `orderType`; `OrderNotFound` when the
     * id is absent or the stored type differs (a record with no type matches no type).
     */
    method FindOrderByTypeAndId(orderType: OrderType, id: Uint64) returns (order: Order?, err: Option<Error>)
      ensures err.None? <==> id in db && db[id].Type == Some(orderType)
      ensures err.None? ==> order == db[id]
      ensures err.Some? ==> order == null && err == Some(OrderNotFound)
    {
      if id !in db || db[id].Type != Some(orderType) {
        return null, Some(OrderNotFound);
      }
      return db[id], None;
    }

    /** The ids whose stored order has type `orderType` (and status `status`, when given). */
    ghost function IdsWith(orderType: OrderType, status: Option<OrderStatus>): set<Uint64>
      reads this`db, db.Values`Type
    {
      set id | id in db && Picks(db[id], orderType, status)
    }

    /**
     * The loop both filtered queries run: every stored order passing the filter, once each,
     * in the order the keys happen to be visited.
     */
    method Select(orderType: OrderType, status: Option<OrderStatus>) returns (orders: seq<Order>)
      requires Valid()
      ensures ListsExactly(orders, db, IdsWith(orderType, status))
    {
      var keys := db.Keys;
      ghost var done: set<Uint64> := {};
      ghost var sel: set<Uint64> := {};
      orders := [];
      while keys != {}
        invariant keys <= db.Keys && done == db.Keys - keys
        invariant SelectedAmong(db, done, sel, orderType, status)
        invariant ListsExactly(orders, db, sel)
        decreases |keys|
      {
        var id :| id in keys;
        var order := db[id];
        SelectStep(orders, db, done, sel, id, orderType, status);
        if Picks(order, orderType, status) {
          orders := orders + [order];
          sel := sel + {id};
        }
        keys := keys - {id};
        done := done + {id};
      }
      assert sel == IdsWith(orderType, status);
    }

    /** Exactly the stored orders of type `orderType`, each once, possibly none; never an error. */
    method FindOrdersByType(orderType: OrderType) returns (orders: seq<Order>, err: Option<Error>)
      requires Valid()
      ensures ListsSelected(orders, db, orderType, None) && err == None
    {
      orders := Select(orderType, None);
      SelectedListing(orders, orderType, None);
      err := None;
    }

    /**
     * Exactly the stored orders of type `orderType` and status `status`, each once. The
     * repository file declares no such method; this is the query the match use case
     * relies on, modelled as the type filter with a status filter added.
     */
    method FindOrdersByTypeAndStatus(orderType: OrderType, status: OrderStatus) returns (orders: seq<Order>, err: Option<Error>)
      requires Valid()
      ensures ListsSelected(orders, db, orderType, Some(status)) && err == None
    {
      orders := Select(orderType, Some(status));
      SelectedListing(orders, orderType, Some(status));
      err := None;
    }

    /** Listing the selected ids is listing the stored records that pass the filter. */
    lemma SelectedListing(orders: seq<Order>, orderType: OrderType, status: Option<OrderStatus>)
      requires ListsExactly(orders, db, IdsWith(orderType, status))
      ensures ListsSelected(orders, db, orderType, status)
    {
      forall id | id in db && Picks(db[id], orderType, status)
        ensures db[id] in orders
      {
        assert id in IdsWith(orderType, status);
      }
    }
  }

  /** The filter of the typed queries: the type, and the status when one is asked for. */
  predicate Picks(o: Order, orderType: OrderType, status: Option<OrderStatus>)
    reads o`Type
  {
    o.Type == Some(orderType) && (status.None? || o.Status == status.value)
  }

  /** `sel` is the part of `done` whose records pass the filter. */
  ghost predicate SelectedAmong(db: map<Uint64, Order>, done: set<Uint64>, sel: set<Uint64>, orderType: OrderType, status: Option<OrderStatus>)
    reads db.Values`Type
  {
    forall i :: i in sel <==> i in done && i in db && Picks(db[i], orderType, status)
  }

  /** One visit of the selection loop keeps both of its invariants. */
  lemma SelectStep(orders: seq<Order>, db: map<Uint64, Order>, done: set<Uint64>, sel: set<Uint64>, id: Uint64, orderType: OrderType, status: Option<OrderStatus>)
    requires id in db && id !in done && db[id].Id == id
    requires SelectedAmong(db, done, sel, orderType, status) && ListsExactly(orders, db, sel)
    ensures var pick := Picks(db[id], orderType, status);
      var orders' := if pick then orders + [db[id]] else orders;
      var sel' := if pick then sel + {id} else sel;
      SelectedAmong(db, done + {id}, sel', orderType, status) && ListsExactly(orders', db, sel')
  {
    if Picks(db[id], orderType, status) {
      ListsExactlyAdd(orders, db, sel, id);
    }
  }
}
