/**
 * The stock bookkeeping of the order service, as functions of the product
 * table. The program has no separate ledger component: these functions are
 * what the two item loops inside the order service compute, and the service
 * methods that run those loops are proved to compute them. `Reserve` is what the item loop of order creation computes:
 * lines are checked and reserved one after the other, each check against the
 * stock left by the lines before it, and the first failing line aborts.
 * `Restock` is what the item loop of cancellation computes: every line whose
 * product still exists gives its quantity back.
 */
module StockLedger {
  import opened Entities

  /** A requested line of a new order. */
  datatype ItemRequest = ItemRequest(productId: int, quantity: int)

  /** Why a reservation aborts. */
  datatype Rejection =
    | ProductNotFound(productId: int)
    | InsufficientStock(productName: string, available: int, requested: int)

  datatype Reservation =
    | Reserved(stock: map<int, Product>, items: seq<OrderItem>)
    | Rejected(reason: Rejection)

  /** Stock and price are never negative (the range annotations on a product). */
  predicate CatalogValid(stock: map<int, Product>)
  {
    forall id :: id in stock ==> stock[id].stock >= 0 && stock[id].price >= 0
  }

  /** `after` holds the same products as `before`, differing at most in their stock. */
  ghost predicate SameCatalog(before: map<int, Product>, after: map<int, Product>)
  {
    && before.Keys == after.Keys
    && forall id :: id in before ==> after[id] == before[id].(stock := after[id].stock)
  }

  /** Total quantity requested for product `id`. */
  function Requested(reqs: seq<ItemRequest>, id: int): int
  {
    if reqs == [] then 0
    else (if reqs[0].productId == id then reqs[0].quantity else 0) + Requested(reqs[1..], id)
  }

  /** Total quantity of product `id` over the lines of an order. */
  function Ordered(items: seq<OrderItem>, id: int): int
  {
    if items == [] then 0
    else (if items[0].productId == id then items[0].quantity else 0) + Ordered(items[1..], id)
  }

  /**
   * Reserves `reqs` in order against `stock`, `acc` being the lines built so
   * far. Each line records the price of its product at that moment.
   */
  function ReserveFrom(stock: map<int, Product>, acc: seq<OrderItem>, reqs: seq<ItemRequest>): (r: Reservation)
    decreases |reqs|
    ensures r.Reserved? ==> r.stock.Keys == stock.Keys && |r.items| == |acc| + |reqs|
    ensures r.Rejected? ==> reqs != []
  {
    if reqs == [] then Reserved(stock, acc)
    else
      var q := reqs[0];
      if q.productId !in stock then Rejected(ProductNotFound(q.productId))
      else
        var p := stock[q.productId];
        if p.stock < q.quantity then Rejected(InsufficientStock(p.name, p.stock, q.quantity))
        else ReserveFrom(stock[q.productId := p.(stock := p.stock - q.quantity)],
                         acc + [OrderItem(q.productId, q.quantity, p.price)], reqs[1..])
  }

  /**
   * The reservation of a whole request list: on success one line per request,
   * and giving those lines back restores the product table exactly.
   */
  function Reserve(stock: map<int, Product>, reqs: seq<ItemRequest>): (r: Reservation)
    ensures r.Reserved? ==> |r.items| == |reqs| && Restock(r.stock, r.items) == stock
    ensures reqs == [] ==> r == Reserved(stock, [])
  {
    var r := ReserveFrom(stock, [], reqs);
    if r.Reserved? then
      ReserveThenRestock(stock, reqs);
      r
    else r
  }

  /**
   * Gives the quantity of one line back to its product, if that product still
   * exists; every other product, and every field but stock, is unchanged.
   */
  function Release(stock: map<int, Product>, item: OrderItem): (r: map<int, Product>)
    ensures SameCatalog(stock, r)
    ensures forall id :: id in stock && id != item.productId ==> r[id] == stock[id]
    ensures item.productId in stock ==> r[item.productId].stock == stock[item.productId].stock + item.quantity
  {
    if item.productId in stock then
      stock[item.productId := stock[item.productId].(stock := stock[item.productId].stock + item.quantity)]
    else stock
  }

  /**
   * Gives back every line: no product but its stock changes, a product that is
   * gone is not brought back, and every existing product's stock rises by its
   * quantity over the lines.
   */
  function Restock(stock: map<int, Product>, items: seq<OrderItem>): (r: map<int, Product>)
    ensures SameCatalog(stock, r)
    ensures forall id :: id in stock ==> r[id].stock == stock[id].stock + Ordered(items, id)
  {
    if items == [] then stock else Restock(Release(stock, items[0]), items[1..])
  }

  lemma {:induction false} RequestedNonNegative(reqs: seq<ItemRequest>, id: int)
    requires forall k :: 0 <= k < |reqs| ==> reqs[k].quantity >= 0
    ensures Requested(reqs, id) >= 0
  {
    if reqs != [] {
      RequestedNonNegative(reqs[1..], id);
    }
  }

  lemma {:induction false} OrderedNonNegative(items: seq<OrderItem>, id: int)
    requires ValidLines(items)
    ensures Ordered(items, id) >= 0
  {
    if items != [] {
      assert ValidLine(items[0]);
      OrderedNonNegative(items[1..], id);
    }
  }

  /**
   * A successful reservation changes no product but its stock, and lowers the
   * stock of every product by exactly the total quantity requested for it.
   */
  lemma {:induction false} ReserveStock(stock: map<int, Product>, acc: seq<OrderItem>, reqs: seq<ItemRequest>)
    decreases |reqs|
    requires ReserveFrom(stock, acc, reqs).Reserved?
    ensures SameCatalog(stock, ReserveFrom(stock, acc, reqs).stock)
    ensures forall id :: id in stock ==>
      ReserveFrom(stock, acc, reqs).stock[id].stock == stock[id].stock - Requested(reqs, id)
  {
    if reqs != [] {
      var q := reqs[0];
      var p := stock[q.productId];
      var next := stock[q.productId := p.(stock := p.stock - q.quantity)];
      ReserveStock(next, acc + [OrderItem(q.productId, q.quantity, p.price)], reqs[1..]);
    }
  }

  /**
   * A successful reservation appends one line per request, in request order,
   * each with the requested product and quantity and the product's price.
   */
  lemma {:induction false} ReserveItems(stock: map<int, Product>, acc: seq<OrderItem>, reqs: seq<ItemRequest>)
    decreases |reqs|
    requires ReserveFrom(stock, acc, reqs).Reserved?
    ensures var items := ReserveFrom(stock, acc, reqs).items;
      && |items| == |acc| + |reqs|
      && items[..|acc|] == acc
      && forall k :: 0 <= k < |reqs| ==>
           && reqs[k].productId in stock
           && items[|acc| + k] == OrderItem(reqs[k].productId, reqs[k].quantity, stock[reqs[k].productId].price)
  {
    if reqs != [] {
      var q := reqs[0];
      var p := stock[q.productId];
      var next := stock[q.productId := p.(stock := p.stock - q.quantity)];
      var acc' := acc + [OrderItem(q.productId, q.quantity, p.price)];
      ReserveItems(next, acc', reqs[1..]);
      var items := ReserveFrom(stock, acc, reqs).items;
      assert items[..|acc'|] == acc';
      assert items[..|acc|] == acc'[..|acc|];
      forall k | 0 <= k < |reqs|
        ensures reqs[k].productId in stock
        ensures items[|acc| + k] == OrderItem(reqs[k].productId, reqs[k].quantity, stock[reqs[k].productId].price)
      {
        if k == 0 {
          assert items[|acc|] == acc'[|acc|];
        } else {
          assert reqs[k] == reqs[1..][k - 1];
        }
      }
    }
  }

  /** Each check is made against the stock left so far, so stock stays non-negative. */
  lemma {:induction false} ReserveKeepsCatalogValid(stock: map<int, Product>, acc: seq<OrderItem>, reqs: seq<ItemRequest>)
    decreases |reqs|
    requires CatalogValid(stock)
    requires ReserveFrom(stock, acc, reqs).Reserved?
    ensures CatalogValid(ReserveFrom(stock, acc, reqs).stock)
  {
    if reqs != [] {
      var q := reqs[0];
      var p := stock[q.productId];
      var next := stock[q.productId := p.(stock := p.stock - q.quantity)];
      ReserveKeepsCatalogValid(next, acc + [OrderItem(q.productId, q.quantity, p.price)], reqs[1..]);
    }
  }

  /**
   * For quantities that are not negative, the line-by-line checks succeed
   * exactly when every requested product exists and no product is asked for
   * more than its stock in total.
   */
  lemma {:induction false} ReserveSucceedsIff(stock: map<int, Product>, acc: seq<OrderItem>, reqs: seq<ItemRequest>)
    decreases |reqs|
    requires CatalogValid(stock)
    requires forall k :: 0 <= k < |reqs| ==> reqs[k].quantity >= 0
    ensures ReserveFrom(stock, acc, reqs).Reserved? <==>
      && (forall k :: 0 <= k < |reqs| ==> reqs[k].productId in stock)
      && (forall id :: id in stock ==> Requested(reqs, id) <= stock[id].stock)
  {
    if reqs != [] {
      var q := reqs[0];
      var rest := reqs[1..];
      assert forall k :: 0 <= k < |rest| ==> rest[k] == reqs[k + 1];
      if q.productId in stock {
        var p := stock[q.productId];
        RequestedNonNegative(rest, q.productId);
        if p.stock >= q.quantity {
          var next := stock[q.productId := p.(stock := p.stock - q.quantity)];
          ReserveSucceedsIff(next, acc + [OrderItem(q.productId, q.quantity, p.price)], rest);
          assert (forall k :: 0 <= k < |reqs| ==> reqs[k].productId in stock)
             <==> (forall k :: 0 <= k < |rest| ==> rest[k].productId in next);
          assert (forall id :: id in stock ==> Requested(reqs, id) <= stock[id].stock)
             <==> (forall id :: id in next ==> Requested(rest, id) <= next[id].stock);
        }
      }
    }
  }

  /**
   * A rejection names either a requested product that does not exist, or a
   * request whose quantity exceeds the stock left by the requests before it,
   * carrying that stock and the requested quantity.
   */
  lemma {:induction false} ReserveRejection(stock: map<int, Product>, acc: seq<OrderItem>, reqs: seq<ItemRequest>)
    decreases |reqs|
    requires ReserveFrom(stock, acc, reqs).Rejected?
    ensures match ReserveFrom(stock, acc, reqs).reason
      case ProductNotFound(id) =>
        id !in stock && exists k :: 0 <= k < |reqs| && reqs[k].productId == id
      case InsufficientStock(name, available, requested) =>
        exists k :: 0 <= k < |reqs| && reqs[k].productId in stock
          && name == stock[reqs[k].productId].name
          && requested == reqs[k].quantity
          && available == stock[reqs[k].productId].stock - Requested(reqs[..k], reqs[k].productId)
          && available < requested
  {
    var q := reqs[0];
    if q.productId !in stock {
    } else if stock[q.productId].stock < q.quantity {
      assert reqs[..0] == [];
    } else {
      var p := stock[q.productId];
      var next := stock[q.productId := p.(stock := p.stock - q.quantity)];
      var rest := reqs[1..];
      ReserveRejection(next, acc + [OrderItem(q.productId, q.quantity, p.price)], rest);
      match ReserveFrom(stock, acc, reqs).reason
      case ProductNotFound(id) =>
        var k :| 0 <= k < |rest| && rest[k].productId == id;
        assert reqs[k + 1].productId == id;
      case InsufficientStock(name, available, requested) =>
        var k :| 0 <= k < |rest| && rest[k].productId in next
          && name == next[rest[k].productId].name
          && requested == rest[k].quantity
          && available == next[rest[k].productId].stock - Requested(rest[..k], rest[k].productId)
          && available < requested;
        assert reqs[k + 1] == rest[k];
        assert reqs[..k + 1][1..] == rest[..k];
    }
  }

  lemma {:induction false} OrderedMatchesRequested(items: seq<OrderItem>, reqs: seq<ItemRequest>, id: int)
    requires |items| == |reqs|
    requires forall k :: 0 <= k < |reqs| ==>
      items[k].productId == reqs[k].productId && items[k].quantity == reqs[k].quantity
    ensures Ordered(items, id) == Requested(reqs, id)
  {
    if reqs != [] {
      OrderedMatchesRequested(items[1..], reqs[1..], id);
    }
  }

  /** Releasing the lines of a successful reservation restores the product table exactly. */
  lemma ReserveThenRestock(stock: map<int, Product>, reqs: seq<ItemRequest>)
    requires ReserveFrom(stock, [], reqs).Reserved?
    ensures Restock(ReserveFrom(stock, [], reqs).stock, ReserveFrom(stock, [], reqs).items) == stock
  {
    var r := ReserveFrom(stock, [], reqs);
    ReserveStock(stock, [], reqs);
    ReserveItems(stock, [], reqs);
    var back := Restock(r.stock, r.items);
    forall id | id in stock ensures back[id] == stock[id] {
      OrderedMatchesRequested(r.items, reqs, id);
    }
  }

  /** Releasing lines whose quantities are at least one keeps the table valid. */
  lemma RestockKeepsCatalogValid(stock: map<int, Product>, items: seq<OrderItem>)
    requires CatalogValid(stock)
    requires ValidLines(items)
    ensures CatalogValid(Restock(stock, items))
  {
    forall id | id in stock ensures Ordered(items, id) >= 0 {
      OrderedNonNegative(items, id);
    }
  }

  /** Releasing the same lines twice gives every existing product twice their quantity. */
  lemma RestockTwice(stock: map<int, Product>, items: seq<OrderItem>)
    ensures forall id :: id in stock ==>
      Restock(Restock(stock, items), items)[id].stock == stock[id].stock + 2 * Ordered(items, id)
  {
  }
}
