/**
 * The order service: order creation against product stock, status changes,
 * cancellation within a day, and the read-only queries that project stored
 * orders to their display form.
 *
 * Each operation runs as one unit of work over the product table and the
 * order table: on every error path both tables are left as they were. The
 * clock, the generated order number and the failure of a store write are
 * parameters.
 */
module Services {
  import opened Wrappers
  import opened Entities
  import opened Repositories
  import opened StockLedger

  /** Fourteen days, in seconds. */
  const ReturnWindow: int := 14 * 24 * 60 * 60

  /** Twenty-four hours, in seconds. */
  const CancelWindow: int := 24 * 60 * 60

  datatype OrderItemDto = OrderItemDto(productId: int, productName: string, quantity: int, unitPrice: int)

  datatype OrderDto = OrderDto(
    id: int,
    orderNumber: string,
    createdAt: int,
    status: OrderStatus,
    items: seq<OrderItemDto>,
    totalAmount: int,
    updatedAt: Option<int>)

  /** The errors the service reports, in place of its error messages. */
  datatype ServiceError =
    | StockRejected(reason: Rejection)   // a requested product is missing or short
    | EmptyOrder                         // no line was requested
    | CreateFailed                       // a store write failed while creating
    | OrderNotFound
    | DeliveredToConfirmed               // a delivered order cannot be confirmed again
    | ReturnWindowExpired                // more than fourteen days since creation
    | PerishableNotReturnable            // the order holds a perishable product
    | UpdateFailed                       // the status write met a concurrency conflict
    | CancellationWindowExpired          // more than twenty-four hours since creation
    | CancelFailed                       // a store write failed while cancelling

  function ItemDtoTotal(items: seq<OrderItemDto>): int
  {
    if items == [] then 0 else items[0].quantity * items[0].unitPrice + ItemDtoTotal(items[1..])
  }

  /** A line for display; a product that no longer exists is shown as "N/A". */
  function MapItem(item: OrderItem, products: map<int, Product>): OrderItemDto
  {
    var name := if item.productId in products then products[item.productId].name else "N/A";
    OrderItemDto(item.productId, name, item.quantity, item.unitPrice)
  }

  function MapItems(items: seq<OrderItem>, products: map<int, Product>): (r: seq<OrderItemDto>)
    ensures |r| == |items|
    ensures forall k :: 0 <= k < |items| ==> r[k] == MapItem(items[k], products)
  {
    if items == [] then [] else [MapItem(items[0], products)] + MapItems(items[1..], products)
  }

  lemma {:induction false} MapItemsTotal(items: seq<OrderItem>, products: map<int, Product>)
    ensures ItemDtoTotal(MapItems(items, products)) == Total(items)
  {
    if items != [] {
      MapItemsTotal(items[1..], products);
    }
  }

  /**
   * The display form of an order: the same lines in the same order, and a
   * total that is the sum of the displayed lines.
   */
  function MapOrderToDto(o: Order, products: map<int, Product>): (d: OrderDto)
    ensures d.id == o.id && d.orderNumber == o.orderNumber && d.createdAt == o.createdAt
    ensures d.status == o.status && d.updatedAt == o.updatedAt
    ensures |d.items| == |o.items|
    ensures forall k :: 0 <= k < |o.items| ==>
      && d.items[k].productId == o.items[k].productId
      && d.items[k].quantity == o.items[k].quantity
      && d.items[k].unitPrice == o.items[k].unitPrice
      && d.items[k].productName == (if o.items[k].productId in products then products[o.items[k].productId].name else "N/A")
    ensures d.totalAmount == ItemDtoTotal(d.items) == o.TotalAmount()
  {
    MapItemsTotal(o.items, products);
    OrderDto(o.id, o.orderNumber, o.createdAt, o.status, MapItems(o.items, products), o.TotalAmount(), o.updatedAt)
  }

  /**
   * The display forms of a list of orders, in the same order: each row keeps
   * the id, status and creation time of its order, every order is shown, and
   * nothing but the display form of some order appears.
   */
  function MapAll(os: seq<Order>, products: map<int, Product>): (r: seq<OrderDto>)
    ensures |r| == |os|
    ensures forall i :: 0 <= i < |os| ==>
      r[i].id == os[i].id && r[i].status == os[i].status && r[i].createdAt == os[i].createdAt
    ensures forall o :: o in os ==> MapOrderToDto(o, products) in r
    ensures forall d :: d in r ==> exists o :: o in os && d == MapOrderToDto(o, products)
  {
    Select(os, o => MapOrderToDto(o, products))
  }

  /** Each element's image under f, in order; the images are exactly f's values on the elements. */
  function Select<A, B>(xs: seq<A>, f: A -> B): (r: seq<B>)
    ensures |r| == |xs|
    ensures forall i :: 0 <= i < |xs| ==> r[i] == f(xs[i])
    ensures forall x :: x in xs ==> f(x) in r
    ensures forall y :: y in r ==> exists x :: x in xs && y == f(x)
  {
    var r := seq(|xs|, i requires 0 <= i < |xs| => f(xs[i]));
    assert forall x :: x in xs ==> f(x) in r by {
      forall x | x in xs ensures f(x) in r {
        var i :| 0 <= i < |xs| && xs[i] == x;
        assert r[i] == f(x);
      }
    }
    assert forall y :: y in r ==> exists x :: x in xs && y == f(x) by {
      forall y | y in r ensures exists x :: x in xs && y == f(x) {
        var i :| 0 <= i < |r| && r[i] == y;
        assert xs[i] in xs;
      }
    }
    r
  }

  /**
   * True when some line of the order refers to an existing product flagged
   * perishable: never for an order without lines, nor when no product is
   * perishable, and a line whose product is gone does not count.
   */
  predicate HasPerishable(items: seq<OrderItem>, products: map<int, Product>): (b: bool)
    ensures items == [] ==> !b
    ensures (forall id :: id in products ==> !products[id].isPerishable) ==> !b
    ensures (forall k :: 0 <= k < |items| ==> items[k].productId !in products) ==> !b
  {
    exists k :: 0 <= k < |items| && items[k].productId in products && products[items[k].productId].isPerishable
  }

  /**
   * The status-change rules: only a delivered order can refuse a change. It
   * refuses to become confirmed again, and refuses a return when a line is
   * perishable or when more than fourteen days have passed since creation
   * (the perishable refusal wins when both apply). Every other pair,
   * including a reversal and the same status, is accepted.
   */
  function StatusChangeError(current: OrderStatus, next: OrderStatus, age: int, perishable: bool): (r: Option<ServiceError>)
    ensures r.Some? <==> current == Delivered && (next == Confirmed || (next == Returned && (perishable || age > ReturnWindow)))
    ensures r == Some(DeliveredToConfirmed) <==> current == Delivered && next == Confirmed
    ensures r == Some(PerishableNotReturnable) <==> current == Delivered && next == Returned && perishable
    ensures r == Some(ReturnWindowExpired) <==> current == Delivered && next == Returned && !perishable && age > ReturnWindow
  {
    match (current, next)
    case (Delivered, Confirmed) => Some(DeliveredToConfirmed)
    case (Delivered, Returned) =>
      if perishable then Some(PerishableNotReturnable)
      else if age > ReturnWindow then Some(ReturnWindowExpired)
      else None
    case _ => None
  }

  class OrderService {
    var products: map<int, Product>
    const repository: OrderRepository

    /** Stock and prices are not negative, and every stored line has a positive quantity. */
    ghost predicate Valid()
      reads this, repository
    {
      && repository.Valid()
      && CatalogValid(products)
      && forall o :: o in repository.orders ==> ValidLines(o.items)
    }

    constructor (repository: OrderRepository, products: map<int, Product>)
      requires repository.Valid() && CatalogValid(products)
      requires forall o :: o in repository.orders ==> ValidLines(o.items)
      ensures Valid()
      ensures this.repository == repository && this.products == products
    {
      this.repository := repository;
      this.products := products;
    }

    /** The display form of the order with id `id`, or None when there is none. */
    function GetOrderById(id: int): (r: Option<OrderDto>)
      reads this, repository
      requires Valid()
      ensures r.None? <==> forall o :: o in repository.orders ==> o.id != id
      ensures r.Some? ==> r.value.id == id
      ensures r.Some? ==> exists o :: o in repository.orders && o.id == id && r.value == MapOrderToDto(o, products)
    {
      match repository.GetById(id)
      case None => None
      case Some(o) => Some(MapOrderToDto(o, products))
    }

    /** Every stored order, in table order, in display form. */
    function GetAllOrders(): (r: seq<OrderDto>)
      reads this, repository
      ensures |r| == |repository.orders|
      ensures forall o :: o in repository.orders ==> MapOrderToDto(o, products) in r
      ensures forall d :: d in r ==> exists o :: o in repository.orders && d == MapOrderToDto(o, products)
    {
      MapAll(repository.orders, products)
    }

    /** The stored orders with status `status`, and only those, in display form. */
    function GetOrdersByStatus(status: OrderStatus): (r: seq<OrderDto>)
      reads this, repository
      ensures forall o :: o in repository.orders && o.status == status ==> MapOrderToDto(o, products) in r
      ensures forall d :: d in r ==>
        exists o :: o in repository.orders && o.status == status && d == MapOrderToDto(o, products)
    {
      MapAll(repository.GetOrdersByStatus(status), products)
    }

    /** The delivered orders created between `from` and `to` inclusive, and only those, in display form. */
    function GetDeliveredOrdersReport(from: int, to: int): (r: seq<OrderDto>)
      reads this, repository
      ensures forall o :: o in repository.orders && o.status == Delivered && from <= o.createdAt <= to ==>
        MapOrderToDto(o, products) in r
      ensures forall d :: d in r ==>
        exists o :: o in repository.orders && o.status == Delivered && from <= o.createdAt <= to
          && d == MapOrderToDto(o, products)
      ensures from > to ==> r == []
    {
      MapAll(repository.GetDeliveredOrdersInPeriod(from, to), products)
    }

    /**
     * Creates an order from the requested lines. The lines are checked and
     * reserved one by one against the current stock; the first missing
     * product or short stock, an empty request, or a failed store write
     * restores the product table and stores nothing. Otherwise the stock is
     * that of the reservation and one Confirmed order, created now, with one
     * line per request, is appended under the next id.
     */
    method CreateOrder(requests: seq<ItemRequest>, now: int, orderNumber: string, saveFails: bool)
      returns (r: Result<OrderDto, ServiceError>)
      requires Valid()
      requires forall k :: 0 <= k < |requests| ==> requests[k].quantity >= 1
      modifies this, repository
      ensures Valid()
      ensures r.Failure? ==>
        products == old(products) && repository.orders == old(repository.orders) && repository.nextId == old(repository.nextId)
      ensures Reserve(old(products), requests).Rejected? ==>
        r == Failure(StockRejected(Reserve(old(products), requests).reason))
      ensures requests == [] ==> r == Failure(EmptyOrder)
      ensures Reserve(old(products), requests).Reserved? && requests != [] && saveFails ==> r == Failure(CreateFailed)
      ensures Reserve(old(products), requests).Reserved? && requests != [] && !saveFails ==>
        var placed := Order(old(repository.nextId), orderNumber, now, Confirmed, Reserve(old(products), requests).items, None);
        && products == Reserve(old(products), requests).stock
        && repository.orders == old(repository.orders) + [placed]
        && repository.nextId == old(repository.nextId) + 1
        && r == Success(MapOrderToDto(placed, products))
      ensures r.Success? ==>
        && products.Keys == old(products).Keys
        && (forall id :: id in old(products) ==> products[id].stock == old(products)[id].stock - Requested(requests, id))
        && |r.value.items| == |requests|
        && (forall k :: 0 <= k < |requests| ==>
              && requests[k].productId in old(products)
              && r.value.items[k].productId == requests[k].productId
              && r.value.items[k].quantity == requests[k].quantity
              && r.value.items[k].unitPrice == old(products)[requests[k].productId].price)
    {
      var before := products;
      var order := NewOrder(orderNumber, now, Confirmed);
      var i := 0;
      while i < |requests|
        modifies this
        invariant 0 <= i <= |requests|
        invariant Reserve(before, requests) == ReserveFrom(products, order.items, requests[i..])
        invariant order == NewOrder(orderNumber, now, Confirmed).(items := order.items)
      {
        var q := requests[i];
        assert requests[i..][0] == q && requests[i..][1..] == requests[i + 1..];
        if q.productId !in products {
          products := before;
          return Failure(StockRejected(ProductNotFound(q.productId)));
        }
        var p := products[q.productId];
        if p.stock < q.quantity {
          products := before;
          return Failure(StockRejected(InsufficientStock(p.name, p.stock, q.quantity)));
        }
        order := order.(items := order.items + [OrderItem(q.productId, q.quantity, p.price)]);
        products := products[q.productId := p.(stock := p.stock - q.quantity)];
        i := i + 1;
      }
      assert requests[i..] == [];
      ReserveItems(before, [], requests);
      if order.items == [] {
        products := before;
        return Failure(EmptyOrder);
      }
      if saveFails {
        products := before;
        return Failure(CreateFailed);
      }
      ReserveKeepsCatalogValid(before, [], requests);
      ReserveStock(before, [], requests);
      assert ValidLines(order.items) by {
        forall k | 0 <= k < |order.items| ensures ValidLine(order.items[k]) {
          assert order.items[k] == OrderItem(requests[k].productId, requests[k].quantity, before[requests[k].productId].price);
        }
      }
      var added := repository.Add(order);
      r := Success(MapOrderToDto(added, products));
    }

    /**
     * Sets the status of order `id` to `newStatus` and its update time to
     * now, unless the order is missing, the status rules refuse the change,
     * or the write meets a concurrency conflict; in those cases nothing
     * changes. Stock is never touched.
     */
    method UpdateOrderStatus(id: int, newStatus: OrderStatus, now: int, conflict: bool)
      returns (r: Result<OrderDto, ServiceError>)
      requires Valid()
      modifies repository
      ensures Valid()
      ensures products == old(products)
      ensures repository.nextId == old(repository.nextId)
      ensures r.Failure? ==> repository.orders == old(repository.orders)
      ensures old(repository.GetById(id)).None? ==> r == Failure(OrderNotFound)
      ensures old(repository.GetById(id)).Some? ==>
        var o := old(repository.GetById(id)).value;
        var refusal := StatusChangeError(o.status, newStatus, now - o.createdAt, HasPerishable(o.items, products));
        var updated := o.(status := newStatus, updatedAt := Some(now));
        && (refusal.Some? ==> r == Failure(refusal.value))
        && (refusal.None? && conflict ==> r == Failure(UpdateFailed))
        && (refusal.None? && !conflict ==>
              r == Success(MapOrderToDto(updated, products))
              && repository.orders == ReplaceById(old(repository.orders), updated))
    {
      var found := repository.GetById(id);
      if found.None? {
        return Failure(OrderNotFound);
      }
      var o := found.value;
      var refusal := StatusChangeError(o.status, newStatus, now - o.createdAt, HasPerishable(o.items, products));
      if refusal.Some? {
        return Failure(refusal.value);
      }
      var updated := o.(status := newStatus, updatedAt := Some(now));
      var saved := repository.Update(updated, conflict);
      if saved.None? {
        return Failure(UpdateFailed);
      }
      assert forall x :: x in repository.orders ==> x == updated || x in old(repository.orders) by {
        forall x | x in repository.orders ensures x == updated || x in old(repository.orders) {
          var i :| 0 <= i < |repository.orders| && repository.orders[i] == x;
        }
      }
      r := Success(MapOrderToDto(saved.value, products));
    }

    /** Gives each line's quantity back to its product; a line whose product is gone is skipped. */
    method ReturnStock(items: seq<OrderItem>)
      modifies this
      ensures products == Restock(old(products), items)
    {
      var i := 0;
      while i < |items|
        invariant 0 <= i <= |items|
        invariant Restock(old(products), items) == Restock(products, items[i..])
      {
        var item := items[i];
        assert items[i..][0] == item && items[i..][1..] == items[i + 1..];
        products := Release(products, item);
        i := i + 1;
      }
      assert items[i..] == [];
    }

    /**
     * Cancels order `id`: within twenty-four hours of its creation, every
     * line whose product still exists gives its quantity back, and the order
     * becomes Cancelled with its update time set to now. The current status
     * is not consulted. A missing order, an expired window or a failed store
     * write changes nothing.
     */
    method DeleteOrder(id: int, now: int, saveFails: bool) returns (success: bool, error: Option<ServiceError>)
      requires Valid()
      modifies this, repository
      ensures Valid()
      ensures success <==> error.None?
      ensures repository.nextId == old(repository.nextId)
      ensures !success ==> products == old(products) && repository.orders == old(repository.orders)
      ensures old(repository.GetById(id)).None? ==> error == Some(OrderNotFound)
      ensures old(repository.GetById(id)).Some? ==>
        var o := old(repository.GetById(id)).value;
        var inWindow := now - o.createdAt <= CancelWindow;
        && (!inWindow ==> error == Some(CancellationWindowExpired))
        && (inWindow && saveFails ==> error == Some(CancelFailed))
        && (inWindow && !saveFails ==>
              success
              && products == Restock(old(products), o.items)
              && (forall pid :: pid in old(products) ==>
                    pid in products && products[pid].stock == old(products)[pid].stock + Ordered(o.items, pid))
              && repository.orders == ReplaceById(old(repository.orders), o.(status := Cancelled, updatedAt := Some(now))))
    {
      var found := repository.GetById(id);
      if found.None? {
        return false, Some(OrderNotFound);
      }
      var o := found.value;
      if now - o.createdAt > CancelWindow {
        return false, Some(CancellationWindowExpired);
      }
      var before := products;
      ReturnStock(o.items);
      var cancelled := o.(status := Cancelled, updatedAt := Some(now));
      var saved := repository.Update(cancelled, saveFails);
      if saved.None? {
        products := before;
        return false, Some(CancelFailed);
      }
      RestockKeepsCatalogValid(before, o.items);
      success, error := true, None;
    }
  }
}
