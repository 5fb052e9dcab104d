/**
 * The persisted entities of the order subsystem: products, orders and their
 * lines, and the order total that is derived from the lines.
 *
 * Money is an integer number of the smallest currency unit and instants are
 * whole seconds, so the decimal and DateTime arithmetic of the program become
 * exact integer arithmetic.
 */
module Entities {
  import opened Wrappers

  datatype OrderStatus = Confirmed | Sent | Delivered | Returned | Cancelled

  /** A catalogue product as the order service uses it. */
  datatype Product = Product(name: string, price: int, stock: int, isPerishable: bool)

  /** One line of an order: the product, the quantity and the unit price at the time of sale. */
  datatype OrderItem = OrderItem(productId: int, quantity: int, unitPrice: int)

  datatype Order = Order(
    id: int,
    orderNumber: string,
    createdAt: int,
    status: OrderStatus,
    items: seq<OrderItem>,
    updatedAt: Option<int>)
  {
    /** The order total is never stored: it is recomputed from the lines. */
    function TotalAmount(): (t: int)
      ensures items == [] ==> t == 0
      ensures ValidLines(items) ==> t >= 0
    {
      Total(items)
    }
  }

  /** The range annotations on a line: at least one unit, a price that is not negative. */
  predicate ValidLine(item: OrderItem)
  {
    item.quantity >= 1 && item.unitPrice >= 0
  }

  predicate ValidLines(items: seq<OrderItem>)
  {
    forall k :: 0 <= k < |items| ==> ValidLine(items[k])
  }

  function LineAmount(item: OrderItem): int
  {
    item.quantity * item.unitPrice
  }

  /**
   * Sum of quantity times unit price over the lines. Lines that respect the
   * range annotations never make a negative total.
   */
  function Total(items: seq<OrderItem>): (t: int)
    ensures ValidLines(items) ==> t >= 0
  {
    if items == [] then 0
    else
      assert ValidLines(items) ==> ValidLine(items[0]) && ValidLines(items[1..]);
      LineAmount(items[0]) + Total(items[1..])
  }

  /** An order as the object initializer builds it: no lines yet, never updated, id not yet assigned. */
  function NewOrder(orderNumber: string, createdAt: int, status: OrderStatus): (o: Order)
    ensures o.orderNumber == orderNumber && o.createdAt == createdAt && o.status == status
    ensures o.items == [] && o.updatedAt == None
    ensures o.TotalAmount() == 0
  {
    Order(0, orderNumber, createdAt, status, [], None)
  }

  /** The total of two runs of lines is the sum of their totals. */
  lemma {:induction false} TotalConcat(a: seq<OrderItem>, b: seq<OrderItem>)
    ensures Total(a + b) == Total(a) + Total(b)
  {
    if a == [] {
      assert a + b == b;
    } else {
      assert (a + b)[1..] == a[1..] + b;
      TotalConcat(a[1..], b);
    }
  }

  /** Appending a line raises the total by exactly that line's amount. */
  lemma TotalAppend(items: seq<OrderItem>, item: OrderItem)
    ensures Total(items + [item]) == Total(items) + item.quantity * item.unitPrice
  {
    TotalConcat(items, [item]);
    assert Total([item]) == LineAmount(item) + Total([]);
  }

  /** Changing the status, the update time or the number of an order leaves its total alone. */
  lemma TotalIgnoresBookkeeping(o: Order, status: OrderStatus, updatedAt: Option<int>, orderNumber: string)
    ensures o.(status := status, updatedAt := updatedAt, orderNumber := orderNumber).TotalAmount() == o.TotalAmount()
  {
  }
}
