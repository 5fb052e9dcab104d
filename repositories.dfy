/**
 * The order store: an in-memory table of orders with the queries and the
 * writes of the repository. The table keeps insertion order, which is the
 * order in which list queries return their rows; the store assigns ids from
 * an identity counter.
 */
module Repositories {
  import opened Wrappers
  import opened Entities

  /** No two stored orders share an id (the id is the primary key). */
  ghost predicate UniqueIds(os: seq<Order>)
  {
    forall i, j :: 0 <= i < j < |os| ==> os[i].id != os[j].id
  }

  /** The rows of `os` that `keep` accepts, in table order. */
  function Where(os: seq<Order>, keep: Order -> bool): (r: seq<Order>)
    ensures |r| <= |os|
    ensures forall o :: o in r <==> o in os && keep(o)
    ensures UniqueIds(os) ==> UniqueIds(r)
  {
    if os == [] then []
    else
      var rest := Where(os[1..], keep);
      assert UniqueIds(os) ==> UniqueIds(os[1..]) && forall o :: o in rest ==> o.id != os[0].id;
      if keep(os[0]) then [os[0]] + rest else rest
  }

  /** The first row whose id is `id`, or None when there is none. */
  function FirstWithId(os: seq<Order>, id: int): (r: Option<Order>)
    ensures r.Some? ==> r.value in os && r.value.id == id
    ensures r.None? ==> forall o :: o in os ==> o.id != id
  {
    if os == [] then None
    else if os[0].id == id then Some(os[0])
    else FirstWithId(os[1..], id)
  }

  /**
   * The table after the row with the id of `o` has been overwritten by `o`:
   * rows keep their places and ids, no row appears that was not there or is
   * not `o`, and a lookup of that id then finds `o`; when no row has the id,
   * the table is unchanged.
   */
  function ReplaceById(os: seq<Order>, o: Order): (r: seq<Order>)
    ensures |r| == |os|
    ensures forall i :: 0 <= i < |os| ==> r[i].id == os[i].id
    ensures forall i :: 0 <= i < |os| && os[i].id != o.id ==> r[i] == os[i]
    ensures forall x :: x in r ==> x == o || x in os
    ensures UniqueIds(os) ==> UniqueIds(r)
    ensures (exists x :: x in os && x.id == o.id) ==> FirstWithId(r, o.id) == Some(o)
    ensures (forall x :: x in os ==> x.id != o.id) ==> r == os
  {
    var r := seq(|os|, i requires 0 <= i < |os| => if os[i].id == o.id then o else os[i]);
    FirstWithIdReplaced(os, r, o);
    r
  }

  /** In a table where exactly the rows with the id of `o` became `o`, the first such row is `o`. */
  lemma {:induction false} FirstWithIdReplaced(os: seq<Order>, r: seq<Order>, o: Order)
    requires |r| == |os|
    requires forall i :: 0 <= i < |os| ==> r[i] == if os[i].id == o.id then o else os[i]
    ensures (exists x :: x in os && x.id == o.id) ==> FirstWithId(r, o.id) == Some(o)
  {
    if os != [] && os[0].id != o.id {
      FirstWithIdReplaced(os[1..], r[1..], o);
      assert (exists x :: x in os && x.id == o.id) ==> exists x :: x in os[1..] && x.id == o.id;
    }
  }

  class OrderRepository {
    var orders: seq<Order>
    var nextId: int

    ghost predicate Valid()
      reads this
    {
      && nextId >= 1
      && UniqueIds(orders)
      && forall o :: o in orders ==> 1 <= o.id < nextId
    }

    constructor ()
      ensures Valid() && orders == [] && nextId == 1
    {
      orders := [];
      nextId := 1;
    }

    /** The stored order with id `id`, or None. */
    function GetById(id: int): (r: Option<Order>)
      reads this
      requires Valid()
      ensures r.Some? ==> r.value in orders && r.value.id == id
      ensures r.Some? ==> forall o :: o in orders && o.id == id ==> o == r.value
      ensures r.None? <==> forall o :: o in orders ==> o.id != id
    {
      var r := FirstWithId(orders, id);
      assert r.Some? ==> forall o :: o in orders && o.id == id ==> o == r.value by {
        if r.Some? {
          forall o | o in orders && o.id == id ensures o == r.value {
            var i :| 0 <= i < |orders| && orders[i] == o;
            var j :| 0 <= j < |orders| && orders[j] == r.value;
            assert !(i < j) && !(j < i);
          }
        }
      }
      r
    }

    /** The stored orders whose status is `status`. */
    function GetOrdersByStatus(status: OrderStatus): (r: seq<Order>)
      reads this
      ensures forall o :: o in r <==> o in orders && o.status == status
    {
      Where(orders, (o: Order) => o.status == status)
    }

    /** The delivered orders created between `from` and `to`, both bounds included. */
    function GetDeliveredOrdersInPeriod(from: int, to: int): (r: seq<Order>)
      reads this
      ensures forall o :: o in r <==> o in orders && o.status == Delivered && from <= o.createdAt <= to
      ensures from > to ==> r == []
    {
      var r := Where(orders, (o: Order) => o.status == Delivered && o.createdAt >= from && o.createdAt <= to);
      assert r != [] ==> r[0] in r;
      r
    }

    /** Inserts `order` under the next identity value and returns it with that id. */
    method Add(order: Order) returns (added: Order)
      requires Valid()
      modifies this
      ensures Valid()
      ensures added == order.(id := old(nextId))
      ensures orders == old(orders) + [added]
      ensures nextId == old(nextId) + 1
      ensures GetById(added.id) == Some(added)
    {
      added := order.(id := nextId);
      orders := orders + [added];
      nextId := nextId + 1;
    }

    /**
     * Overwrites the stored row that has the id of `order`. The write is
     * rejected (None, table unchanged) on a concurrency conflict, and also
     * when no row has that id, since then it affects no row.
     */
    method Update(order: Order, conflict: bool) returns (r: Option<Order>)
      requires Valid()
      modifies this
      ensures Valid()
      ensures nextId == old(nextId)
      ensures r.None? <==> conflict || old(GetById(order.id)).None?
      ensures r.None? ==> orders == old(orders)
      ensures r.Some? ==> r.value == order && orders == ReplaceById(old(orders), order)
      ensures r.Some? ==> GetById(order.id) == Some(order)
    {
      if conflict || GetById(order.id).None? {
        return None;
      }
      orders := ReplaceById(orders, order);
      r := Some(order);
    }

    /** Removes the row with id `id`; false, and nothing removed, when there is none. */
    method Delete(id: int) returns (deleted: bool)
      requires Valid()
      modifies this
      ensures Valid()
      ensures nextId == old(nextId)
      ensures deleted <==> old(GetById(id)).Some?
      ensures !deleted ==> orders == old(orders)
      ensures forall o :: o in orders <==> o in old(orders) && o.id != id
      ensures GetById(id).None?
    {
      if GetById(id).None? {
        return false;
      }
      orders := Where(orders, (o: Order) => o.id != id);
      deleted := true;
    }
  }
}
