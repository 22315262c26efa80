/** The relational store both repository classes talk to, as two tables of rows:
    SalesOrder (id_order, number_order, date, customer, address) and
    ItemOrder (id_item, id_order, item_name, qty, price, total).
    Each writing statement the repositories issue is one method of `Database`;
    the number it returns is the "rows affected" count Dapper's ExecuteAsync reports. */
module Store {
  import opened Models

  datatype OrderRow = OrderRow(
    idOrder: Id,
    numberOrder: Option<string>,
    date: DateTime,
    customer: Option<string>,
    address: Option<string>)

  /** `total` is None when the row was written by an INSERT that leaves that column out. */
  datatype ItemRow = ItemRow(
    idItem: Id,
    idOrder: Id,
    itemName: Option<string>,
    qty: int,
    price: Decimal,
    total: Option<Decimal>)

  // ---------------------------------------------------------------------------
  // Keys and integrity

  function OrderIds(orders: seq<OrderRow>): set<Id> {
    set o | o in orders :: o.idOrder
  }

  function ItemIds(items: seq<ItemRow>): set<Id> {
    set r | r in items :: r.idItem
  }

  /** id_order is the key of the order table. */
  predicate UniqueOrderIds(orders: seq<OrderRow>) {
    forall i, j :: 0 <= i < j < |orders| ==> orders[i].idOrder != orders[j].idOrder
  }

  /** id_item is the key of the item table. */
  predicate UniqueItemIds(items: seq<ItemRow>) {
    forall i, j :: 0 <= i < j < |items| ==> items[i].idItem != items[j].idItem
  }

  /** Every item row names an existing order row (kept by the repositories, not by the store). */
  predicate ItemsHaveParent(orders: seq<OrderRow>, items: seq<ItemRow>) {
    forall r :: r in items ==> r.idOrder in OrderIds(orders)
  }

  predicate Consistent(orders: seq<OrderRow>, items: seq<ItemRow>) {
    UniqueOrderIds(orders) && UniqueItemIds(items) && ItemsHaveParent(orders, items)
  }

  // ---------------------------------------------------------------------------
  // What the statements do to the tables

  /** Rows hit by `... FROM SalesOrder WHERE id_order = @Id_Order`. */
  function HeaderCount(orders: seq<OrderRow>, id: Id): (n: nat)
    ensures n > 0 <==> id in OrderIds(orders)
    ensures UniqueOrderIds(orders) ==> n <= 1
    ensures n <= |orders|
  {
    if orders == [] then 0
    else
      assert OrderIds(orders) == {orders[0].idOrder} + OrderIds(orders[1..]);
      (if orders[0].idOrder == id then 1 else 0) + HeaderCount(orders[1..], id)
  }

  /** The order row written by `INSERT INTO SalesOrder` for `order` under the id `id`. */
  function NewHeaderRow(id: Id, order: SalesOrder): (row: OrderRow)
    ensures row.idOrder == id
    ensures row.numberOrder == order.numberOrder && row.date == order.date
    ensures row.customer == order.customer && row.address == order.address
  {
    OrderRow(id, order.numberOrder, order.date, order.customer, order.address)
  }

  /** `UPDATE SalesOrder SET number_order, date, customer, address WHERE id_order = id`. */
  function SetHeader(orders: seq<OrderRow>, id: Id, order: SalesOrder): (r: seq<OrderRow>)
    ensures |r| == |orders|
    ensures forall i :: 0 <= i < |r| ==> r[i].idOrder == orders[i].idOrder
    ensures forall i :: 0 <= i < |r| && orders[i].idOrder == id ==> r[i] == NewHeaderRow(id, order)
    ensures forall i :: 0 <= i < |r| && orders[i].idOrder != id ==> r[i] == orders[i]
    ensures OrderIds(r) == OrderIds(orders)
    ensures id !in OrderIds(orders) ==> r == orders
  {
    var r := seq(|orders|, i requires 0 <= i < |orders| =>
                   if orders[i].idOrder == id then NewHeaderRow(id, order) else orders[i]);
    assert forall o :: o in orders ==> o.idOrder in OrderIds(r) by {
      forall o | o in orders ensures o.idOrder in OrderIds(r) {
        var i :| 0 <= i < |orders| && orders[i] == o;
        assert r[i] in r;
      }
    }
    assert forall o :: o in r ==> o.idOrder in OrderIds(orders) by {
      forall o | o in r ensures o.idOrder in OrderIds(orders) {
        var i :| 0 <= i < |r| && r[i] == o;
        assert orders[i] in orders;
      }
    }
    r
  }

  /** `DELETE FROM SalesOrder WHERE id_order = id`. */
  function WithoutOrder(orders: seq<OrderRow>, id: Id): (r: seq<OrderRow>)
    ensures forall o :: o in r <==> o in orders && o.idOrder != id
    ensures |r| == |orders| - HeaderCount(orders, id)
    ensures UniqueOrderIds(orders) ==> UniqueOrderIds(r)
  {
    if orders == [] then []
    else
      var rest := WithoutOrder(orders[1..], id);
      assert forall o :: o in orders <==> o == orders[0] || o in orders[1..];
      if orders[0].idOrder == id then rest
      else
        assert UniqueOrderIds(orders) ==> forall o :: o in rest ==> o.idOrder != orders[0].idOrder by {
          if UniqueOrderIds(orders) {
            forall o | o in rest ensures o.idOrder != orders[0].idOrder {
              var j :| 0 <= j < |orders[1..]| && orders[1..][j] == o;
              assert orders[j + 1] == o;
            }
          }
        }
        [orders[0]] + rest
  }

  /** `DELETE FROM ItemOrder WHERE id_order = id`. */
  function WithoutItemsOf(items: seq<ItemRow>, id: Id): (r: seq<ItemRow>)
    ensures forall x :: x in r <==> x in items && x.idOrder != id
    ensures |r| <= |items|
    ensures UniqueItemIds(items) ==> UniqueItemIds(r)
  {
    if items == [] then []
    else
      var rest := WithoutItemsOf(items[1..], id);
      assert forall x :: x in items <==> x == items[0] || x in items[1..];
      if items[0].idOrder == id then rest
      else
        assert UniqueItemIds(items) ==> forall x :: x in rest ==> x.idItem != items[0].idItem by {
          if UniqueItemIds(items) {
            forall x | x in rest ensures x.idItem != items[0].idItem {
              var j :| 0 <= j < |items[1..]| && items[1..][j] == x;
              assert items[j + 1] == x;
            }
          }
        }
        [items[0]] + rest
  }

  /** The item rows written for `items` under order `orderId`: the k-th gets the k-th GUID;
      `total` is not among the inserted columns. */
  function StampedRows(items: seq<ItemOrder>, orderId: Id, guids: seq<Id>): (r: seq<ItemRow>)
    requires |items| <= |guids|
    ensures |r| == |items|
  {
    seq(|items|, k requires 0 <= k < |items| =>
      ItemRow(guids[k], orderId, items[k].itemName, items[k].qty, items[k].price, None))
  }

  /** The index of the first null element of `items`, or |items| when there is none. */
  function FirstNull(items: seq<Option<ItemOrder>>): (n: nat)
    ensures n <= |items|
    ensures forall k :: 0 <= k < n ==> items[k].Some?
    ensures n < |items| ==> items[n].None?
  {
    if items == [] || items[0].None? then 0 else 1 + FirstNull(items[1..])
  }

  predicate NoNulls(items: seq<Option<ItemOrder>>) {
    forall k :: 0 <= k < |items| ==> items[k].Some?
  }

  /** The items before the first null element: those a `foreach` that dereferences each
      element gets through before it throws. */
  function NonNullPrefix(items: seq<Option<ItemOrder>>): (r: seq<ItemOrder>)
    ensures |r| == FirstNull(items)
    ensures NoNulls(items) <==> |r| == |items|
    ensures forall k :: 0 <= k < |r| ==> items[k] == Some(r[k])
  {
    var n := FirstNull(items);
    seq(n, k requires 0 <= k < n => items[k].value)
  }

  /** GUIDs that Guid.NewGuid() hands out during one call: at least `n` of them, pairwise
      distinct and used by no row of either table. */
  predicate FreshGuids(guids: seq<Id>, n: nat, orders: seq<OrderRow>, items: seq<ItemRow>) {
    n <= |guids|
    && (forall i, j :: 0 <= i < j < |guids| ==> guids[i] != guids[j])
    && (forall g :: g in guids ==> g !in OrderIds(orders) && g !in ItemIds(items))
  }

  // ---------------------------------------------------------------------------
  // The store

  class Database {
    var orders: seq<OrderRow>
    var items: seq<ItemRow>

    /** The keys are unique and every item has its order. */
    ghost predicate Valid()
      reads this
    {
      Consistent(orders, items)
    }

    constructor ()
      ensures orders == [] && items == []
      ensures Valid()
    {
      orders, items := [], [];
    }

    /** `INSERT INTO SalesOrder (id_order, number_order, date, customer, address)`. */
    method InsertOrder(row: OrderRow) returns (affected: nat)
      requires row.idOrder !in OrderIds(orders)
      modifies this
      ensures orders == old(orders) + [row] && items == old(items)
      ensures affected == 1
    {
      orders := orders + [row];
      affected := 1;
    }

    /** `INSERT INTO ItemOrder (id_item, id_order, item_name, qty, price)`. */
    method InsertItem(row: ItemRow) returns (affected: nat)
      requires row.idItem !in ItemIds(items)
      modifies this
      ensures items == old(items) + [row] && orders == old(orders)
      ensures affected == 1
    {
      items := items + [row];
      affected := 1;
    }

    /** `UPDATE SalesOrder SET ... WHERE id_order = @Id_Order`. */
    method UpdateOrder(id: Id, order: SalesOrder) returns (affected: nat)
      modifies this
      ensures orders == SetHeader(old(orders), id, order) && items == old(items)
      ensures affected == HeaderCount(old(orders), id)
    {
      affected := HeaderCount(orders, id);
      orders := SetHeader(orders, id, order);
    }

    /** `DELETE FROM ItemOrder WHERE id_order = @Id_Order`. */
    method DeleteItemsOf(id: Id) returns (affected: nat)
      modifies this
      ensures items == WithoutItemsOf(old(items), id) && orders == old(orders)
      ensures affected == |old(items)| - |items|
    {
      var remaining := WithoutItemsOf(items, id);
      affected := |items| - |remaining|;
      items := remaining;
    }

    /** `DELETE FROM SalesOrder WHERE id_order = @Id_Order`. */
    method DeleteOrder(id: Id) returns (affected: nat)
      modifies this
      ensures orders == WithoutOrder(old(orders), id) && items == old(items)
      ensures affected == HeaderCount(old(orders), id)
    {
      affected := HeaderCount(orders, id);
      orders := WithoutOrder(orders, id);
    }
  }

  // ---------------------------------------------------------------------------
  // The item-insert loop both repository classes run

  /** `foreach (var item in items) { item.Id_Item = NewGuid(); item.Id_Order = orderId; INSERT }`.
      Returns true when it threw NullReferenceException at a null element; the rows of the
      elements before it stay written. */
  method InsertOrderItems(db: Database, orderId: Id, items: seq<Option<ItemOrder>>, guids: seq<Id>)
    returns (threw: bool)
    requires FreshGuids(guids, |items|, db.orders, db.items)
    requires UniqueItemIds(db.items)
    modifies db
    ensures threw <==> !NoNulls(items)
    ensures db.orders == old(db.orders)
    ensures db.items == old(db.items) + StampedRows(NonNullPrefix(items), orderId, guids)
    ensures UniqueItemIds(db.items)
  {
    var i := 0;
    while i < |items|
      invariant 0 <= i <= |items|
      invariant forall k :: 0 <= k < i ==> items[k].Some?
      invariant db.orders == old(db.orders)
      invariant db.items == old(db.items) + StampedRows(NonNullPrefix(items)[..i], orderId, guids)
      invariant UniqueItemIds(db.items)
    {
      if items[i].None? {
        assert FirstNull(items) == i;
        assert NonNullPrefix(items)[..i] == NonNullPrefix(items);
        return true;
      }
      var item := items[i].value;
      var row := ItemRow(guids[i], orderId, item.itemName, item.qty, item.price, None);
      StampedRowsSnoc(NonNullPrefix(items), orderId, guids, i);
      NextGuidUnused(old(db.items), NonNullPrefix(items)[..i], orderId, guids, i);
      var _ := db.InsertItem(row);
      FreshRowKeepsUnique(old(db.items) + StampedRows(NonNullPrefix(items)[..i], orderId, guids), row);
      i := i + 1;
    }
    assert FirstNull(items) == |items|;
    assert NonNullPrefix(items)[..i] == NonNullPrefix(items);
    threw := false;
  }

  /** The stamped rows of one more item are those of the items before it plus its row. */
  lemma StampedRowsSnoc(sub: seq<ItemOrder>, orderId: Id, guids: seq<Id>, i: nat)
    requires i < |sub| <= |guids|
    ensures StampedRows(sub[..i + 1], orderId, guids)
      == StampedRows(sub[..i], orderId, guids) + [ItemRow(guids[i], orderId, sub[i].itemName, sub[i].qty, sub[i].price, None)]
  {
  }

  /** The GUID the loop takes next is used by no row written so far. */
  lemma NextGuidUnused(before: seq<ItemRow>, sub: seq<ItemOrder>, orderId: Id, guids: seq<Id>, i: nat)
    requires |sub| == i < |guids|
    requires forall j, k :: 0 <= j < k < |guids| ==> guids[j] != guids[k]
    requires forall g :: g in guids ==> g !in ItemIds(before)
    ensures guids[i] !in ItemIds(before + StampedRows(sub, orderId, guids))
  {
    assert guids[i] in guids;
    var all := before + StampedRows(sub, orderId, guids);
    forall r | r in all ensures r.idItem != guids[i] {
      var k :| 0 <= k < |all| && all[k] == r;
      if k >= |before| {
        assert r.idItem == guids[k - |before|];
      } else {
        assert r in before;
      }
    }
  }

  /** Appending a row under an unused key keeps the keys unique. */
  lemma FreshRowKeepsUnique(items: seq<ItemRow>, row: ItemRow)
    requires UniqueItemIds(items) && row.idItem !in ItemIds(items)
    ensures UniqueItemIds(items + [row])
  {
    var all := items + [row];
    forall i, j | 0 <= i < j < |all| ensures all[i].idItem != all[j].idItem {
      if j == |items| {
        assert all[i] in items;
      }
    }
  }

  // ---------------------------------------------------------------------------
  // Integrity steps of the write protocols (used by both repository classes)

  lemma NewOrderKeepsGuidsFresh(guids: seq<Id>, before: seq<OrderRow>, row: OrderRow, items: seq<ItemRow>)
    requires FreshGuids(guids, 1, before, items) && row.idOrder == guids[0]
    ensures FreshGuids(guids[1..], |guids| - 1, before + [row], items)
  {
    var after := before + [row];
    assert forall o :: o in after <==> o in before || o == row;
    forall g | g in guids[1..] ensures g !in OrderIds(after) && g !in ItemIds(items) {
      var k :| 0 <= k < |guids[1..]| && guids[1..][k] == g;
      assert guids[k + 1] == g && g in guids && guids[0] != guids[k + 1];
    }
  }

  lemma StampedRowsHaveParent(orders: seq<OrderRow>, items: seq<ItemRow>, sub: seq<ItemOrder>, id: Id, guids: seq<Id>)
    requires |sub| <= |guids|
    requires ItemsHaveParent(orders, items) && id in OrderIds(orders)
    ensures ItemsHaveParent(orders, items + StampedRows(sub, id, guids))
  {
    var stamped := StampedRows(sub, id, guids);
    forall x | x in items + stamped ensures x.idOrder in OrderIds(orders) {
      if x !in items {
        var k :| 0 <= k < |stamped| && stamped[k] == x;
      }
    }
  }

  lemma ReplacedItemsKeepParents(ordersBefore: seq<OrderRow>, ordersAfter: seq<OrderRow>,
                                 itemsBefore: seq<ItemRow>, itemsAfter: seq<ItemRow>, id: Id)
    requires Consistent(ordersBefore, itemsBefore)
    requires OrderIds(ordersAfter) == OrderIds(ordersBefore)
    requires itemsAfter == WithoutItemsOf(itemsBefore, id)
    requires id in OrderIds(ordersBefore)
    ensures ItemsHaveParent(ordersAfter, itemsAfter) && UniqueItemIds(itemsAfter)
    ensures forall g :: g !in ItemIds(itemsBefore) ==> g !in ItemIds(itemsAfter)
  {
  }

  lemma DeletionKeepsParents(before: seq<OrderRow>, after: seq<OrderRow>, items: seq<ItemRow>, id: Id)
    requires ItemsHaveParent(before, items)
    requires forall x :: x in items ==> x.idOrder != id
    requires after == WithoutOrder(before, id)
    ensures ItemsHaveParent(after, items)
  {
    forall x | x in items ensures x.idOrder in OrderIds(after) {
      var o :| o in before && o.idOrder == x.idOrder;
      assert o in after;
    }
  }
}
