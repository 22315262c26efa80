/** What a read returns after each write protocol: a created order reads back with the items
    submitted, an update replaces the items of one order and no other, and a delete leaves
    nothing of the order behind. Both repository classes write the same rows, so these hold
    for either; they differ only in what their readers make of those rows. */
module Lifecycle {
  import opened Models
  import opened Store
  import opened Query
  import opened RowMapper

  /** A submitted item as the join reads it back once written under `guid`: the new Id_Item,
      no Id_Order (the query does not select it), and Total 0 (the insert leaves it NULL). */
  function StoredAs(it: ItemOrder, guid: Id): ItemOrder {
    ItemOrder(Some(guid), None, it.itemName, it.qty, it.price, 0)
  }

  /** The submitted items of `submitted` written for order `id`, read back in order: those
      before the first null (all of them when none is null), item k under `guids[k]`. */
  predicate ReadsBackAs(its: seq<ItemOrder>, submitted: seq<Option<ItemOrder>>, guids: seq<Id>)
    requires FirstNull(submitted) <= |guids|
  {
    |its| == FirstNull(submitted)
    && forall k :: 0 <= k < |its| ==> submitted[k].Some? && its[k] == StoredAs(submitted[k].value, guids[k])
  }

  lemma StampedReadsBack(submitted: seq<Option<ItemOrder>>, id: Id, guids: seq<Id>)
    requires |submitted| <= |guids|
    ensures ReadsBackAs(ItemsOf(StampedRows(NonNullPrefix(submitted), id, guids), id), submitted, guids)
  {
    ItemsOfStamped(NonNullPrefix(submitted), id, guids);
  }

  /** Rows stamped for order `id` contribute no items to any other order. */
  lemma StampedBelongToOne(sub: seq<ItemOrder>, id: Id, guids: seq<Id>, other: Id)
    requires |sub| <= |guids| && other != id
    ensures ItemsOf(StampedRows(sub, id, guids), other) == []
  {
    ItemsOfAbsent(StampedRows(sub, id, guids), other);
  }

  /** After a create, the new order's id is new and stored once, its items read back as
      submitted, every other order keeps its items, and the store stays consistent. */
  lemma CreatedOrderReadsBack(orders: seq<OrderRow>, items: seq<ItemRow>, newOrder: SalesOrder, guids: seq<Id>)
    requires Consistent(orders, items)
    requires FreshGuids(guids, 1 + |newOrder.items|, orders, items)
    ensures var orders' := orders + [NewHeaderRow(guids[0], newOrder)];
      var items' := items + StampedRows(NonNullPrefix(newOrder.items), guids[0], guids[1..]);
      guids[0] !in OrderIds(orders) && HeaderCount(orders', guids[0]) == 1
      && ReadsBackAs(ItemsOf(items', guids[0]), newOrder.items, guids[1..])
      && (forall other :: other != guids[0] ==> ItemsOf(items', other) == ItemsOf(items, other))
      && Consistent(orders', items')
  {
    var id := guids[0];
    var sub := NonNullPrefix(newOrder.items);
    var stamped := StampedRows(sub, id, guids[1..]);
    assert id in guids;
    assert forall x :: x in items ==> x.idOrder != id;
    ItemsOfAbsent(items, id);
    ItemsOfAppend(items, stamped, id);
    StampedReadsBack(newOrder.items, id, guids[1..]);
    forall other | other != id ensures ItemsOf(items + stamped, other) == ItemsOf(items, other) {
      ItemsOfAppend(items, stamped, other);
      StampedBelongToOne(sub, id, guids[1..], other);
    }
    CreateKeepsConsistent(orders, items, newOrder, guids);
  }

  /** After an update of a stored order, its header holds the new fields, its items read back as
      the submitted ones (the old ones gone), every other order keeps its header and items, and
      the store stays consistent. */
  lemma UpdatedOrderReadsBack(orders: seq<OrderRow>, items: seq<ItemRow>, id: Id, updated: SalesOrder, guids: seq<Id>)
    requires Consistent(orders, items) && id in OrderIds(orders)
    requires FreshGuids(guids, |updated.items|, orders, items)
    ensures var orders' := SetHeader(orders, id, updated);
      var items' := WithoutItemsOf(items, id) + StampedRows(NonNullPrefix(updated.items), id, guids);
      (forall o :: o in orders' && o.idOrder == id ==> o == NewHeaderRow(id, updated))
      && (forall o :: o in orders && o.idOrder != id ==> o in orders')
      && ReadsBackAs(ItemsOf(items', id), updated.items, guids)
      && (forall other :: other != id ==> ItemsOf(items', other) == ItemsOf(items, other))
      && Consistent(orders', items')
  {
    var sub := NonNullPrefix(updated.items);
    var kept := WithoutItemsOf(items, id);
    var stamped := StampedRows(sub, id, guids);
    var orders' := SetHeader(orders, id, updated);
    forall o | o in orders' && o.idOrder == id ensures o == NewHeaderRow(id, updated) {
      var i :| 0 <= i < |orders'| && orders'[i] == o;
    }
    forall o | o in orders && o.idOrder != id ensures o in orders' {
      var i :| 0 <= i < |orders| && orders[i] == o;
      assert orders'[i] == o;
    }
    ItemsOfAppend(kept, stamped, id);
    ItemsOfWithout(items, id, id);
    StampedReadsBack(updated.items, id, guids);
    forall other | other != id ensures ItemsOf(kept + stamped, other) == ItemsOf(items, other) {
      ItemsOfAppend(kept, stamped, other);
      ItemsOfWithout(items, id, other);
      StampedBelongToOne(sub, id, guids, other);
    }
    SetHeaderKeepsUnique(orders, id, updated);
    ReplacedItemsKeepParents(orders, orders', items, kept, id);
    StampedRowsHaveParent(orders', kept, sub, id, guids);
    StampedIdsUnique(kept, sub, id, guids);
  }

  /** After a delete the order is gone with all its items: a second delete affects no row and
      a lookup finds nothing; every other order keeps its header and items; the count drops by
      the one header deleted. Deleting the items first keeps every item's parent in place at the
      intermediate step too. */
  lemma DeletedOrderIsGone(orders: seq<OrderRow>, items: seq<ItemRow>, id: Id)
    requires Consistent(orders, items)
    ensures var orders' := WithoutOrder(orders, id);
      var items' := WithoutItemsOf(items, id);
      id !in OrderIds(orders') && HeaderCount(orders', id) == 0
      && ItemsOf(items', id) == []
      && (forall o :: o in orders && o.idOrder != id ==> o in orders' && ItemsOf(items', o.idOrder) == ItemsOf(items, o.idOrder))
      && |orders'| == |orders| - (if id in OrderIds(orders) then 1 else 0)
      && Consistent(orders, items')
      && Consistent(orders', items')
  {
    var orders' := WithoutOrder(orders, id);
    var items' := WithoutItemsOf(items, id);
    ItemsOfWithout(items, id, id);
    forall o | o in orders && o.idOrder != id ensures ItemsOf(items', o.idOrder) == ItemsOf(items, o.idOrder) {
      ItemsOfWithout(items, id, o.idOrder);
    }
    DeletionKeepsParents(orders, orders', items', id);
  }

  /** Deleting the header first, as the reverse order of statements would, orphans the items of
      an order that has any. */
  lemma HeaderFirstOrphansItems(orders: seq<OrderRow>, items: seq<ItemRow>, id: Id)
    requires Consistent(orders, items)
    requires exists x :: x in items && x.idOrder == id
    ensures !ItemsHaveParent(WithoutOrder(orders, id), items)
  {
    var x :| x in items && x.idOrder == id;
    assert x.idOrder !in OrderIds(WithoutOrder(orders, id));
  }

  // ---------------------------------------------------------------------------
  // Proof steps

  lemma CreateKeepsConsistent(orders: seq<OrderRow>, items: seq<ItemRow>, newOrder: SalesOrder, guids: seq<Id>)
    requires Consistent(orders, items)
    requires FreshGuids(guids, 1 + |newOrder.items|, orders, items)
    ensures var orders' := orders + [NewHeaderRow(guids[0], newOrder)];
      HeaderCount(orders', guids[0]) == 1
      && Consistent(orders', items + StampedRows(NonNullPrefix(newOrder.items), guids[0], guids[1..]))
  {
    var id := guids[0];
    var row := NewHeaderRow(id, newOrder);
    var sub := NonNullPrefix(newOrder.items);
    assert id in guids;
    HeaderCountAppend(orders, row, id);
    NewOrderKeepsGuidsFresh(guids, orders, row, items);
    assert UniqueOrderIds(orders + [row]);
    StampedRowsHaveParent(orders + [row], items, sub, id, guids[1..]);
    assert forall x :: x in items ==> x.idOrder in OrderIds(orders + [row]) by {
      forall x | x in items ensures x.idOrder in OrderIds(orders + [row]) {
        var o :| o in orders && o.idOrder == x.idOrder;
        assert o in orders + [row];
      }
    }
    StampedIdsUnique(items, sub, id, guids[1..]);
  }

  lemma HeaderCountAppend(orders: seq<OrderRow>, row: OrderRow, id: Id)
    requires UniqueOrderIds(orders)
    requires id == row.idOrder && id !in OrderIds(orders)
    ensures HeaderCount(orders + [row], id) == 1
  {
    var all := orders + [row];
    assert HeaderCount(all, id) > 0 by { assert row in all; }
    assert forall i, j :: 0 <= i < j < |all| ==> all[i].idOrder != all[j].idOrder by {
      forall i, j | 0 <= i < j < |all| ensures all[i].idOrder != all[j].idOrder {
        if j == |all| - 1 {
          assert all[i] in orders && all[i].idOrder in OrderIds(orders);
        } else {
          assert all[i] == orders[i] && all[j] == orders[j];
        }
      }
    }
  }

  lemma SetHeaderKeepsUnique(orders: seq<OrderRow>, id: Id, updated: SalesOrder)
    requires UniqueOrderIds(orders)
    ensures UniqueOrderIds(SetHeader(orders, id, updated))
  {
  }

  lemma StampedIdsUnique(items: seq<ItemRow>, sub: seq<ItemOrder>, id: Id, guids: seq<Id>)
    requires |sub| <= |guids|
    requires UniqueItemIds(items)
    requires forall i, j :: 0 <= i < j < |guids| ==> guids[i] != guids[j]
    requires forall g :: g in guids ==> g !in ItemIds(items)
    ensures UniqueItemIds(items + StampedRows(sub, id, guids))
  {
    var all := items + StampedRows(sub, id, guids);
    forall i, j | 0 <= i < j < |all| ensures all[i].idItem != all[j].idItem {
      if j >= |items| {
        assert all[j].idItem == guids[j - |items|] && guids[j - |items|] in guids;
        if i < |items| {
          assert all[i] in items;
        }
      }
    }
  }
}
