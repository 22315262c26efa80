/** One order's life through each class, for any order with one item and any two fresh
    GUIDs: create it, read it, replace its items by none, read it again, delete it twice. */
module Scenario {
  import opened Models
  import opened Store
  import opened Query
  import opened RowMapper
  import opened Repository
  import opened Service

  /** A table of one order lists as that order. */
  lemma ListingOfOne(table: seq<OrderRow>, items: seq<ItemRow>)
    requires |table| == 1
    ensures Aggregates(SortByDateDesc(table), items, true) == [Aggregate(table[0], items, true)]
  {
    var sorted := SortByDateDesc(table);
    assert sorted[0] in multiset(table);
    assert sorted[0] in table;
    assert sorted == table;
  }

  /** A table of one item row reads back as that item for its order. */
  lemma ItemsOfOne(r: ItemRow)
    ensures ItemsOf([r], r.idOrder) == [ReadItem(r)]
    ensures AggregateItems(ItemsOf([r], r.idOrder), true) == [Some(ReadItem(r))]
    ensures AggregateItems(ItemsOf([r], r.idOrder), false) == [Some(ReadItem(r))]
  {
    assert [r][1..] == [];
  }

  /** Deleting the only order or the only item's order empties its table. */
  lemma DeleteOnly(row: OrderRow, item: ItemRow)
    requires item.idOrder == row.idOrder
    ensures WithoutOrder([row], row.idOrder) == [] && HeaderCount([row], row.idOrder) == 1
    ensures WithoutItemsOf([item], row.idOrder) == []
  {
    assert [row][1..] == [] && [item][1..] == [];
  }

  /** Creating the order in an empty store: its GUIDs are fresh, its item list has no null, and
      the item loop appends exactly one row for its item under the second GUID. */
  lemma CreateOne(it: ItemOrder, orderGuid: Id, itemGuid: Id)
    requires orderGuid != itemGuid
    ensures FreshGuids([orderGuid, itemGuid], 2, [], [])
    ensures NoNulls([Some(it)])
    ensures [] + StampedRows(NonNullPrefix([Some(it)]), orderGuid, [orderGuid, itemGuid][1..])
      == [ItemRow(itemGuid, orderGuid, it.itemName, it.qty, it.price, None)]
  {
    assert FirstNull([Some(it)]) == 1;
  }

  /** Updating the only order with no items keeps its header and empties the item table. */
  lemma EmptyOne(row: OrderRow, stored: ItemRow, emptied: SalesOrder)
    requires stored.idOrder == row.idOrder && emptied.items == []
    requires NewHeaderRow(row.idOrder, emptied) == row
    ensures row.idOrder in OrderIds([row])
    ensures FreshGuids([], 0, [row], [stored])
    ensures SetHeader([row], row.idOrder, emptied) == [row]
    ensures WithoutItemsOf([stored], row.idOrder) + StampedRows(NonNullPrefix(emptied.items), row.idOrder, []) == []
    ensures NoNulls(emptied.items)
  {
    assert row in [row];
    assert [stored][1..] == [];
  }

  /** Through SalesOrderRepository: the count grows by one and the lookup returns the order with
      its one item under its new id. */
  method RepositoryCreateThenRead(order: SalesOrder, it: ItemOrder, orderGuid: Id, itemGuid: Id)
    requires PassesValidation(order) && order.items == [Some(it)] && orderGuid != itemGuid
  {
    var db := new Database();
    var repo := new SalesOrderRepository(db);
    var before := repo.GetSalesOrderCount();
    CreateOne(it, orderGuid, itemGuid);
    var created := repo.CreateSalesOrder(order, [orderGuid, itemGuid]);
    assert created == Returned(true);
    var after := repo.GetSalesOrderCount();
    assert after == before + 1;

    var row := NewHeaderRow(orderGuid, order);
    var stored := ItemRow(itemGuid, orderGuid, it.itemName, it.qty, it.price, None);
    assert db.orders == [row] && db.items == [stored];
    ItemsOfOne(stored);
    var found := repo.GetSalesOrderById(orderGuid);
    assert orderGuid in OrderIds(db.orders) by { assert row in db.orders; }
    assert found == Some(Aggregate(row, [stored], false));
    assert found.value.items == [Some(ItemOrder(Some(itemGuid), None, it.itemName, it.qty, it.price, 0))];
  }

  /** Through SalesOrderRepository: after the update with no items the lookup returns the order
      with one null item, not an empty list. */
  method RepositoryReplaceItems(order: SalesOrder, it: ItemOrder, orderGuid: Id, itemGuid: Id)
    requires PassesValidation(order) && order.items == [Some(it)] && orderGuid != itemGuid
  {
    var db := new Database();
    var repo := new SalesOrderRepository(db);
    CreateOne(it, orderGuid, itemGuid);
    var created := repo.CreateSalesOrder(order, [orderGuid, itemGuid]);
    var row := NewHeaderRow(orderGuid, order);
    var stored := ItemRow(itemGuid, orderGuid, it.itemName, it.qty, it.price, None);
    assert db.orders == [row] && db.items == [stored];

    var emptied := order.(items := []);
    assert PassesValidation(emptied) by { TextIsNotWhiteSpace(order.numberOrder); TextIsNotWhiteSpace(order.customer); }
    EmptyOne(row, stored, emptied);
    var updated := repo.UpdateSalesOrder(orderGuid, emptied, []);
    assert updated == Returned(true);
    assert db.items == [] && db.orders == [row];
    var found := repo.GetSalesOrderById(orderGuid);
    assert orderGuid in OrderIds(db.orders) by { assert row in db.orders; }
    assert found == Some(Aggregate(row, [], false));
    assert found.value.items == [None];
  }

  /** Through SalesOrderRepository: after the delete the lookup finds nothing, and a second
      delete fails. */
  method RepositoryDeleteTwice(order: SalesOrder, it: ItemOrder, orderGuid: Id, itemGuid: Id)
    requires PassesValidation(order) && order.items == [Some(it)] && orderGuid != itemGuid
  {
    var db := new Database();
    var repo := new SalesOrderRepository(db);
    CreateOne(it, orderGuid, itemGuid);
    var created := repo.CreateSalesOrder(order, [orderGuid, itemGuid]);
    var row := NewHeaderRow(orderGuid, order);
    var stored := ItemRow(itemGuid, orderGuid, it.itemName, it.qty, it.price, None);
    assert db.orders == [row] && db.items == [stored];
    assert orderGuid in OrderIds(db.orders) by { assert row in db.orders; }
    DeleteOnly(row, stored);

    var deleted := repo.DeleteSalesOrder(orderGuid);
    assert deleted;
    assert db.orders == [];
    var found := repo.GetSalesOrderById(orderGuid);
    assert found == None;
    deleted := repo.DeleteSalesOrder(orderGuid);
    assert !deleted;
  }

  /** Through SalesOrderService: the listing shows the created order with its one item. */
  method ServiceCreateThenList(order: SalesOrder, it: ItemOrder, orderGuid: Id, itemGuid: Id)
    requires order.items == [Some(it)] && orderGuid != itemGuid
  {
    var db := new Database();
    var service := new SalesOrderService(db);
    CreateOne(it, orderGuid, itemGuid);
    var created := service.CreateSalesOrder(order, [orderGuid, itemGuid]);
    assert created == Returned(true);

    var row := NewHeaderRow(orderGuid, order);
    var stored := ItemRow(itemGuid, orderGuid, it.itemName, it.qty, it.price, None);
    assert db.orders == [row] && db.items == [stored];
    ItemsOfOne(stored);
    var listed := service.GetSalesOrders();
    ListingOfOne(db.orders, db.items);
    assert listed == [Aggregate(row, [stored], true)];
    assert listed[0].items == [Some(ItemOrder(Some(itemGuid), None, it.itemName, it.qty, it.price, 0))];
  }

  /** Through SalesOrderService: after the update with no items the listing shows the order with
      an empty item list. */
  method ServiceReplaceItems(order: SalesOrder, it: ItemOrder, orderGuid: Id, itemGuid: Id)
    requires order.items == [Some(it)] && orderGuid != itemGuid
  {
    var db := new Database();
    var service := new SalesOrderService(db);
    CreateOne(it, orderGuid, itemGuid);
    var created := service.CreateSalesOrder(order, [orderGuid, itemGuid]);
    var row := NewHeaderRow(orderGuid, order);
    var stored := ItemRow(itemGuid, orderGuid, it.itemName, it.qty, it.price, None);
    assert db.orders == [row] && db.items == [stored];

    var emptied := order.(items := []);
    EmptyOne(row, stored, emptied);
    var updated := service.UpdateSalesOrder(orderGuid, emptied, []);
    assert updated == Returned(true);
    assert db.items == [] && db.orders == [row];
    var listed := service.GetSalesOrders();
    ListingOfOne(db.orders, db.items);
    assert listed == [Aggregate(row, [], true)];
    assert listed[0].items == [];
  }

  /** Through SalesOrderService: after the delete the listing is empty, and a second delete
      fails. */
  method ServiceDeleteTwice(order: SalesOrder, it: ItemOrder, orderGuid: Id, itemGuid: Id)
    requires order.items == [Some(it)] && orderGuid != itemGuid
  {
    var db := new Database();
    var service := new SalesOrderService(db);
    CreateOne(it, orderGuid, itemGuid);
    var created := service.CreateSalesOrder(order, [orderGuid, itemGuid]);
    var row := NewHeaderRow(orderGuid, order);
    var stored := ItemRow(itemGuid, orderGuid, it.itemName, it.qty, it.price, None);
    assert db.orders == [row] && db.items == [stored];
    assert orderGuid in OrderIds(db.orders) by { assert row in db.orders; }
    DeleteOnly(row, stored);

    var deleted := service.DeleteSalesOrder(orderGuid);
    assert deleted;
    assert db.orders == [];
    var listed := service.GetSalesOrders();
    assert listed == [];
    deleted := service.DeleteSalesOrder(orderGuid);
    assert !deleted;
  }
}
