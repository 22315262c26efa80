/** SalesOrderService, the variant the application registers: writes without validation,
    an unpaginated listing of full orders, and a search by exact keyword and calendar day
    whose WHERE clause is built one filter at a time. Its row mapper skips null items. */
module Service {
  import opened Models
  import opened Store
  import opened Query
  import opened RowMapper

  /** One `AND` condition appended to `WHERE 1 = 1`. */
  datatype Clause =
    | NumberOrCustomerIs(keywords: string)   // so.number_order = @Keywords OR so.customer = @Keywords
    | OnDay(day: Day)                        // CAST(so.date AS DATE) = @Date

  predicate Holds(c: Clause, o: OrderRow) {
    match c
    case NumberOrCustomerIs(k) => o.numberOrder == Some(k) || o.customer == Some(k)
    case OnDay(d) => o.date.day == d
  }

  /** `WHERE 1 = 1 AND c0 AND c1 ...`. */
  predicate HoldsAll(clauses: seq<Clause>, o: OrderRow) {
    forall i :: 0 <= i < |clauses| ==> Holds(clauses[i], o)
  }

  /** The search's intended filter: an exact keyword on number or customer unless the keyword
      is null or empty, and the calendar day when a date is given. */
  predicate ServiceMatches(o: OrderRow, keywords: Option<string>, date: Option<DateTime>)
    ensures IsNullOrEmpty(keywords) && date.None? ==> ServiceMatches(o, keywords, date)
  {
    (IsNullOrEmpty(keywords) || o.numberOrder == keywords || o.customer == keywords)
    && (date.None? || SameDay(o.date, date.value))
  }

  /** An empty keyword counts as no keyword, and each filter only narrows the search. */
  lemma ServiceFiltersNarrow(o: OrderRow, keywords: Option<string>, date: Option<DateTime>)
    ensures IsNullOrEmpty(keywords) ==> (ServiceMatches(o, keywords, date) <==> ServiceMatches(o, None, date))
    ensures ServiceMatches(o, keywords, date) ==> ServiceMatches(o, None, date) && ServiceMatches(o, keywords, None)
  {
  }

  /** The query-building steps of SearchSalesOrders: a keyword clause only for a non-empty
      keyword, a day clause only for a given date. */
  method BuildWhere(keywords: Option<string>, date: Option<DateTime>) returns (clauses: seq<Clause>)
    ensures forall o :: HoldsAll(clauses, o) <==> ServiceMatches(o, keywords, date)
    ensures |clauses| == (if IsNullOrEmpty(keywords) then 0 else 1) + (if date.Some? then 1 else 0)
  {
    clauses := [];
    if !IsNullOrEmpty(keywords) {
      clauses := clauses + [NumberOrCustomerIs(keywords.value)];
    }
    if date.Some? {
      clauses := clauses + [OnDay(date.value.day)];
    }
    forall o ensures HoldsAll(clauses, o) <==> ServiceMatches(o, keywords, date) {
      if HoldsAll(clauses, o) {
        if !IsNullOrEmpty(keywords) {
          assert Holds(clauses[0], o);
        }
        if date.Some? {
          assert Holds(clauses[|clauses| - 1], o);
        }
      }
    }
  }

  class SalesOrderService {
    const db: Database

    constructor (db: Database)
      ensures this.db == db
    {
      this.db := db;
    }

    /** Insert the header under a new GUID, then its items; no validation. `guids[0]` is the
        order's GUID and `guids[1..]` those of the items. */
    method CreateSalesOrder(newOrder: SalesOrder, guids: seq<Id>) returns (r: Outcome<bool>)
      requires db.Valid()
      requires FreshGuids(guids, 1 + |newOrder.items|, db.orders, db.items)
      modifies db
      ensures db.Valid()
      ensures db.orders == old(db.orders) + [NewHeaderRow(guids[0], newOrder)]
      ensures db.items == old(db.items) + StampedRows(NonNullPrefix(newOrder.items), guids[0], guids[1..])
      ensures r == if NoNulls(newOrder.items) then Returned(true) else Threw(NullReferenceException)
    {
      var orderId := guids[0];
      assert guids[0] in guids;
      var orderResult := db.InsertOrder(NewHeaderRow(orderId, newOrder));
      if orderResult > 0 {
        NewOrderKeepsGuidsFresh(guids, old(db.orders), NewHeaderRow(orderId, newOrder), db.items);
        var threw := InsertOrderItems(db, orderId, newOrder.items, guids[1..]);
        StampedRowsHaveParent(db.orders, old(db.items), NonNullPrefix(newOrder.items), orderId, guids[1..]);
        r := if threw then Threw(NullReferenceException) else Returned(true);
      } else {
        r := Returned(false);
      }
    }

    /** Every order with its non-null items, latest first. */
    method GetSalesOrders() returns (r: seq<SalesOrder>)
      requires db.Valid()
      ensures r == Aggregates(SortByDateDesc(db.orders), db.items, true)
      ensures |r| == |db.orders|
      ensures forall i, j :: 0 <= i < j < |r| ==> !Later(r[j].date, r[i].date)
      ensures forall i, j :: 0 <= i < j < |r| ==> r[i].idOrder != r[j].idOrder
      ensures forall o :: o in db.orders ==> Aggregate(o, db.items, true) in r
      ensures forall a :: a in r ==> exists o :: o in db.orders && a == Aggregate(o, db.items, true)
    {
      var sorted := SortByDateDesc(db.orders);
      var keys, dict := MapRows(LeftJoin(sorted, db.items), true);
      MappedJoinIsAggregates(sorted, db.items, true, keys, dict);
      r := ValuesInOrder(keys, dict);
      assert r == Aggregates(sorted, db.items, true);
      AggregatesFollowTable(sorted, db.items, true);
      assert forall o :: o in sorted <==> o in db.orders by {
        assert forall o :: o in sorted <==> o in multiset(sorted);
      }
      AggregatesAreTheTable(sorted, db.items, true);
    }

    /** Update the header; if it hit no row return false; else replace all items of the order
        by the submitted ones under new GUIDs; no validation. */
    method UpdateSalesOrder(id: Id, updatedOrder: SalesOrder, guids: seq<Id>) returns (r: Outcome<bool>)
      requires db.Valid()
      requires FreshGuids(guids, |updatedOrder.items|, db.orders, db.items)
      modifies db
      ensures db.Valid()
      ensures id !in OrderIds(old(db.orders)) ==>
        r == Returned(false) && db.orders == old(db.orders) && db.items == old(db.items)
      ensures id in OrderIds(old(db.orders)) ==>
        db.orders == SetHeader(old(db.orders), id, updatedOrder)
        && db.items == WithoutItemsOf(old(db.items), id) + StampedRows(NonNullPrefix(updatedOrder.items), id, guids)
        && r == if NoNulls(updatedOrder.items) then Returned(true) else Threw(NullReferenceException)
    {
      var orderResult := db.UpdateOrder(id, updatedOrder);
      if orderResult > 0 {
        var _ := db.DeleteItemsOf(id);
        ReplacedItemsKeepParents(old(db.orders), db.orders, old(db.items), db.items, id);
        var threw := InsertOrderItems(db, id, updatedOrder.items, guids);
        StampedRowsHaveParent(db.orders, WithoutItemsOf(old(db.items), id), NonNullPrefix(updatedOrder.items), id, guids);
        r := if threw then Threw(NullReferenceException) else Returned(true);
      } else {
        r := Returned(false);
      }
    }

    /** Delete the order's items, then its header; true iff a header row was deleted. */
    method DeleteSalesOrder(id: Id) returns (deleted: bool)
      requires db.Valid()
      modifies db
      ensures db.Valid()
      ensures deleted <==> id in OrderIds(old(db.orders))
      ensures db.items == WithoutItemsOf(old(db.items), id)
      ensures db.orders == WithoutOrder(old(db.orders), id)
    {
      var _ := db.DeleteItemsOf(id);
      var affected := db.DeleteOrder(id);
      deleted := affected > 0;
      DeletionKeepsParents(old(db.orders), db.orders, db.items, id);
    }

    /** The matching orders with their non-null items, in table order (the query has no
        ORDER BY). */
    method SearchSalesOrders(keywords: Option<string>, date: Option<DateTime>) returns (r: seq<SalesOrder>)
      requires db.Valid()
      ensures r == Aggregates(Where(db.orders, (o: OrderRow) => ServiceMatches(o, keywords, date)), db.items, true)
      ensures forall i, j :: 0 <= i < j < |r| ==> r[i].idOrder != r[j].idOrder
      ensures forall o :: o in db.orders && ServiceMatches(o, keywords, date) ==> Aggregate(o, db.items, true) in r
      ensures forall a :: a in r ==>
        exists o :: o in db.orders && ServiceMatches(o, keywords, date) && a == Aggregate(o, db.items, true)
    {
      var clauses := BuildWhere(keywords, date);
      var keep := (o: OrderRow) => HoldsAll(clauses, o);
      var intended := (o: OrderRow) => ServiceMatches(o, keywords, date);
      WhereSame(db.orders, keep, intended);
      var selected := Where(db.orders, keep);
      var keys, dict := MapRows(LeftJoin(selected, db.items), true);
      MappedJoinIsAggregates(selected, db.items, true, keys, dict);
      r := ValuesInOrder(keys, dict);
      assert r == Aggregates(selected, db.items, true);
      AggregatesFollowTable(selected, db.items, true);
      AggregatesAreTheTable(selected, db.items, true);
      assert forall o :: o in selected <==> o in db.orders && ServiceMatches(o, keywords, date);
    }
  }

  // ---------------------------------------------------------------------------
  // Proof steps

  /** The rebuilt list holds exactly the rebuilt orders of the rows `table` holds. */
  lemma AggregatesAreTheTable(table: seq<OrderRow>, items: seq<ItemRow>, skip: bool)
    ensures forall o :: o in table ==> Aggregate(o, items, skip) in Aggregates(table, items, skip)
    ensures forall a :: a in Aggregates(table, items, skip) ==>
      exists o :: o in table && a == Aggregate(o, items, skip)
  {
    var r := Aggregates(table, items, skip);
    forall o | o in table ensures Aggregate(o, items, skip) in r {
      var i :| 0 <= i < |table| && table[i] == o;
      assert r[i] == Aggregate(o, items, skip);
    }
    forall a | a in r ensures exists o :: o in table && a == Aggregate(o, items, skip) {
      var i :| 0 <= i < |r| && r[i] == a;
      assert table[i] in table;
    }
  }
}
