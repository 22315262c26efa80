/** SalesOrderRepository: validates writes, pages listings and searches by keyword substring
    and calendar day. Its point lookup keeps the null item of an order without items. */
module Repository {
  import opened Models
  import opened Store
  import opened Query
  import opened RowMapper

  const FillAllFields: string := "Please fill in all fields"

  /** `s` is non-null and holds a character that is not white space. */
  predicate HasText(s: Option<string>) {
    s.Some? && exists i :: 0 <= i < |s.value| && !IsWhiteSpace(s.value[i])
  }

  /** ValidateSalesOrder: throws ArgumentException unless Number_Order and Customer hold text
      and Date is set. */
  function ValidateSalesOrder(order: SalesOrder): (failure: Option<Exception>)
    ensures failure.None? <==> HasText(order.numberOrder) && order.date != MinValue && HasText(order.customer)
    ensures failure.Some? ==> failure.value == ArgumentException(FillAllFields)
  {
    TextIsNotWhiteSpace(order.numberOrder);
    TextIsNotWhiteSpace(order.customer);
    if IsNullOrWhiteSpace(order.numberOrder) || order.date == MinValue || IsNullOrWhiteSpace(order.customer)
    then Some(ArgumentException(FillAllFields))
    else None
  }

  lemma TextIsNotWhiteSpace(s: Option<string>)
    ensures HasText(s) <==> !IsNullOrWhiteSpace(s)
  {
    if s.Some? {
      AllWhiteSpaceMeansEveryChar(s.value);
    }
  }

  predicate PassesValidation(order: SalesOrder) {
    ValidateSalesOrder(order).None?
  }

  /** `column LIKE '%' + keywords + '%'`; a NULL column matches nothing. */
  predicate Like(column: Option<string>, keywords: string)
    ensures Like(column, keywords) <==> column.Some? && exists i :: OccursAt(column.value, keywords, i)
  {
    match column
    case None => false
    case Some(c) => ContainsAt(c, keywords); Contains(c, keywords)
  }

  /** The WHERE clause of the search and its count: each filter applies only when given. */
  predicate MatchesSearch(o: OrderRow, keywords: Option<string>, date: Option<DateTime>)
    ensures keywords.None? && date.None? ==> MatchesSearch(o, keywords, date)
  {
    (keywords.None? || Like(o.numberOrder, keywords.value) || Like(o.customer, keywords.value))
    && (date.None? || SameDay(o.date, date.value))
  }

  /** Each filter only narrows the search: dropping the keyword or the date keeps every match. */
  lemma SearchFiltersNarrow(o: OrderRow, keywords: Option<string>, date: Option<DateTime>)
    ensures MatchesSearch(o, keywords, date) ==> MatchesSearch(o, None, date) && MatchesSearch(o, keywords, None)
  {
  }

  /** The rows the search's WHERE clause keeps, in table order. */
  function Matching(orders: seq<OrderRow>, keywords: Option<string>, date: Option<DateTime>): (r: seq<OrderRow>)
    ensures forall o :: o in r <==> o in orders && MatchesSearch(o, keywords, date)
    ensures |r| <= |orders|
  {
    Where(orders, o => MatchesSearch(o, keywords, date))
  }

  /** A window of a date-sorted sequence is date-sorted and drawn from it. */
  lemma WindowOfSorted(s: seq<OrderRow>, page: int, limit: int)
    requires page >= 1 && limit >= 1
    requires SortedByDate(s)
    ensures SortedByDate(Window(s, page, limit))
    ensures forall o :: o in Window(s, page, limit) ==> o in s
  {
    var w := Window(s, page, limit);
    var off := (page - 1) * limit;
    forall i, j | 0 <= i < j < |w| ensures !Later(w[j].date, w[i].date) {
      assert w[i] == s[off + i] && w[j] == s[off + j];
    }
    forall o | o in w ensures o in s {
      var k :| 0 <= k < |w| && w[k] == o;
      assert w[k] == s[off + k];
    }
  }

  /** A page of headers is at most `limit` long, sorted latest first, item-less, and drawn
      from `orders`. */
  lemma PageOfHeaders(orders: seq<OrderRow>, page: int, limit: int)
    requires page >= 1 && limit >= 1
    ensures |Headers(Window(SortByDateDesc(orders), page, limit))| <= limit
    ensures var r := Headers(Window(SortByDateDesc(orders), page, limit));
      forall i, j :: 0 <= i < j < |r| ==> !Later(r[j].date, r[i].date)
    ensures var r := Headers(Window(SortByDateDesc(orders), page, limit));
      forall i :: 0 <= i < |r| ==> r[i].items == [] && exists o :: o in orders && r[i] == HeaderOf(o)
  {
    var s := SortByDateDesc(orders);
    var w := Window(s, page, limit);
    WindowOfSorted(s, page, limit);
    var r := Headers(w);
    forall i, j | 0 <= i < j < |r| ensures !Later(r[j].date, r[i].date) {
      assert r[i].date == w[i].date && r[j].date == w[j].date;
    }
    forall i | 0 <= i < |r| ensures r[i].items == [] && exists o :: o in orders && r[i] == HeaderOf(o) {
      assert r[i] == HeaderOf(w[i]) && w[i] in w;
      assert w[i] in multiset(s);
    }
  }

  class SalesOrderRepository {
    const db: Database

    constructor (db: Database)
      ensures this.db == db
    {
      this.db := db;
    }

    /** Validate, insert the header under a new GUID, then its items; `guids[0]` is the order's
        GUID and `guids[1..]` those of the items. */
    method CreateSalesOrder(newOrder: SalesOrder, guids: seq<Id>) returns (r: Outcome<bool>)
      requires db.Valid()
      requires FreshGuids(guids, 1 + |newOrder.items|, db.orders, db.items)
      modifies db
      ensures db.Valid()
      ensures !PassesValidation(newOrder) ==>
        r == Threw(ArgumentException(FillAllFields))
        && db.orders == old(db.orders) && db.items == old(db.items)
      ensures PassesValidation(newOrder) ==>
        db.orders == old(db.orders) + [NewHeaderRow(guids[0], newOrder)]
        && db.items == old(db.items) + StampedRows(NonNullPrefix(newOrder.items), guids[0], guids[1..])
        && r == if NoNulls(newOrder.items) then Returned(true) else Threw(NullReferenceException)
    {
      var invalid := ValidateSalesOrder(newOrder);
      if invalid.Some? {
        return Threw(invalid.value);
      }
      var orderId := guids[0];
      assert guids[0] in guids;
      var orderResult := db.InsertOrder(NewHeaderRow(orderId, newOrder));
      if orderResult > 0 {
        NewOrderKeepsGuidsFresh(guids, old(db.orders), NewHeaderRow(orderId, newOrder), db.items);
        var threw := InsertOrderItems(db, orderId, newOrder.items, guids[1..]);
        StampedRowsHaveParent(db.orders, old(db.items), NonNullPrefix(newOrder.items), orderId, guids[1..]);
        r := if threw then Threw(NullReferenceException) else Returned(true);
      } else {
        r := Returned(false);
      }
    }

    /** SELECT COUNT(*) FROM SalesOrder. */
    method GetSalesOrderCount() returns (count: int)
      ensures count == |db.orders|
    {
      count := |db.orders|;
    }

    /** One page of order headers, latest first. */
    method GetSalesOrders(page: int, limit: int) returns (r: seq<SalesOrder>)
      requires page >= 1 && limit >= 1
      ensures r == Headers(Window(SortByDateDesc(db.orders), page, limit))
      ensures |r| <= limit
      ensures forall i, j :: 0 <= i < j < |r| ==> !Later(r[j].date, r[i].date)
      ensures forall i :: 0 <= i < |r| ==> r[i].items == [] && exists o :: o in db.orders && r[i] == HeaderOf(o)
    {
      r := Headers(Window(SortByDateDesc(db.orders), page, limit));
      PageOfHeaders(db.orders, page, limit);
    }

    /** The order with id `idOrder` and its items, or null. Every join row's item is added,
        so an order without items comes back with one null item. */
    method GetSalesOrderById(idOrder: Id) returns (r: Option<SalesOrder>)
      requires db.Valid()
      ensures r.None? <==> idOrder !in OrderIds(db.orders)
      ensures r.Some? ==> exists o :: o in db.orders && o.idOrder == idOrder && r.value == Aggregate(o, db.items, false)
    {
      var selected := Where(db.orders, (o: OrderRow) => o.idOrder == idOrder);
      var rows := LeftJoin(selected, db.items);
      var keys, dict := MapRows(rows, false);
      MapperRebuildsJoin(selected, db.items, false);
      if |keys| == 0 {
        r := None;
        assert selected == [];
        assert forall o :: o in db.orders ==> o.idOrder != idOrder;
      } else {
        assert selected[0] in selected;
        r := Some(dict[keys[0]]);
      }
    }

    /** Update the header; if it hit no row return false; else replace all items of the order
        by the submitted ones under new GUIDs. */
    method UpdateSalesOrder(id: Id, updatedOrder: SalesOrder, guids: seq<Id>) returns (r: Outcome<bool>)
      requires db.Valid()
      requires FreshGuids(guids, |updatedOrder.items|, db.orders, db.items)
      modifies db
      ensures db.Valid()
      ensures !PassesValidation(updatedOrder) ==>
        r == Threw(ArgumentException(FillAllFields))
        && db.orders == old(db.orders) && db.items == old(db.items)
      ensures PassesValidation(updatedOrder) && id !in OrderIds(old(db.orders)) ==>
        r == Returned(false) && db.orders == old(db.orders) && db.items == old(db.items)
      ensures PassesValidation(updatedOrder) && id in OrderIds(old(db.orders)) ==>
        db.orders == SetHeader(old(db.orders), id, updatedOrder)
        && db.items == WithoutItemsOf(old(db.items), id) + StampedRows(NonNullPrefix(updatedOrder.items), id, guids)
        && r == if NoNulls(updatedOrder.items) then Returned(true) else Threw(NullReferenceException)
    {
      var invalid := ValidateSalesOrder(updatedOrder);
      if invalid.Some? {
        return Threw(invalid.value);
      }
      var orderResult := db.UpdateOrder(id, updatedOrder);
      if orderResult > 0 {
        var _ := db.DeleteItemsOf(id);
        ReplacedItemsKeepParents(old(db.orders), db.orders, old(db.items), db.items, id);
        var threw := InsertOrderItems(db, id, updatedOrder.items, guids);
        StampedRowsHaveParent(db.orders, WithoutItemsOf(old(db.items), id), NonNullPrefix(updatedOrder.items), id, guids);
        r := if threw then Threw(NullReferenceException) else Returned(true);
      } else {
        r := Returned(false);
      }
    }

    /** Delete the order's items, then its header; true iff a header row was deleted. */
    method DeleteSalesOrder(id: Id) returns (deleted: bool)
      requires db.Valid()
      modifies db
      ensures db.Valid()
      ensures deleted <==> id in OrderIds(old(db.orders))
      ensures db.items == WithoutItemsOf(old(db.items), id)
      ensures db.orders == WithoutOrder(old(db.orders), id)
    {
      var _ := db.DeleteItemsOf(id);
      var affected := db.DeleteOrder(id);
      deleted := affected > 0;
      DeletionKeepsParents(old(db.orders), db.orders, db.items, id);
    }

    /** SELECT COUNT(1) with the search's WHERE clause. */
    method GetSearchSalesOrderCount(keywords: Option<string>, date: Option<DateTime>) returns (count: int)
      ensures count == |Matching(db.orders, keywords, date)|
      ensures count <= |db.orders|
    {
      count := |Matching(db.orders, keywords, date)|;
    }

    /** One page of the matching order headers, latest first. */
    method SearchSalesOrders(keywords: Option<string>, date: Option<DateTime>, page: int, limit: int)
      returns (r: seq<SalesOrder>)
      requires page >= 1 && limit >= 1
      ensures r == Headers(Window(SortByDateDesc(Matching(db.orders, keywords, date)), page, limit))
      ensures |r| <= limit
      ensures forall i, j :: 0 <= i < j < |r| ==> !Later(r[j].date, r[i].date)
      ensures forall i :: 0 <= i < |r| ==>
        r[i].items == [] && exists o :: o in Matching(db.orders, keywords, date) && r[i] == HeaderOf(o)
    {
      r := Headers(Window(SortByDateDesc(Matching(db.orders, keywords, date)), page, limit));
      PageOfHeaders(Matching(db.orders, keywords, date), page, limit);
    }
  }
}
