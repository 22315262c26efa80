/** Where SalesOrderRepository and SalesOrderService disagree on the same stored rows: the
    keyword filter, the treatment of an empty keyword, the null item of an order without
    items, and validation. */
module Divergence {
  import opened Models
  import opened Store
  import opened Query
  import opened RowMapper
  import Repository
  import Service

  // ---------------------------------------------------------------------------
  // Keyword search: substring (repository) versus exact match (service)

  /** A non-empty keyword the service matches exactly is found by the repository's substring
      search too; the day filter is the same in both. */
  lemma ExactMatchIsSubstringMatch(o: OrderRow, k: string, date: Option<DateTime>)
    requires k != []
    ensures Service.ServiceMatches(o, Some(k), date) ==> Repository.MatchesSearch(o, Some(k), date)
    ensures Service.ServiceMatches(o, None, date) <==> Repository.MatchesSearch(o, None, date)
  {
    assert StartsWith(k, k) by { assert k[..|k|] == k; }
  }

  /** An order the repository finds by part of its number and the service does not. */
  lemma SubstringIsNotExact()
    ensures var o := OrderRow("order-1", Some("SO-1"), MinValue, Some("Acme"), None);
      Repository.MatchesSearch(o, Some("SO"), None) && !Service.ServiceMatches(o, Some("SO"), None)
  {
    var s := "SO-1";
    assert s[..2] == "SO";
    assert StartsWith(s, "SO");
  }

  /** The service treats an empty keyword as no keyword. The repository applies it as the
      pattern '%%', which every non-null number or customer matches and NULL does not. */
  lemma EmptyKeyword(o: OrderRow, date: Option<DateTime>)
    ensures Service.ServiceMatches(o, Some([]), date) <==> Service.ServiceMatches(o, None, date)
    ensures Repository.MatchesSearch(o, Some([]), date)
      <==> (o.numberOrder.Some? || o.customer.Some?) && Repository.MatchesSearch(o, None, date)
  {
    if o.numberOrder.Some? {
      assert StartsWith(o.numberOrder.value, []);
    }
    if o.customer.Some? {
      assert StartsWith(o.customer.value, []);
    }
  }

  /** An order with neither number nor customer: the service lists it for an empty keyword,
      the repository does not. */
  lemma EmptyKeywordMissesNulls()
    ensures var o := OrderRow("order-2", None, MinValue, None, None);
      Service.ServiceMatches(o, Some([]), None) && !Repository.MatchesSearch(o, Some([]), None)
  {
  }

  // ---------------------------------------------------------------------------
  // The null item

  /** An order without items comes back from the repository's lookup with one null item and
      from the service with none; an order with items comes back the same from both. */
  lemma PhantomNullItem(o: OrderRow, items: seq<ItemRow>)
    ensures ItemsOf(items, o.idOrder) == [] ==>
      Aggregate(o, items, false).items == [None] && Aggregate(o, items, true).items == []
    ensures ItemsOf(items, o.idOrder) != [] ==>
      Aggregate(o, items, false) == Aggregate(o, items, true)
      && |Aggregate(o, items, true).items| == |ItemsOf(items, o.idOrder)|
      && forall k :: 0 <= k < |ItemsOf(items, o.idOrder)| ==>
           Aggregate(o, items, true).items[k] == Some(ItemsOf(items, o.idOrder)[k])
  {
  }

  /** Folding any join rows, the service's item list is the repository's with the nulls
      dropped: the two mappers differ in the null items and nowhere else. */
  lemma MappersDifferOnlyInNulls(rows: seq<JoinRow>, id: Id)
    requires id in RowIds(rows)
    ensures Established(rows, id, true) == Established(rows, id, false).(items := RemoveNulls(Established(rows, id, false).items))
  {
    GuardDropsOnlyNulls(rows, id);
  }

  /** An order saved with no items reads back from the repository with one null item. */
  lemma EmptyOrderGainsNullItem(orders: seq<OrderRow>, items: seq<ItemRow>, newOrder: SalesOrder, guids: seq<Id>)
    requires Consistent(orders, items)
    requires FreshGuids(guids, 1, orders, items)
    requires newOrder.items == []
    ensures var items' := items + StampedRows(NonNullPrefix(newOrder.items), guids[0], guids[1..]);
      Aggregate(NewHeaderRow(guids[0], newOrder), items', false).items == [None]
      && Aggregate(NewHeaderRow(guids[0], newOrder), items', true).items == []
  {
    var id := guids[0];
    assert id in guids;
    assert forall x :: x in items ==> x.idOrder != id;
    ItemsOfAbsent(items, id);
    assert NonNullPrefix(newOrder.items) == [];
    assert items + StampedRows([], id, guids[1..]) == items;
  }

  // ---------------------------------------------------------------------------
  // Validation

  /** The repository refuses an order whose number is null, empty or white space only; the
      service has no such check and stores it. */
  lemma BlankNumberRejected(order: SalesOrder)
    requires IsNullOrWhiteSpace(order.numberOrder)
    ensures !Repository.PassesValidation(order)
    ensures Repository.ValidateSalesOrder(order) == Some(ArgumentException(Repository.FillAllFields))
  {
    Repository.TextIsNotWhiteSpace(order.numberOrder);
  }

  /** A single space is such a number. */
  lemma SpaceIsBlank()
    ensures IsNullOrWhiteSpace(Some(" ")) && IsNullOrWhiteSpace(Some([])) && IsNullOrWhiteSpace(None)
  {
    assert AllWhiteSpace([]);
    assert IsWhiteSpace(' ') && " "[1..] == [];
  }
}
