/** The Dapper multi-mapping callback both repository classes pass to QueryAsync: it folds the
    flat LEFT JOIN rows into nested orders through a Dictionary keyed by Id_Order.
    SalesOrderRepository.GetSalesOrderById appends every row's item, null included;
    SalesOrderService appends only non-null items (`skipNullItems`). The dictionary's
    insertion order is kept explicitly as the sequence `keys`. */
module RowMapper {
  import opened Models
  import opened Store
  import opened Query

  function RowIds(rows: seq<JoinRow>): set<Id> {
    set r | r in rows :: r.header.idOrder
  }

  predicate NoDuplicates(s: seq<Id>) {
    forall i, j :: 0 <= i < j < |s| ==> s[i] != s[j]
  }

  lemma RowIdsAppend(a: seq<JoinRow>, b: seq<JoinRow>)
    ensures RowIds(a + b) == RowIds(a) + RowIds(b)
  {
    assert forall r :: r in a + b <==> r in a || r in b;
  }

  lemma RowIdsSnoc(rows: seq<JoinRow>)
    requires rows != []
    ensures RowIds(rows) == RowIds(rows[..|rows| - 1]) + {rows[|rows| - 1].header.idOrder}
  {
    assert rows == rows[..|rows| - 1] + [rows[|rows| - 1]];
    RowIdsAppend(rows[..|rows| - 1], [rows[|rows| - 1]]);
  }

  lemma RowIdsMember(rows: seq<JoinRow>, k: int)
    requires 0 <= k < |rows|
    ensures rows[k].header.idOrder in RowIds(rows)
  {
    assert rows[k] in rows;
  }

  // ---------------------------------------------------------------------------
  // The fold, one row at a time from the front (the order Dapper calls the callback in)

  /** The dictionary's keys in insertion order: each order id where it first appears. */
  function DistinctIds(rows: seq<JoinRow>): seq<Id>
    decreases |rows|
  {
    if rows == [] then []
    else
      var seen := DistinctIds(rows[..|rows| - 1]);
      var id := rows[|rows| - 1].header.idOrder;
      if id in seen then seen else seen + [id]
  }

  /** The header the dictionary holds for `id`: set when `id` is first seen, never replaced. */
  function FirstHeader(rows: seq<JoinRow>, id: Id): OrderRow
    requires id in RowIds(rows)
    decreases |rows|
  {
    var init := rows[..|rows| - 1];
    if id in RowIds(init) then FirstHeader(init, id) else rows[|rows| - 1].header
  }

  /** The `Items` list the dictionary's order for `id` accumulates. */
  function ItemsFor(rows: seq<JoinRow>, id: Id, skipNullItems: bool): seq<Option<ItemOrder>>
    decreases |rows|
  {
    if rows == [] then []
    else
      var last := rows[|rows| - 1];
      ItemsFor(rows[..|rows| - 1], id, skipNullItems)
      + (if last.header.idOrder == id && !(skipNullItems && last.item.None?) then [last.item] else [])
  }

  /** The order the dictionary holds for `id` once every row has been seen. */
  function Established(rows: seq<JoinRow>, id: Id, skipNullItems: bool): SalesOrder
    requires id in RowIds(rows)
  {
    HeaderOf(FirstHeader(rows, id)).(items := ItemsFor(rows, id, skipNullItems))
  }

  /** `keys` and `dict` are what the callback leaves after seeing `rows`. */
  ghost predicate Mapped(rows: seq<JoinRow>, keys: seq<Id>, dict: map<Id, SalesOrder>, skipNullItems: bool) {
    keys == DistinctIds(rows)
    && dict.Keys == RowIds(rows)
    && forall id :: id in dict ==> dict[id] == Established(rows, id, skipNullItems)
  }

  /** QueryAsync calling the callback once per row, in row order. */
  method MapRows(rows: seq<JoinRow>, skipNullItems: bool) returns (keys: seq<Id>, dict: map<Id, SalesOrder>)
    ensures keys == DistinctIds(rows)
    ensures dict.Keys == RowIds(rows)
    ensures forall id :: id in dict ==> dict[id] == Established(rows, id, skipNullItems)
  {
    keys, dict := [], map[];
    var i := 0;
    while i < |rows|
      invariant 0 <= i <= |rows|
      invariant Mapped(rows[..i], keys, dict, skipNullItems)
    {
      keys, dict := Callback(rows[..i], rows[i], skipNullItems, keys, dict);
      assert rows[..i + 1] == rows[..i] + [rows[i]];
      i := i + 1;
    }
    assert rows[..i] == rows;
  }

  /** The callback on one row: `TryGetValue`; on a miss store the row's order with a fresh
      empty `Items`; then `Items.Add(item)` (only for a non-null item when `skipNullItems`).
      It extends what the rows seen so far established by this row. */
  method Callback(ghost seen: seq<JoinRow>, row: JoinRow, skipNullItems: bool, keys: seq<Id>, dict: map<Id, SalesOrder>)
    returns (keys': seq<Id>, dict': map<Id, SalesOrder>)
    requires Mapped(seen, keys, dict, skipNullItems)
    ensures Mapped(seen + [row], keys', dict', skipNullItems)
  {
    FoldStep(seen, row, skipNullItems);
    DistinctIdsFacts(seen);
    var id := row.header.idOrder;
    keys' := keys;
    var existing: SalesOrder;
    if id !in dict {
      existing := HeaderOf(row.header);
      keys' := keys + [id];
    } else {
      existing := dict[id];
    }
    if !skipNullItems || row.item.Some? {
      existing := existing.(items := existing.items + [row.item]);
    }
    dict' := dict[id := existing];
  }

  /** One callback: a new id becomes a key holding the row's header; the row's order gains the
      row's item (unless it is a skipped null); every other order stays as it was. */
  lemma FoldStep(pre: seq<JoinRow>, row: JoinRow, skip: bool)
    ensures RowIds(pre + [row]) == RowIds(pre) + {row.header.idOrder}
    ensures DistinctIds(pre + [row])
      == if row.header.idOrder in DistinctIds(pre) then DistinctIds(pre) else DistinctIds(pre) + [row.header.idOrder]
    ensures forall id :: id in RowIds(pre) && id != row.header.idOrder ==>
      Established(pre + [row], id, skip) == Established(pre, id, skip)
    ensures row.header.idOrder in RowIds(pre) ==>
      var e := Established(pre, row.header.idOrder, skip);
      Established(pre + [row], row.header.idOrder, skip)
        == e.(items := e.items + if !skip || row.item.Some? then [row.item] else [])
    ensures row.header.idOrder !in RowIds(pre) ==>
      Established(pre + [row], row.header.idOrder, skip)
        == HeaderOf(row.header).(items := if !skip || row.item.Some? then [row.item] else [])
  {
    var post := pre + [row];
    assert post[..|post| - 1] == pre && post[|post| - 1] == row;
    RowIdsSnoc(post);
    if row.header.idOrder !in RowIds(pre) {
      ItemsForAbsent(pre, row.header.idOrder, skip);
    }
  }

  // ---------------------------------------------------------------------------
  // What the fold yields

  /** Each order id of the rows is a key exactly once. */
  lemma {:induction false} DistinctIdsFacts(rows: seq<JoinRow>)
    ensures NoDuplicates(DistinctIds(rows))
    ensures forall id :: id in DistinctIds(rows) <==> id in RowIds(rows)
    decreases |rows|
  {
    if rows != [] {
      var init := rows[..|rows| - 1];
      DistinctIdsFacts(init);
      RowIdsSnoc(rows);
    }
  }

  /** Row `j` is the first with order id `id`. */
  predicate IsFirstRowOf(rows: seq<JoinRow>, id: Id, j: int) {
    0 <= j < |rows| && rows[j].header.idOrder == id
    && forall k :: 0 <= k < j ==> rows[k].header.idOrder != id
  }

  /** First writer wins: the header kept for an id is the one of the first row carrying it;
      later rows with that id do not replace it. */
  lemma {:induction false} FirstRowWins(rows: seq<JoinRow>, id: Id)
    requires id in RowIds(rows)
    ensures exists j :: IsFirstRowOf(rows, id, j) && rows[j].header == FirstHeader(rows, id)
    decreases |rows|
  {
    var init := rows[..|rows| - 1];
    RowIdsSnoc(rows);
    if id in RowIds(init) {
      FirstRowWins(init, id);
      var j :| IsFirstRowOf(init, id, j) && init[j].header == FirstHeader(init, id);
      assert FirstHeader(rows, id) == FirstHeader(init, id);
      assert forall k :: 0 <= k < j ==> rows[k] == init[k];
      assert IsFirstRowOf(rows, id, j) && rows[j].header == FirstHeader(rows, id);
    } else {
      var j := |rows| - 1;
      forall k | 0 <= k < j ensures rows[k].header.idOrder != id {
        assert rows[k] == init[k];
        RowIdsMember(init, k);
      }
      assert IsFirstRowOf(rows, id, j) && rows[j].header == FirstHeader(rows, id);
    }
  }

  /** `items` with its null elements dropped, order kept. */
  function RemoveNulls(s: seq<Option<ItemOrder>>): seq<Option<ItemOrder>>
    decreases |s|
  {
    if s == [] then []
    else RemoveNulls(s[..|s| - 1]) + (if s[|s| - 1].None? then [] else [s[|s| - 1]])
  }

  /** The two callbacks differ only in the null items: the guarded one yields the unguarded
      one's list without its nulls. */
  lemma {:induction false} GuardDropsOnlyNulls(rows: seq<JoinRow>, id: Id)
    ensures ItemsFor(rows, id, true) == RemoveNulls(ItemsFor(rows, id, false))
    decreases |rows|
  {
    if rows != [] {
      var init := rows[..|rows| - 1];
      var last := rows[|rows| - 1];
      GuardDropsOnlyNulls(init, id);
      var u := ItemsFor(init, id, false);
      if last.header.idOrder == id {
        assert ItemsFor(rows, id, false) == u + [last.item];
        assert (u + [last.item])[..|u|] == u;
      } else {
        assert ItemsFor(rows, id, false) == u;
      }
    }
  }

  // ---------------------------------------------------------------------------
  // The fold over a LEFT JOIN rebuilds each order with its items

  /** The `Items` an order gets from its join rows: its items as Some values; an order without
      items gets the one null of its lone join row, unless nulls are skipped. */
  function AggregateItems(its: seq<ItemOrder>, skipNullItems: bool): seq<Option<ItemOrder>> {
    if its == [] && !skipNullItems then [None]
    else seq(|its|, k requires 0 <= k < |its| => Some(its[k]))
  }

  /** The aggregate the mapper is meant to rebuild for stored order `o`. */
  function Aggregate(o: OrderRow, items: seq<ItemRow>, skipNullItems: bool): SalesOrder {
    HeaderOf(o).(items := AggregateItems(ItemsOf(items, o.idOrder), skipNullItems))
  }

  function IdSeq(orders: seq<OrderRow>): (r: seq<Id>)
    ensures |r| == |orders|
  {
    seq(|orders|, i requires 0 <= i < |orders| => orders[i].idOrder)
  }

  lemma {:induction false} ItemsForAppend(a: seq<JoinRow>, b: seq<JoinRow>, id: Id, skip: bool)
    ensures ItemsFor(a + b, id, skip) == ItemsFor(a, id, skip) + ItemsFor(b, id, skip)
    decreases |b|
  {
    if b == [] {
      assert a + b == a;
    } else {
      var binit := b[..|b| - 1];
      assert (a + b)[..|a + b| - 1] == a + binit && (a + b)[|a + b| - 1] == b[|b| - 1];
      ItemsForAppend(a, binit, id, skip);
    }
  }

  lemma {:induction false} ItemsForOther(b: seq<JoinRow>, x: Id, y: Id, skip: bool)
    requires forall k :: 0 <= k < |b| ==> b[k].header.idOrder == x
    requires y != x
    ensures ItemsFor(b, y, skip) == []
    decreases |b|
  {
    if b != [] {
      ItemsForOther(b[..|b| - 1], x, y, skip);
    }
  }

  lemma {:induction false} ItemsForAbsent(a: seq<JoinRow>, y: Id, skip: bool)
    requires y !in RowIds(a)
    ensures ItemsFor(a, y, skip) == []
    decreases |a|
  {
    if a != [] {
      var init := a[..|a| - 1];
      assert a[|a| - 1] in a;
      assert RowIds(init) <= RowIds(a) by {
        forall r | r in init ensures r in a {
          var j :| 0 <= j < |init| && init[j] == r;
          assert a[j] == r;
        }
      }
      ItemsForAbsent(init, y, skip);
    }
  }

  lemma {:induction false} ItemsForAllItems(b: seq<JoinRow>, x: Id, skip: bool)
    requires forall k :: 0 <= k < |b| ==> b[k].header.idOrder == x && b[k].item.Some?
    ensures ItemsFor(b, x, skip) == seq(|b|, k requires 0 <= k < |b| => b[k].item)
    decreases |b|
  {
    if b != [] {
      ItemsForAllItems(b[..|b| - 1], x, skip);
    }
  }

  lemma ItemsForJoinOf(o: OrderRow, items: seq<ItemRow>, y: Id, skip: bool)
    ensures ItemsFor(JoinOf(o, items), y, skip)
         == if y == o.idOrder then AggregateItems(ItemsOf(items, o.idOrder), skip) else []
  {
    var b := JoinOf(o, items);
    var its := ItemsOf(items, o.idOrder);
    if y != o.idOrder {
      ItemsForOther(b, o.idOrder, y, skip);
    } else if its == [] {
      assert b == [JoinRow(o, None)];
      assert ItemsFor(b, y, skip) == ItemsFor([], y, skip) + (if !skip then [None] else []);
    } else {
      ItemsForAllItems(b, o.idOrder, skip);
    }
  }

  lemma {:induction false} FirstHeaderAppend(a: seq<JoinRow>, b: seq<JoinRow>, y: Id)
    requires y in RowIds(a)
    ensures y in RowIds(a + b) && FirstHeader(a + b, y) == FirstHeader(a, y)
    decreases |b|
  {
    assert a[0] in a + b by { assert (a + b)[0] == a[0]; }
    if b == [] {
      assert a + b == a;
    } else {
      var binit := b[..|b| - 1];
      assert (a + b)[..|a + b| - 1] == a + binit;
      FirstHeaderAppend(a, binit, y);
      assert y in RowIds(a + binit);
    }
  }

  lemma {:induction false} FirstHeaderNew(a: seq<JoinRow>, b: seq<JoinRow>, o: OrderRow)
    requires b != [] && forall k :: 0 <= k < |b| ==> b[k].header == o
    requires o.idOrder !in RowIds(a)
    ensures o.idOrder in RowIds(a + b) && FirstHeader(a + b, o.idOrder) == o
    decreases |b|
  {
    var ab := a + b;
    assert ab[|ab| - 1] == b[|b| - 1] && b[|b| - 1] in ab;
    var binit := b[..|b| - 1];
    assert ab[..|ab| - 1] == a + binit;
    if binit != [] {
      FirstHeaderNew(a, binit, o);
    } else {
      assert a + binit == a;
    }
  }

  lemma {:induction false} DistinctIdsNew(a: seq<JoinRow>, b: seq<JoinRow>, x: Id)
    requires b != [] && forall k :: 0 <= k < |b| ==> b[k].header.idOrder == x
    requires x !in RowIds(a)
    ensures DistinctIds(a + b) == DistinctIds(a) + [x]
    decreases |b|
  {
    DistinctIdsFacts(a);
    var ab := a + b;
    var binit := b[..|b| - 1];
    assert ab[..|ab| - 1] == a + binit && ab[|ab| - 1] == b[|b| - 1];
    if binit == [] {
      assert a + binit == a;
    } else {
      DistinctIdsNew(a, binit, x);
    }
  }

  lemma RowIdsJoinOf(o: OrderRow, items: seq<ItemRow>)
    ensures RowIds(JoinOf(o, items)) == {o.idOrder}
  {
    var b := JoinOf(o, items);
    assert b[0] in b;
    assert forall r :: r in b ==> r.header == o;
  }

  /** Appending the join rows of a new order `last` keeps what the fold established for the
      orders before it and establishes `last` from its own rows. */
  lemma EstablishedAfterJoinOf(a: seq<JoinRow>, last: OrderRow, items: seq<ItemRow>, o: OrderRow, skip: bool)
    requires last.idOrder !in RowIds(a)
    requires o == last || (o.idOrder in RowIds(a) && Established(a, o.idOrder, skip) == Aggregate(o, items, skip))
    ensures o.idOrder in RowIds(a + JoinOf(last, items))
    ensures Established(a + JoinOf(last, items), o.idOrder, skip) == Aggregate(o, items, skip)
  {
    var b := JoinOf(last, items);
    ItemsForAppend(a, b, o.idOrder, skip);
    ItemsForJoinOf(last, items, o.idOrder, skip);
    if o == last {
      FirstHeaderNew(a, b, last);
      ItemsForAbsent(a, last.idOrder, skip);
    } else {
      assert HeaderOf(FirstHeader(a, o.idOrder)) == HeaderOf(o);
      FirstHeaderAppend(a, b, o.idOrder);
    }
  }

  lemma {:induction false} JoinRowIds(orders: seq<OrderRow>, items: seq<ItemRow>)
    ensures RowIds(LeftJoin(orders, items)) == OrderIds(orders)
    decreases |orders|
  {
    if orders != [] {
      var init := orders[..|orders| - 1];
      var last := orders[|orders| - 1];
      assert orders == init + [last];
      assert forall o :: o in orders <==> o in init || o == last;
      assert OrderIds(orders) == OrderIds(init) + {last.idOrder};
      JoinRowIds(init, items);
      RowIdsJoinOf(last, items);
      RowIdsAppend(LeftJoin(init, items), JoinOf(last, items));
    }
  }

  lemma LastIdIsNew(orders: seq<OrderRow>)
    requires orders != [] && UniqueOrderIds(orders)
    ensures orders[|orders| - 1].idOrder !in OrderIds(orders[..|orders| - 1])
  {
    var init := orders[..|orders| - 1];
    forall o | o in init ensures o.idOrder != orders[|orders| - 1].idOrder {
      var j :| 0 <= j < |init| && init[j] == o;
      assert orders[j] == o;
    }
  }

  /** The fold establishes each stored order `o` from the join: its header and exactly its
      items, in item-table order. */
  lemma {:induction false} MapperRebuildsOrder(orders: seq<OrderRow>, items: seq<ItemRow>, o: OrderRow, skip: bool)
    requires UniqueOrderIds(orders) && o in orders
    ensures o.idOrder in RowIds(LeftJoin(orders, items))
    ensures Established(LeftJoin(orders, items), o.idOrder, skip) == Aggregate(o, items, skip)
    decreases |orders|
  {
    var init := orders[..|orders| - 1];
    var last := orders[|orders| - 1];
    assert orders == init + [last];
    LastIdIsNew(orders);
    JoinRowIds(init, items);
    if o != last {
      assert o in init;
      MapperRebuildsOrder(init, items, o, skip);
    }
    EstablishedAfterJoinOf(LeftJoin(init, items), last, items, o, skip);
  }

  /** The fold's keys over the LEFT JOIN are the table's ids in table order. */
  lemma {:induction false} JoinKeysInTableOrder(orders: seq<OrderRow>, items: seq<ItemRow>)
    requires UniqueOrderIds(orders)
    ensures DistinctIds(LeftJoin(orders, items)) == IdSeq(orders)
    decreases |orders|
  {
    if orders != [] {
      var init := orders[..|orders| - 1];
      var last := orders[|orders| - 1];
      assert orders == init + [last];
      JoinKeysInTableOrder(init, items);
      LastIdIsNew(orders);
      JoinRowIds(init, items);
      RowIdsJoinOf(last, items);
      DistinctIdsNew(LeftJoin(init, items), JoinOf(last, items), last.idOrder);
      assert IdSeq(orders) == IdSeq(init) + [last.idOrder];
    }
  }

  /** Folding the LEFT JOIN of a table with unique ids gives each stored order once, in table
      order, each rebuilt with its header and exactly its items. */
  lemma MapperRebuildsJoin(orders: seq<OrderRow>, items: seq<ItemRow>, skip: bool)
    requires UniqueOrderIds(orders)
    ensures DistinctIds(LeftJoin(orders, items)) == IdSeq(orders)
    ensures RowIds(LeftJoin(orders, items)) == OrderIds(orders)
    ensures forall o :: o in orders ==>
      o.idOrder in RowIds(LeftJoin(orders, items))
      && Established(LeftJoin(orders, items), o.idOrder, skip) == Aggregate(o, items, skip)
  {
    JoinKeysInTableOrder(orders, items);
    JoinRowIds(orders, items);
    forall o | o in orders
      ensures o.idOrder in RowIds(LeftJoin(orders, items))
      ensures Established(LeftJoin(orders, items), o.idOrder, skip) == Aggregate(o, items, skip)
    {
      MapperRebuildsOrder(orders, items, o, skip);
    }
  }

  // ---------------------------------------------------------------------------
  // Reading the dictionary back

  /** `Dictionary.Values`, in the insertion order recorded by `keys`. */
  function ValuesInOrder(keys: seq<Id>, dict: map<Id, SalesOrder>): (vs: seq<SalesOrder>)
    requires forall k :: k in keys ==> k in dict
    ensures |vs| == |keys|
  {
    seq(|keys|, i requires 0 <= i < |keys| => dict[keys[i]])
  }

  /** Each order of `orders`, in that order, rebuilt with its items. */
  function Aggregates(orders: seq<OrderRow>, items: seq<ItemRow>, skipNullItems: bool): (r: seq<SalesOrder>)
    ensures |r| == |orders|
  {
    seq(|orders|, i requires 0 <= i < |orders| => Aggregate(orders[i], items, skipNullItems))
  }

  /** What the mapper leaves after folding the LEFT JOIN of a table with unique ids: its values
      are the table's orders, in table order, each rebuilt with exactly its items. */
  lemma MappedJoinIsAggregates(orders: seq<OrderRow>, items: seq<ItemRow>, skip: bool,
                               keys: seq<Id>, dict: map<Id, SalesOrder>)
    requires UniqueOrderIds(orders)
    requires keys == DistinctIds(LeftJoin(orders, items))
    requires dict.Keys == RowIds(LeftJoin(orders, items))
    requires forall id :: id in dict ==> dict[id] == Established(LeftJoin(orders, items), id, skip)
    ensures forall k :: k in keys ==> k in dict
    ensures ValuesInOrder(keys, dict) == Aggregates(orders, items, skip)
  {
    MapperRebuildsJoin(orders, items, skip);
    forall i | 0 <= i < |keys| ensures keys[i] in dict && dict[keys[i]] == Aggregate(orders[i], items, skip) {
      assert keys[i] == orders[i].idOrder && orders[i] in orders;
    }
  }

  /** The rebuilt orders carry the table's ids and dates position by position, so a table with
      unique ids yields each order once and a date-sorted table yields a date-sorted list. */
  lemma AggregatesFollowTable(orders: seq<OrderRow>, items: seq<ItemRow>, skip: bool)
    ensures forall i :: 0 <= i < |orders| ==>
      Aggregates(orders, items, skip)[i].idOrder == Some(orders[i].idOrder)
      && Aggregates(orders, items, skip)[i].date == orders[i].date
    ensures UniqueOrderIds(orders) ==>
      forall i, j :: 0 <= i < j < |orders| ==>
        Aggregates(orders, items, skip)[i].idOrder != Aggregates(orders, items, skip)[j].idOrder
    ensures SortedByDate(orders) ==>
      forall i, j :: 0 <= i < j < |orders| ==>
        !Later(Aggregates(orders, items, skip)[j].date, Aggregates(orders, items, skip)[i].date)
  {
  }
}
