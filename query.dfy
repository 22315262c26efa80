/** What the SELECT statements compute over the two tables: the LEFT JOIN of orders with
    their items, WHERE filters, ORDER BY date DESC, and OFFSET/FETCH paging. */
module Query {
  import opened Models
  import opened Store

  // ---------------------------------------------------------------------------
  // Reading rows back into objects

  /** An item as a join query reads it: the query selects id_item, item_name, qty, price and
      total, but not io.id_order, so Id_Order stays null; a NULL total leaves the C# decimal 0. */
  function ReadItem(r: ItemRow): (it: ItemOrder)
    ensures it.idItem == Some(r.idItem) && it.idOrder.None?
    ensures it.itemName == r.itemName && it.qty == r.qty && it.price == r.price
    ensures r.total.None? ==> it.total == 0
  {
    ItemOrder(Some(r.idItem), None, r.itemName, r.qty, r.price,
              if r.total.Some? then r.total.value else 0)
  }

  /** An order read from the header columns only: `Items` keeps its initial empty list. */
  function HeaderOf(o: OrderRow): (h: SalesOrder)
    ensures h.idOrder == Some(o.idOrder) && h.items == []
    ensures NewHeaderRow(o.idOrder, h) == o
  {
    SalesOrder(Some(o.idOrder), o.numberOrder, o.date, o.customer, o.address, [])
  }

  function Headers(os: seq<OrderRow>): (r: seq<SalesOrder>)
    ensures |r| == |os|
  {
    seq(|os|, i requires 0 <= i < |os| => HeaderOf(os[i]))
  }

  /** The items of order `id` in table order, as read by the join. */
  function ItemsOf(items: seq<ItemRow>, id: Id): (its: seq<ItemOrder>)
    ensures |its| <= |items|
  {
    if items == [] then []
    else (if items[0].idOrder == id then [ReadItem(items[0])] else []) + ItemsOf(items[1..], id)
  }

  /** The join gives an order exactly the item rows that name it, each read once. */
  lemma {:induction false} ItemsOfMembers(items: seq<ItemRow>, id: Id)
    ensures forall r :: r in items && r.idOrder == id ==> ReadItem(r) in ItemsOf(items, id)
    ensures forall it :: it in ItemsOf(items, id) ==> exists r :: r in items && r.idOrder == id && it == ReadItem(r)
  {
    if items != [] {
      ItemsOfMembers(items[1..], id);
      assert forall r :: r in items <==> r == items[0] || r in items[1..];
    }
  }

  /** The header the join reads back is the one the INSERT wrote, under its new id and with
      an empty `Items` list. */
  lemma HeaderReadsBackAsWritten(id: Id, order: SalesOrder)
    ensures HeaderOf(NewHeaderRow(id, order)) == order.(idOrder := Some(id), items := [])
  {
  }

  lemma {:induction false} ItemsOfAppend(a: seq<ItemRow>, b: seq<ItemRow>, id: Id)
    ensures ItemsOf(a + b, id) == ItemsOf(a, id) + ItemsOf(b, id)
  {
    if a != [] {
      assert (a + b)[0] == a[0] && (a + b)[1..] == a[1..] + b;
      ItemsOfAppend(a[1..], b, id);
      var h := if a[0].idOrder == id then [ReadItem(a[0])] else [];
      calc {
        ItemsOf(a + b, id);
        h + ItemsOf(a[1..] + b, id);
        h + (ItemsOf(a[1..], id) + ItemsOf(b, id));
        (h + ItemsOf(a[1..], id)) + ItemsOf(b, id);
        ItemsOf(a, id) + ItemsOf(b, id);
      }
    } else {
      assert a + b == b;
    }
  }

  /** An order no item row points at has no items. */
  lemma {:induction false} ItemsOfAbsent(items: seq<ItemRow>, id: Id)
    requires forall r :: r in items ==> r.idOrder != id
    ensures ItemsOf(items, id) == []
  {
    if items != [] {
      assert items[0] in items;
      ItemsOfAbsent(items[1..], id);
    }
  }

  /** Removing an order's items leaves none for it and those of other orders as they were. */
  lemma {:induction false} ItemsOfWithout(items: seq<ItemRow>, id: Id, other: Id)
    ensures ItemsOf(WithoutItemsOf(items, id), other) == if other == id then [] else ItemsOf(items, other)
  {
    if items != [] {
      ItemsOfWithout(items[1..], id, other);
    }
  }

  /** The rows written for submitted items read back as those items, with their new ids and
      in submission order. */
  lemma {:induction false} ItemsOfStamped(sub: seq<ItemOrder>, id: Id, guids: seq<Id>)
    requires |sub| <= |guids|
    ensures |ItemsOf(StampedRows(sub, id, guids), id)| == |sub|
    ensures forall k :: 0 <= k < |sub| ==>
      ItemsOf(StampedRows(sub, id, guids), id)[k]
        == ItemOrder(Some(guids[k]), None, sub[k].itemName, sub[k].qty, sub[k].price, 0)
  {
    if sub != [] {
      var rows := StampedRows(sub, id, guids);
      assert rows[1..] == StampedRows(sub[1..], id, guids[1..]);
      ItemsOfStamped(sub[1..], id, guids[1..]);
    }
  }

  // ---------------------------------------------------------------------------
  // LEFT JOIN ItemOrder io ON so.id_order = io.id_order

  /** One joined row: the order columns and, when the order has an item, that item. */
  datatype JoinRow = JoinRow(header: OrderRow, item: Option<ItemOrder>)

  /** The joined rows of one order: one per item, or a single row with a null item. */
  function JoinOf(o: OrderRow, items: seq<ItemRow>): (r: seq<JoinRow>)
    ensures |r| > 0
    ensures forall k :: 0 <= k < |r| ==> r[k].header == o
  {
    var its := ItemsOf(items, o.idOrder);
    if its == [] then [JoinRow(o, None)]
    else
      seq(|its|, k requires 0 <= k < |its| => JoinRow(o, Some(its[k])))
  }

  /** The joined rows of `orders`, order by order. */
  function LeftJoin(orders: seq<OrderRow>, items: seq<ItemRow>): (r: seq<JoinRow>)
    ensures |r| >= |orders|
    decreases |orders|
  {
    if orders == [] then []
    else LeftJoin(orders[..|orders| - 1], items) + JoinOf(orders[|orders| - 1], items)
  }

  /** Every joined row carries a header of `orders` and, when it has an item, one of that
      order's items; an order without items gets a single row with a null item. */
  lemma {:induction false} LeftJoinRows(orders: seq<OrderRow>, items: seq<ItemRow>)
    ensures forall j :: 0 <= j < |LeftJoin(orders, items)| ==> LeftJoin(orders, items)[j].header in orders
    ensures forall j :: 0 <= j < |LeftJoin(orders, items)| && LeftJoin(orders, items)[j].item.Some? ==>
      LeftJoin(orders, items)[j].item.value in ItemsOf(items, LeftJoin(orders, items)[j].header.idOrder)
    ensures forall o :: o in orders && ItemsOf(items, o.idOrder) == [] ==> JoinRow(o, None) in LeftJoin(orders, items)
    decreases |orders|
  {
    if orders != [] {
      var init := orders[..|orders| - 1];
      var o := orders[|orders| - 1];
      LeftJoinRows(init, items);
      var a, b := LeftJoin(init, items), JoinOf(o, items);
      assert LeftJoin(orders, items) == a + b;
      assert forall x :: x in orders <==> x in init || x == o by { assert orders == init + [o]; }
      forall j | 0 <= j < |b| && b[j].item.Some?
        ensures b[j].item.value in ItemsOf(items, o.idOrder)
      {
        assert b[j].item.value == ItemsOf(items, o.idOrder)[j];
      }
      if ItemsOf(items, o.idOrder) == [] {
        assert b[0] == JoinRow(o, None);
      }
    }
  }

  // ---------------------------------------------------------------------------
  // WHERE

  /** The rows of `orders` that `keep` accepts, in table order. */
  function Where(orders: seq<OrderRow>, keep: OrderRow -> bool): (r: seq<OrderRow>)
    ensures forall o :: o in r <==> o in orders && keep(o)
    ensures |r| <= |orders|
    ensures UniqueOrderIds(orders) ==> UniqueOrderIds(r)
  {
    if orders == [] then []
    else
      var rest := Where(orders[1..], keep);
      assert forall o :: o in orders <==> o == orders[0] || o in orders[1..];
      if keep(orders[0]) then
        assert UniqueOrderIds(orders) ==> forall o :: o in rest ==> o.idOrder != orders[0].idOrder by {
          if UniqueOrderIds(orders) {
            forall o | o in rest ensures o.idOrder != orders[0].idOrder {
              var j :| 0 <= j < |orders[1..]| && orders[1..][j] == o;
              assert orders[j + 1] == o;
            }
          }
        }
        [orders[0]] + rest
      else rest
  }

  /** Two filters that accept the same rows select the same rows. */
  lemma {:induction false} WhereSame(orders: seq<OrderRow>, p: OrderRow -> bool, q: OrderRow -> bool)
    requires forall o :: o in orders ==> p(o) == q(o)
    ensures Where(orders, p) == Where(orders, q)
  {
    if orders != [] {
      assert orders[0] in orders;
      WhereSame(orders[1..], p, q);
    }
  }

  // ---------------------------------------------------------------------------
  // ORDER BY so.date DESC

  /** Latest first; rows with equal dates may come in any order. */
  predicate SortedByDate(s: seq<OrderRow>) {
    forall i, j :: 0 <= i < j < |s| ==> !Later(s[j].date, s[i].date)
  }

  /** Where `x` goes in a list sorted latest first: before the first strictly earlier row. */
  function InsertionPoint(s: seq<OrderRow>, x: OrderRow): (k: nat)
    ensures k <= |s|
    ensures forall j :: 0 <= j < k ==> !Later(x.date, s[j].date)
    ensures k < |s| ==> Later(x.date, s[k].date)
  {
    if s == [] || Later(x.date, s[0].date) then 0 else 1 + InsertionPoint(s[1..], x)
  }

  lemma UniqueSplice(s: seq<OrderRow>, k: nat, x: OrderRow)
    requires k <= |s| && UniqueOrderIds(s)
    requires forall o :: o in s ==> o.idOrder != x.idOrder
    ensures UniqueOrderIds(s[..k] + [x] + s[k..])
  {
    var r := s[..k] + [x] + s[k..];
    forall i, j | 0 <= i < j < |r| ensures r[i].idOrder != r[j].idOrder {
      if i < k && j > k {
        assert r[i] == s[i] && r[j] == s[j - 1];
      } else if i > k {
        assert r[i] == s[i - 1] && r[j] == s[j - 1];
      } else if i == k {
        assert r[j] == s[j - 1] && s[j - 1] in s;
      } else if j == k {
        assert r[i] == s[i] && s[i] in s;
      }
    }
  }

  lemma SortedSplice(s: seq<OrderRow>, k: nat, x: OrderRow)
    requires SortedByDate(s) && k <= |s|
    requires forall j :: 0 <= j < k ==> !Later(x.date, s[j].date)
    requires k < |s| ==> Later(x.date, s[k].date)
    ensures SortedByDate(s[..k] + [x] + s[k..])
  {
    var r := s[..k] + [x] + s[k..];
    forall i, j | 0 <= i < j < |r| ensures !Later(r[j].date, r[i].date) {
      if j < k {
        assert r[i] == s[i] && r[j] == s[j];
      } else if j == k {
        assert r[i] == s[i];
      } else if i > k {
        assert r[i] == s[i - 1] && r[j] == s[j - 1];
      } else if i == k {
        assert r[j] == s[j - 1];
        assert Later(x.date, s[k].date);
        assert !Later(s[j - 1].date, s[k].date);
      } else {
        assert r[i] == s[i] && r[j] == s[j - 1];
      }
    }
  }

  function InsertByDate(x: OrderRow, s: seq<OrderRow>): (r: seq<OrderRow>)
    requires SortedByDate(s)
    ensures SortedByDate(r)
    ensures multiset(r) == multiset(s) + multiset{x}
    ensures UniqueOrderIds(s) && (forall o :: o in s ==> o.idOrder != x.idOrder) ==> UniqueOrderIds(r)
  {
    var k := InsertionPoint(s, x);
    assert s[..k] + s[k..] == s;
    assert multiset(s[..k] + [x] + s[k..]) == multiset(s) + multiset{x} by {
      assert multiset(s[..k] + [x] + s[k..]) == multiset(s[..k]) + multiset{x} + multiset(s[k..]);
      assert multiset(s) == multiset(s[..k]) + multiset(s[k..]);
    }
    SortedSplice(s, k, x);
    assert UniqueOrderIds(s) && (forall o :: o in s ==> o.idOrder != x.idOrder)
        ==> UniqueOrderIds(s[..k] + [x] + s[k..]) by {
      if UniqueOrderIds(s) && (forall o :: o in s ==> o.idOrder != x.idOrder) {
        UniqueSplice(s, k, x);
      }
    }
    s[..k] + [x] + s[k..]
  }

  lemma HeadIdNotInTail(s: seq<OrderRow>, rest: seq<OrderRow>)
    requires s != [] && UniqueOrderIds(s)
    requires multiset(rest) == multiset(s[1..])
    ensures forall o :: o in rest ==> o.idOrder != s[0].idOrder
  {
    forall o | o in rest ensures o.idOrder != s[0].idOrder {
      assert o in multiset(s[1..]);
      var j :| 0 <= j < |s[1..]| && s[1..][j] == o;
      assert s[j + 1] == o;
    }
  }

  /** Inserting the head into the sorted tail sorts the whole sequence. */
  lemma SortStep(s: seq<OrderRow>, rest: seq<OrderRow>)
    requires s != [] && SortedByDate(rest)
    requires multiset(rest) == multiset(s[1..])
    requires UniqueOrderIds(s[1..]) ==> UniqueOrderIds(rest)
    ensures multiset(InsertByDate(s[0], rest)) == multiset(s)
    ensures |InsertByDate(s[0], rest)| == |s|
    ensures UniqueOrderIds(s) ==> UniqueOrderIds(InsertByDate(s[0], rest))
  {
    var r := InsertByDate(s[0], rest);
    assert multiset(s) == multiset{s[0]} + multiset(s[1..]) by { assert s == [s[0]] + s[1..]; }
    assert |r| == |multiset(r)| == |multiset(s)| == |s|;
    if UniqueOrderIds(s) {
      assert UniqueOrderIds(s[1..]);
      HeadIdNotInTail(s, rest);
    }
  }

  /** The rows of `s` latest first (insertion sort; ties are not ordered by the contract). */
  function SortByDateDesc(s: seq<OrderRow>): (r: seq<OrderRow>)
    ensures SortedByDate(r)
    ensures multiset(r) == multiset(s) && |r| == |s|
    ensures UniqueOrderIds(s) ==> UniqueOrderIds(r)
    decreases |s|
  {
    if s == [] then []
    else
      var rest := SortByDateDesc(s[1..]);
      SortStep(s, rest);
      InsertByDate(s[0], rest)
  }

  // ---------------------------------------------------------------------------
  // OFFSET (page - 1) * limit ROWS FETCH NEXT limit ROWS ONLY

  /** The page `page` of `s`, `limit` rows per page. */
  function Window<T>(s: seq<T>, page: int, limit: int): (w: seq<T>)
    requires page >= 1 && limit >= 1
    ensures |w| <= limit
    ensures |w| == if (page - 1) * limit < |s| then Min(limit, |s| - (page - 1) * limit) else 0
    ensures forall k :: 0 <= k < |w| ==> w[k] == s[(page - 1) * limit + k]
  {
    var off := (page - 1) * limit;
    assert off >= 0;
    var lo := if off < |s| then off else |s|;
    var hi := if off + limit < |s| then off + limit else |s|;
    s[lo..hi]
  }

  function Min(a: int, b: int): int {
    if a < b then a else b
  }

  /** The page count, ceil(count / limit) in integer arithmetic. */
  function TotalPages(count: nat, limit: int): (pages: nat)
    requires limit >= 1
    ensures count <= pages * limit
    ensures pages > 0 ==> (pages - 1) * limit < count
  {
    var a := count + limit - 1;
    assert a == (a / limit) * limit + a % limit && 0 <= a % limit < limit;
    assert (a / limit - 1) * limit == (a / limit) * limit - limit;
    a / limit
  }

  lemma MulMono(x: int, y: int, l: int)
    requires x <= y && l >= 0
    ensures x * l <= y * l
  {
    assert y * l - x * l == (y - x) * l;
  }

  lemma DivBound(a: nat, l: int, p: int)
    requires l >= 1 && p >= 0
    ensures p <= a / l <==> p * l <= a
  {
    var q, r := a / l, a % l;
    assert a == q * l + r && 0 <= r < l;
    if p <= q {
      MulMono(p, q, l);
    } else {
      MulMono(q + 1, p, l);
      assert (q + 1) * l == q * l + l;
    }
  }

  /** A page holds rows exactly when its number is at most the page count. */
  lemma PageNonEmptyIff<T>(s: seq<T>, page: int, limit: int)
    requires page >= 1 && limit >= 1
    ensures Window(s, page, limit) != [] <==> page <= TotalPages(|s|, limit)
  {
    DivBound(|s| + limit - 1, limit, page);
    assert page * limit == (page - 1) * limit + limit;
  }

  /** The pages from `page` on, concatenated. */
  function PagesFrom<T>(s: seq<T>, limit: int, page: int): seq<T>
    requires page >= 1 && limit >= 1
    decreases if (page - 1) * limit < |s| then |s| - (page - 1) * limit else 0
  {
    if (page - 1) * limit >= |s| then []
    else
      assert page * limit == (page - 1) * limit + limit;
      Window(s, page, limit) + PagesFrom(s, limit, page + 1)
  }

  lemma {:induction false} PagesFromIsSuffix<T>(s: seq<T>, limit: int, page: int)
    requires page >= 1 && limit >= 1
    ensures PagesFrom(s, limit, page) == if (page - 1) * limit < |s| then s[(page - 1) * limit..] else []
    decreases if (page - 1) * limit < |s| then |s| - (page - 1) * limit else 0
  {
    var off := (page - 1) * limit;
    if off < |s| {
      assert page * limit == off + limit;
      PagesFromIsSuffix(s, limit, page + 1);
      var w := Window(s, page, limit);
      if off + limit < |s| {
        assert w == s[off..off + limit];
        assert s[off..] == s[off..off + limit] + s[off + limit..];
      } else {
        assert w == s[off..];
      }
    }
  }

  /** Paging loses and repeats nothing: pages 1, 2, ... together are the whole result, so the
      row count is the sum of the page sizes. */
  lemma PagesCoverAll<T>(s: seq<T>, limit: int)
    requires limit >= 1
    ensures PagesFrom(s, limit, 1) == s
    ensures |PagesFrom(s, limit, 1)| == |s|
  {
    PagesFromIsSuffix(s, limit, 1);
  }
}
