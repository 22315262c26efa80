# Sales orders: a verified model of the repository layer

This project models the data-access core of a small ASP.NET sales-order application. The application stores sales orders and their item lines in two SQL tables:

- `SalesOrder`, with columns id_order, number_order, date, customer and address.
- `ItemOrder`, with columns id_item, id_order, item_name, qty, price and total.

Two classes read and write these tables with Dapper. Both are modelled:

- `SalesOrderRepository` (module `Repository`). It validates writes, pages its listings, and searches by keyword substring and calendar day. Its lookup by id rebuilds an order from a LEFT JOIN.
- `SalesOrderService` (module `Service`). It writes without validation, and lists every order with its items, latest first. Its search uses an exact keyword and a WHERE clause built one filter at a time.

How the code is modelled:

- **Tables.** The tables are the fields of the class `Store.Database`.
  - Each writing statement (INSERT, UPDATE, DELETE) is one method of that class. Its result is the "rows affected" count.
  - An `INSERT … VALUES` that does not throw affects exactly one row. So `Database.InsertOrder` always reports 1, and the `return false` after a failed header insert (Repositories/SalesOrderRepository.cs:59, Repositories/SalesOrderService.cs:47) is a branch the model never takes.
- **Reads.** Each SELECT is a function of the two tables in module `Query`, evaluated inside the repository method that runs it. This covers the COUNTs, the paged header queries and the LEFT JOIN.
- **Item inserts.** The item-insert loop is the imperative method `Store.InsertOrderItems`. A null list element makes it throw; the items before that element have already been written.
- **Row mapper.** The multi-mapping callback passed to `QueryAsync` is `RowMapper.Callback`. `RowMapper.MapRows` calls it once per row. It is specified by fold functions over the rows seen so far: the dictionary's key order, the first header seen for each id, and the accumulated item list.
- **GUIDs.** `Guid.NewGuid()` is a parameter: a sequence of fresh, pairwise-distinct ids.
- **Nulls.** Nullable strings and nullable list elements become `Option`.
- **Dates.** `DateTime` is a day plus a time of day. `DateTime.MinValue` is day 0 at time 0.

Module `Lifecycle` proves what a read returns after each write protocol. Module `Divergence` proves where the two classes disagree on the same rows. Module `Scenario` walks one order with one item through each class, in three methods per class:

1. create it and read it;
2. create it, update it with an empty item list, and read it again;
3. create it, delete it, read it, and delete it again.

After the update with an empty item list, the two classes return different things for the same order:

- `SalesOrderService`'s callback skips a null item (Repositories/SalesOrderService.cs:81-84, 191-194). An order without items therefore comes back with an empty list. This is exercised in `Scenario.ServiceReplaceItems`.
- `SalesOrderRepository.GetSalesOrderById` appends every join row's item with no null check (Repositories/SalesOrderRepository.cs:106). The LEFT JOIN gives an order without items one row whose item is null, so that order comes back as `[null]`. This is `Repository.SalesOrderRepository.GetSalesOrderById` and `Divergence.PhantomNullItem`, exercised in `Scenario.RepositoryReplaceItems`.

Likewise, the item rows are inserted without a total, so an item reads back with total 0 rather than qty × price.

## Model

| member | source | states |
|---|---|---|
| Models.AllWhiteSpaceMeansEveryChar | Repositories/SalesOrderRepository.cs:20-22 | a string is null-or-white-space exactly when every one of its characters is a .NET white-space character |
| Models.ContainsAt | Repositories/SalesOrderRepository.cs:172 | the substring test behind `LIKE '%k%'` holds exactly when `k` occurs at some position of the string |
| Store.HeaderCount | Repositories/SalesOrderRepository.cs:147-148 | the number of order rows a `WHERE id_order = id` statement hits is positive iff the id is stored, at most one when ids are unique |
| Store.NewHeaderRow | Repositories/SalesOrderRepository.cs:49-51 | the header INSERT writes the order's id under the given GUID and copies number, date, customer and address; `Items` is not a column |
| Store.SetHeader | Repositories/SalesOrderRepository.cs:123-126 | the UPDATE rewrites number, date, customer and address of the rows with that id, keeps every other row and every id, and changes nothing when the id is absent |
| Store.WithoutOrder | Repositories/SalesOrderRepository.cs:147 | the DELETE keeps exactly the rows of other orders, removes as many rows as carry the id, and keeps ids unique |
| Store.WithoutItemsOf | Repositories/SalesOrderRepository.cs:144 | the item DELETE keeps exactly the items of other orders and keeps item ids unique |
| Store.FirstNull | Repositories/SalesOrderRepository.cs:30 | the position where the `foreach` meets its first null element: every element before it is non-null, the one at it is null |
| Store.NonNullPrefix | Repositories/SalesOrderRepository.cs:30-39 | the items the loop gets through before throwing, in order; all of them exactly when none is null |
| Store.StampedRows | Repositories/SalesOrderRepository.cs:32-37 | one item row per submitted item; the rows read back through `Query.ItemsOfStamped` |
| Store.Database.constructor | Repositories/SalesOrderRepository.cs:11-16 | a new store holds two empty tables, which are consistent |
| Store.Database.InsertOrder | Repositories/SalesOrderRepository.cs:49-52 | the order INSERT appends one row under a fresh id, leaves the items table alone and reports one row affected |
| Store.Database.InsertItem | Repositories/SalesOrderRepository.cs:35-38 | the item INSERT appends one row under a fresh id, leaves the orders table alone and reports one row affected |
| Store.Database.UpdateOrder | Repositories/SalesOrderRepository.cs:123-127 | the UPDATE leaves the orders as `SetHeader` gives them and reports as many rows affected as carry the id |
| Store.Database.DeleteItemsOf | Repositories/SalesOrderRepository.cs:144-145 | the item DELETE leaves the items of other orders and reports how many rows went |
| Store.Database.DeleteOrder | Repositories/SalesOrderRepository.cs:147-148 | the order DELETE leaves the other orders and reports as many rows affected as carried the id |
| Store.InsertOrderItems | Repositories/SalesOrderRepository.cs:28-40 | throws iff some element is null; appends one row per item before the first null, item k under the k-th GUID and the given order id; keeps item ids unique |
| Store.StampedRowsSnoc | Repositories/SalesOrderRepository.cs:30-38 | one more pass of the loop appends exactly that item's row: the next GUID, the order id, the item's name, qty and price, and no total |
| Store.NextGuidUnused | Repositories/SalesOrderRepository.cs:32 | the GUID the loop takes next is used by no row written so far |
| Store.FreshRowKeepsUnique | Repositories/SalesOrderRepository.cs:35-38 | inserting an item row under an unused id keeps item ids unique |
| Store.NewOrderKeepsGuidsFresh | Repositories/SalesOrderRepository.cs:47-52 | after the header takes the first GUID, the remaining GUIDs are still unused and distinct |
| Store.StampedRowsHaveParent | Repositories/SalesOrderRepository.cs:33-38 | item rows stamped with an existing order id keep every item's parent in place |
| Store.ReplacedItemsKeepParents | Repositories/SalesOrderRepository.cs:129-133 | rewriting one header and deleting its items keeps every remaining item's parent and key, and keeps fresh GUIDs fresh |
| Store.DeletionKeepsParents | Repositories/SalesOrderRepository.cs:144-148 | once an order has no items, deleting its header orphans no item |
| Query.ReadItem | Repositories/SalesOrderRepository.cs:88-89 | an item read by the join carries its Id_Item, name, qty and price; Id_Order stays null because the query does not select it; a NULL total reads as 0 |
| Query.HeaderOf | Repositories/SalesOrderRepository.cs:74 | an order read from the header columns carries its id and an empty `Items` list, and writing it back with the header INSERT gives the same row |
| Query.HeaderReadsBackAsWritten | Repositories/SalesOrderRepository.cs:49-51 | reading back a header the INSERT wrote gives the submitted order under its new id with no items |
| Query.ItemsOf | Repositories/SalesOrderRepository.cs:91 | the items the join attaches to an order are no more than the item rows |
| Query.ItemsOfMembers | Repositories/SalesOrderRepository.cs:91 | the join attaches to an order exactly the item rows whose id_order is its id, each read as an item |
| Query.Headers | Repositories/SalesOrderRepository.cs:80 | the header-only query yields one order per row |
| Query.ItemsOfAppend | Repositories/SalesOrderRepository.cs:91 | the items joined to an order from two table segments are those of the first followed by those of the second |
| Query.ItemsOfAbsent | Repositories/SalesOrderRepository.cs:91 | an order no item row names joins no item |
| Query.ItemsOfWithout | Repositories/SalesOrderRepository.cs:144 | after the item DELETE for an order, that order joins no item and every other order joins the same items |
| Query.ItemsOfStamped | Repositories/SalesOrderRepository.cs:88-91 | the stamped rows join back to their order as the submitted items, in order, under their GUIDs, with no Id_Order and total 0 |
| Query.JoinOf | Repositories/SalesOrderRepository.cs:91 | the LEFT JOIN gives each order at least one row, every one of them carrying that order's header |
| Query.LeftJoin | Repositories/SalesOrderRepository.cs:90-91 | the LEFT JOIN has at least as many rows as there are orders |
| Query.LeftJoinRows | Repositories/SalesOrderService.cs:61-62 | every joined row carries a header of the table and, when it has an item, one of that order's items; an order without items gets a row with a null item |
| Query.Where | Repositories/SalesOrderRepository.cs:92 | a WHERE keeps exactly the rows that satisfy it, no more than there were, with keys still unique |
| Query.WhereSame | Repositories/SalesOrderService.cs:160-175 | two conditions that agree on every stored row select the same rows |
| Query.InsertionPoint | Repositories/SalesOrderRepository.cs:76 | the insertion place of a row in a latest-first list: no row before it is earlier, the row at it is earlier |
| Query.InsertByDate | Repositories/SalesOrderRepository.cs:76 | inserting into a latest-first list keeps it latest-first, adds exactly that row, and keeps keys unique when the row's id is new |
| Query.SortStep | Repositories/SalesOrderRepository.cs:76 | one insertion step of the sort keeps the rows as a multiset, the length and key uniqueness |
| Query.SortByDateDesc | Repositories/SalesOrderRepository.cs:76 | `ORDER BY date DESC` gives a latest-first permutation of the rows that keeps keys unique |
| Query.Window | Repositories/SalesOrderRepository.cs:77-79 | `OFFSET (page-1)*limit ROWS FETCH NEXT limit ROWS ONLY` yields at most `limit` rows, exactly the rows from that offset on |
| Query.DivBound | Controllers/SalesOrderController.cs:60 | page `p` is within the integer quotient `a / l` iff `p*l` rows fit in `a` |
| Query.TotalPages | Controllers/SalesOrderController.cs:60 | the page count is ceil(count / limit): `limit` times it covers every row, and one page fewer does not |
| Query.PageNonEmptyIff | Controllers/SalesOrderController.cs:60 | a page has rows iff its number is at most the page count ceil(count / limit) |
| Query.PagesFromIsSuffix | Repositories/SalesOrderRepository.cs:77-79 | the pages from `page` on, concatenated, are the rows from that page's offset on |
| Query.PagesCoverAll | Repositories/SalesOrderRepository.cs:77-79 | the pages of one fixed latest-first sequence, concatenated from page 1 on, are that sequence: no row is lost or repeated when every page is cut from the same ordering |
| RowMapper.MapRows | Repositories/SalesOrderRepository.cs:96-111 | calling the callback on every row leaves the dictionary keyed by exactly the rows' order ids, in first-appearance order, each holding the fold's order for that id |
| RowMapper.Callback | Repositories/SalesOrderRepository.cs:98-108 | one callback call extends the dictionary for the rows seen so far to the rows plus this one: a new id gets the row's header and an empty list, then the item is appended (only non-null items when nulls are skipped) |
| RowMapper.FoldStep | Repositories/SalesOrderService.cs:182-197 | one more row changes only its own id's entry: a known id gains the row's item, a new id becomes the row's header with it |
| RowMapper.DistinctIdsFacts | Repositories/SalesOrderRepository.cs:100-104 | the dictionary's keys hold each order id of the rows exactly once |
| RowMapper.FirstRowWins | Repositories/SalesOrderRepository.cs:100-105 | the header kept for an id is the one of the first row carrying it |
| RowMapper.GuardDropsOnlyNulls | Repositories/SalesOrderService.cs:191-194 | the service's guarded callback accumulates the repository's item list with exactly its nulls removed |
| RowMapper.ItemsForJoinOf | Repositories/SalesOrderRepository.cs:91 | folding one order's join rows yields its items as non-null values, or one null when it has none and nulls are kept |
| RowMapper.MapperRebuildsOrder | Repositories/SalesOrderRepository.cs:87-111 | folding the LEFT JOIN of a table with unique ids rebuilds each stored order with its header and exactly its items, in item-table order |
| RowMapper.JoinRowIds | Repositories/SalesOrderRepository.cs:90-91 | the order ids on the LEFT JOIN's rows are exactly the table's order ids: every order gets at least one row, and no row names an order outside the table |
| RowMapper.JoinKeysInTableOrder | Repositories/SalesOrderService.cs:69-91 | the dictionary's keys after folding the LEFT JOIN are the table's ids in table order |
| RowMapper.MapperRebuildsJoin | Repositories/SalesOrderService.cs:69-91 | keys in table order, one per stored order, and each rebuilt with exactly its items |
| RowMapper.MappedJoinIsAggregates | Repositories/SalesOrderService.cs:91 | `Values` of the dictionary after the fold are the table's orders, in table order, each rebuilt with its items |
| RowMapper.AggregatesFollowTable | Repositories/SalesOrderService.cs:63 | the rebuilt list carries the table's ids and dates position by position, so it stays latest first and duplicate-free |
| Repository.ValidateSalesOrder | Repositories/SalesOrderRepository.cs:18-26 | fails iff number or customer is null or blank or the date is `DateTime.MinValue`, and the failure is `ArgumentException("Please fill in all fields")` |
| Repository.TextIsNotWhiteSpace | Repositories/SalesOrderRepository.cs:20-22 | a field passes the blank check iff it is non-null and has a non-white-space character |
| Repository.Like | Repositories/SalesOrderRepository.cs:172 | `column LIKE '%' + k + '%'` holds iff the column is non-null and `k` occurs in it at some position |
| Repository.MatchesSearch | Repositories/SalesOrderRepository.cs:172-173 | with neither keyword nor date every order matches |
| Repository.SearchFiltersNarrow | Repositories/SalesOrderRepository.cs:172-173 | each filter only narrows the search: a match stays a match when the keyword or the date is dropped |
| Repository.Matching | Repositories/SalesOrderRepository.cs:158-159 | the search keeps exactly the stored orders whose number or customer contains the keyword (when given) and whose date falls on the day (when given) |
| Repository.WindowOfSorted | Repositories/SalesOrderRepository.cs:74-77 | a page of a latest-first list is latest first and drawn from that list |
| Repository.PageOfHeaders | Repositories/SalesOrderRepository.cs:69-81 | a page of headers holds at most `limit` orders, latest first, without items, each the header of a stored order |
| Repository.SalesOrderRepository.constructor | Repositories/SalesOrderRepository.cs:13-16 | the repository works on the given store |
| Repository.SalesOrderRepository.CreateSalesOrder | Repositories/SalesOrderRepository.cs:42-60 | an invalid order throws `ArgumentException` and writes nothing; a valid one appends its header under the first GUID and its items up to the first null under the following ones, returns true or throws at a null item, and keeps the store consistent |
| Repository.SalesOrderRepository.GetSalesOrderCount | Repositories/SalesOrderRepository.cs:62-67 | the count is the number of stored orders |
| Repository.SalesOrderRepository.GetSalesOrders | Repositories/SalesOrderRepository.cs:69-81 | the requested page of the latest-first headers: at most `limit` orders, sorted, item-less, each a stored order's header |
| Repository.SalesOrderRepository.GetSalesOrderById | Repositories/SalesOrderRepository.cs:83-114 | null iff no order has the id; otherwise the stored order with its items, with one null item when it has none |
| Repository.SalesOrderRepository.UpdateSalesOrder | Repositories/SalesOrderRepository.cs:116-138 | invalid input throws and writes nothing; an absent id returns false and writes nothing; otherwise the header is rewritten and the order's items are replaced by the submitted ones up to the first null, with true returned or a throw at the null, and the store stays consistent |
| Repository.SalesOrderRepository.DeleteSalesOrder | Repositories/SalesOrderRepository.cs:140-149 | returns true iff the order existed; removes its items and then its header, leaving the store consistent |
| Repository.SalesOrderRepository.GetSearchSalesOrderCount | Repositories/SalesOrderRepository.cs:151-163 | the count is the number of stored orders the search's WHERE clause keeps |
| Repository.SalesOrderRepository.SearchSalesOrders | Repositories/SalesOrderRepository.cs:165-179 | the requested page of the matching orders' headers, latest first: at most `limit`, sorted, item-less, each the header of a matching stored order |
| Service.BuildWhere | Repositories/SalesOrderService.cs:160-175 | the built WHERE clause holds for an order iff its number or customer equals the keyword (unless the keyword is null or empty) and it falls on the given day (when a date is given); one clause per applied filter |
| Service.ServiceMatches | Repositories/SalesOrderService.cs:165-175 | with a null or empty keyword and no date every order matches |
| Service.ServiceFiltersNarrow | Repositories/SalesOrderService.cs:165-175 | an empty keyword is treated as no keyword, and each filter only narrows the search |
| Service.SalesOrderService.constructor | Repositories/SalesOrderService.cs:11-14 | the service works on the given store |
| Service.SalesOrderService.CreateSalesOrder | Repositories/SalesOrderService.cs:16-49 | without validation, appends the header under the first GUID and the items up to the first null under the following ones, returns true or throws at a null item, and keeps the store consistent |
| Service.SalesOrderService.GetSalesOrders | Repositories/SalesOrderService.cs:53-93 | every stored order exactly once, latest first, each with exactly its non-null items; each stored order appears and nothing else does |
| Service.SalesOrderService.UpdateSalesOrder | Repositories/SalesOrderService.cs:95-132 | without validation: an absent id returns false and writes nothing; otherwise the header is rewritten and the items replaced as submitted up to the first null, and the store stays consistent |
| Service.SalesOrderService.DeleteSalesOrder | Repositories/SalesOrderService.cs:135-149 | returns true iff the order existed; removes its items and then its header, leaving the store consistent |
| Service.SalesOrderService.SearchSalesOrders | Repositories/SalesOrderService.cs:151-204 | exactly the stored orders passing the exact-keyword and day filters, in table order, once each, with their non-null items |
| Service.AggregatesAreTheTable | Repositories/SalesOrderService.cs:91 | the rebuilt list holds each order of the table rebuilt, and nothing else |
| Lifecycle.StampedReadsBack | Repositories/SalesOrderRepository.cs:28-40 | the items written by the insert loop read back as submitted, up to the first null |
| Lifecycle.StampedBelongToOne | Repositories/SalesOrderRepository.cs:33 | items stamped for one order join no other order |
| Lifecycle.CreatedOrderReadsBack | Repositories/SalesOrderRepository.cs:42-60 | after a create the new id is fresh and stored once, its items read back as submitted, other orders keep their items, and the store is consistent |
| Lifecycle.UpdatedOrderReadsBack | Repositories/SalesOrderRepository.cs:116-138 | after an update the header holds the new fields, the other headers stay, the order's items read back as the submitted ones, other orders keep theirs, and the store is consistent |
| Lifecycle.DeletedOrderIsGone | Repositories/SalesOrderRepository.cs:140-149 | after a delete the order and its items are gone, other orders keep header and items, the count drops by one exactly when it existed, and the store is consistent before and after the header goes |
| Lifecycle.HeaderFirstOrphansItems | Repositories/SalesOrderRepository.cs:144-148 | deleting the header before the items would orphan the items of an order that has any |
| Lifecycle.CreateKeepsConsistent | Repositories/SalesOrderService.cs:28-42 | the create's writes keep keys unique and every item's parent in place |
| Lifecycle.HeaderCountAppend | Repositories/SalesOrderService.cs:21-28 | a header inserted under a fresh id is the only row with that id |
| Lifecycle.SetHeaderKeepsUnique | Repositories/SalesOrderService.cs:100-106 | the UPDATE keeps order ids unique |
| Lifecycle.StampedIdsUnique | Repositories/SalesOrderService.cs:115-125 | items inserted under fresh distinct GUIDs keep item ids unique |
| Divergence.ExactMatchIsSubstringMatch | Repositories/SalesOrderService.cs:165-168 | an order the service's exact keyword finds, the repository's substring search finds too; without a keyword both filter on the day alone |
| Divergence.SubstringIsNotExact | Repositories/SalesOrderRepository.cs:172 | an order numbered "SO-1" is found by the repository for keyword "SO" and not by the service |
| Divergence.EmptyKeyword | Repositories/SalesOrderService.cs:165 | the service treats an empty keyword as none; the repository matches it against every non-null number or customer |
| Divergence.EmptyKeywordMissesNulls | Repositories/SalesOrderRepository.cs:172 | an order without number and customer is listed by the service for an empty keyword and not by the repository |
| Divergence.PhantomNullItem | Repositories/SalesOrderRepository.cs:106 | an order without items comes back from the repository with one null item and from the service with none; with items both agree |
| Divergence.MappersDifferOnlyInNulls | Repositories/SalesOrderService.cs:191-194 | the two mappers' results for an id differ only in the null items |
| Divergence.EmptyOrderGainsNullItem | Repositories/SalesOrderRepository.cs:42-60 | an order created with no items reads back from the repository with one null item, from the service with none |
| Divergence.BlankNumberRejected | Repositories/SalesOrderRepository.cs:20 | any number that is null or white space only fails the repository's validation with "Please fill in all fields" |
| Divergence.SpaceIsBlank | Repositories/SalesOrderRepository.cs:20 | null, the empty string and a single space are such numbers |
| Scenario.ListingOfOne | Repositories/SalesOrderService.cs:53-93 | a table of one order lists as that order rebuilt |
| Scenario.ItemsOfOne | Repositories/SalesOrderRepository.cs:91 | one item row joins back as that item for its order |
| Scenario.DeleteOnly | Repositories/SalesOrderRepository.cs:144-148 | deleting the only order and its only item empties both tables |
| Scenario.CreateOne | Repositories/SalesOrderService.cs:16-49 | for a create of one order with one item in an empty store: the two GUIDs are fresh, the item list has no null, and the item loop appends exactly one row, under the second GUID and the order's id, with the item's name, qty and price and no total |
| Scenario.EmptyOne | Repositories/SalesOrderService.cs:95-132 | updating the only order with no items keeps its header and empties the item table |

## Left out

- `SalesOrderController` is not part of this model. It computes the page count with `Math.Ceiling` on doubles; `Query.TotalPages` uses the integer form `(count + limit - 1) / limit` instead.
- `Program.cs`, dependency injection and `DbConnectionFactory` are not part of this model. The store is passed to each class's constructor.
- SQL text, Dapper's parameter binding and `async`/`await` are left out. Each writing statement is one `Database` method, each SELECT one `Query` function, and each awaited call runs to completion in order.
- Scenario.CreateOne: states only the GUIDs' freshness and the item-row half of a create. The header row the create writes is stated by `Store.Database.InsertOrder`'s contract, which the scenario methods use alongside it.
- Store.NewHeaderRow, Store.SetHeader, Query.HeaderReadsBackAsWritten, Repository.SalesOrderRepository.CreateSalesOrder, Repository.SalesOrderRepository.UpdateSalesOrder, Repository.SalesOrderRepository.GetSearchSalesOrderCount, Repository.SalesOrderRepository.SearchSalesOrders, Service.SalesOrderService.CreateSalesOrder, Service.SalesOrderService.UpdateSalesOrder, Service.SalesOrderService.SearchSalesOrders: the date column and the `@Date` parameter are modelled with the full `System.DateTime` range and precision. The SQL `datetime` type the parameter is bound to is not modelled, which loses two things:
  - Range. SQL `datetime` starts at 1753-01-01. A date before that, such as an unset `Date` (`DateTime.MinValue`) reaching the service's INSERT or UPDATE, or an early date passing the repository's validation, makes the client throw an overflow before the statement is sent, so nothing is written. The model instead writes the row and returns true, and for a search it filters by that day.
  - Precision. SQL `datetime` rounds to 1/300 of a second, so 23:59:59.999 on one day is stored as midnight of the next. The model keeps the exact time, so its read-back of a header (`Query.HeaderReadsBackAsWritten`) and its same-day filters can differ from the program's for such times.
- `Guid.NewGuid()` is left out because it is randomness. The GUIDs are a parameter that is required to be fresh and pairwise distinct.
- Repository.Like: `LIKE` is modelled as case-sensitive plain substring containment. Collation, case folding and the wildcard characters `%`, `_` and `[` inside a keyword are not modelled.
- Store.HeaderCount, Store.SetHeader, Store.WithoutOrder, Store.WithoutItemsOf, Query.ItemsOf: the model compares ids exactly, including the `WHERE id_order = @Id_Order` of the lookup, update and deletes and the `ON so.id_order = io.id_order` of the join (Repositories/SalesOrderRepository.cs:91-92, 126, 131, 144, 147). Under the server's case-insensitive collation, which also ignores trailing spaces, an id that differs only in letter case or trailing spaces hits the stored row. For example, `GetSalesOrderById` with the upper-case form of a stored GUID finds the order, but the model returns none; update and delete are affected the same way.
- Service.ServiceMatches: SQL `=` on strings is modelled as exact equality. The server's case-insensitive collation and its padding of trailing spaces are not modelled.
- Repository.SalesOrderRepository.GetSalesOrders: `page >= 1 && limit >= 1` is a precondition, so a negative OFFSET or a zero FETCH is not modelled. The same holds for `SearchSalesOrders`.
- Query.SortByDateDesc: SQL does not specify the order of rows with equal dates. The model fixes one order, an insertion sort. `SortByDateDesc`'s own contract states only that the result is latest first and a permutation. The listing and search methods, however, are specified to return exactly that one ordering, so other tie orders the server may pick are not captured.
- Query.PagesCoverAll: covers only pages cut from one fixed ordering. The program runs a separate `ORDER BY so.date DESC OFFSET … FETCH …` query for each page (Repositories/SalesOrderRepository.cs:76-79, 174-177). The server may break date ties differently in each query, so an order whose date ties with another can appear on two pages or on none. The model does not capture this.
- Query.LeftJoin: SQL returns join rows in no specified order. The model uses table order for orders and for items. The mapper's per-row lemmas (`MapRows`, `FoldStep`, `FirstRowWins`, `GuardDropsOnlyNulls`) hold for any row order.
- Transactions, concurrent writers and a crash between statements are not modelled. Each statement applies atomically, and nothing runs in between.
- The Total column is never written by the inserts. The model reads it back as 0; a database-computed total is not modelled.
- `Dictionary` enumeration order is taken to be insertion order, and it is kept explicitly as a key sequence.
- The mutation of the caller's `SalesOrder` and `ItemOrder` objects is not modelled, i.e. `Id_Order` and `Id_Item` being set on the argument. The model works on their values.
- A null `Items` list is not modelled. `Items` defaults to an empty list; its elements may be null.
- Query.Window: C# 32-bit overflow of `(page - 1) * limit` is not modelled, because integers are unbounded here.
- The WHERE clauses are applied to the headers before the join, not to the join rows. This is equivalent, because they test only `SalesOrder` columns.
- Exceptions from the database itself (connection failures, constraint violations) are not modelled. Key uniqueness and item parents are instead kept as the store's invariant `Database.Valid`.
