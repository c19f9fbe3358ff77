# Order data-lifecycle model of the gift-shop order DAO

This project models the order data-access object of the gift-shop backend
(`HibernateOrderDaoImpl`). The database is replaced by an in-memory store: a map from
order id to an order row `{id, userId, active, certificates}`. Four behaviours are modelled:

- **Soft delete.** `addOrder` always saves an order as active. `deleteOrder` reports
  "not found" when the lookup finds nothing. Otherwise it clears exactly that order's
  active flag. No key is ever removed from the store.
- **Active-only listings and the paging window.** Every query text filters on
  `o.isActive=true`. A page starts at offset `(page - 1) * size` and holds the rows that remain from there, at most `size` of them, in the database's order.
- **Historical-snapshot substitution.** In the per-user listing, each certificate whose id
  matches a "first version" snapshot is replaced by the last such snapshot in the list.
  Certificates without a snapshot stay as they are. Each collection then becomes a set.
- **Sort clause construction.** The ORDER BY text is built from a closed sort field and
  a closed direction. It can be parsed back to the criteria it came from.

Modules:
- `Wrappers`: Option, Result and Outcome.
- `Domain`: certificates and orders.
- `Paging`: the offset and window.
- `Queries`: the JPQL texts.
- `FirstVersions`: the substitution.
- `OrderDao`: the store class and its specification functions.

The store is the class `OrderDao.OrderDaoImpl`. Its methods change the `orders` map in
place. The functions `Added`, `Deleted`, `Listing` and `ListingPage` specify them, and
the lemmas beside those functions prove their properties.

Inputs of the real system that the model takes as parameters:
- **`firstVersions`**: the snapshots that the audit query returns.
- **`ranking`**: the ids in the order the database sorts them for the requested criteria.
- **`findsInactive`**: whether the persistence layer's lookup by id also returns
  soft-deleted orders.

## Model

| member | source | states |
|---|---|---|
| `Paging.Wrap32` | src/main/java/com/epam/esm/dao/impl/HibernateOrderDaoImpl.java:67 | Java int arithmetic: the result is a 32-bit value, equals the input when the input fits, and differs from it by a multiple of 2^32 |
| `Paging.OffsetAsWritten` | src/main/java/com/epam/esm/dao/impl/HibernateOrderDaoImpl.java:67 | the offset as written, with `page - 1` and the product both wrapping: a signed 32-bit value congruent to `(page - 1) * size` modulo 2^32, and equal to it whenever that product fits an int |
| `Paging.WrappedOffsetRepeatsPage` | src/main/java/com/epam/esm/dao/impl/HibernateOrderDaoImpl.java:67 | page 65538 of size 65536 gets offset 65536, the same offset as page 2 |
| `Paging.AsWrittenRepeatsPage` | src/main/java/com/epam/esm/dao/impl/HibernateOrderDaoImpl.java:67-68 | as written, page 65538 of size 65536 returns the rows of page 2 for every sequence; the corrected window refuses that page |
| `Paging.PageWindowAsWritten` | src/main/java/com/epam/esm/dao/impl/HibernateOrderDaoImpl.java:67-68 | the window as written succeeds exactly when the wrapped offset and the size are non-negative (a negative wrapped offset is refused first); it then holds exactly min(`size`, rows left after the wrapped offset) rows, row i being the row at the wrapped offset plus i |
| `Paging.AsWrittenAgreesWhenFits` | src/main/java/com/epam/esm/dao/impl/HibernateOrderDaoImpl.java:67-68 | whenever `(page - 1) * size` fits an int, the window as written is exactly the corrected window |
| `Paging.AsWrittenNegativePageWraps` | src/main/java/com/epam/esm/dao/impl/HibernateOrderDaoImpl.java:67-68 | as written, page -65535 of size 65536 has offset 0 and returns the rows of page 1 for every sequence; the corrected window refuses it as a negative offset |
| `Paging.AsWrittenOverflowTurnsNegative` | src/main/java/com/epam/esm/dao/impl/HibernateOrderDaoImpl.java:67-68 | as written, page 32769 of size 65536 wraps to offset INT_MIN and is refused as a negative first result; the corrected window refuses it as an overflow |
| `Paging.PageOffset` | src/main/java/com/epam/esm/dao/impl/HibernateOrderDaoImpl.java:67 | corrected offset: it succeeds exactly when `0 <= (page - 1) * size <= INT_MAX`, with that exact value; a negative offset is reported as such |
| `Paging.Window` | src/main/java/com/epam/esm/dao/impl/HibernateOrderDaoImpl.java:67-68 | at most `limit` rows; the exact count left after the offset, capped at `limit`; row i is row `offset + i` of the input |
| `Paging.PageWindow` | src/main/java/com/epam/esm/dao/impl/HibernateOrderDaoImpl.java:67-68 | the page succeeds exactly when the offset fits and `size >= 0`; it holds every remaining row up to `size` (exactly min(`size`, rows left after the offset)); row i is row `(page - 1) * size + i` of the sorted, filtered sequence |
| `Paging.PageCovers` | src/main/java/com/epam/esm/dao/impl/HibernateOrderDaoImpl.java:67-68 | each row i of the sequence is on page `i / size + 1`, at position `i % size` |
| `Paging.PagesDisjoint` | src/main/java/com/epam/esm/dao/impl/HibernateOrderDaoImpl.java:67-68 | two different pages of the same size never show the same position of the sequence |
| `Queries.SortByName` | src/main/java/com/epam/esm/dao/impl/HibernateOrderDaoImpl.java:64 | a sort field is rendered as a non-empty word without spaces |
| `Queries.SortTypeName` | src/main/java/com/epam/esm/dao/impl/HibernateOrderDaoImpl.java:64 | a sort direction is rendered as a non-empty word without spaces |
| `Queries.SortByOfName` | src/main/java/com/epam/esm/dao/impl/HibernateOrderDaoImpl.java:64 | a rendered sort field reads back as that field |
| `Queries.SortTypeOfName` | src/main/java/com/epam/esm/dao/impl/HibernateOrderDaoImpl.java:64 | a rendered direction reads back as that direction |
| `Queries.UserQuery` | src/main/java/com/epam/esm/dao/impl/HibernateOrderDaoImpl.java:33-64 | the per-user text begins with the fixed user-and-active filter, is longer than that filter plus `order by `, and ends with a space and the direction |
| `Queries.UserQueryRoundTrip` | src/main/java/com/epam/esm/dao/impl/HibernateOrderDaoImpl.java:63-64 | parsing a per-user query text gives back the criteria it was built from |
| `Queries.ParseUserQuerySound` | src/main/java/com/epam/esm/dao/impl/HibernateOrderDaoImpl.java:63-64 | every text that parses is the filter prefix, `order by`, a field and a direction from the closed enumerations, and nothing else |
| `Queries.UserQueryInjective` | src/main/java/com/epam/esm/dao/impl/HibernateOrderDaoImpl.java:63-64 | different criteria give different query texts |
| `Queries.QueriesFilterActive` | src/main/java/com/epam/esm/dao/impl/HibernateOrderDaoImpl.java:32-35 | the per-user, all-orders and count texts all end with the `o.isActive=true` filter, and the per-user text begins with its constant |
| `Queries.FirstSpace` | src/main/java/com/epam/esm/dao/impl/HibernateOrderDaoImpl.java:64 | finds the space between the sort field and the direction: that position holds a space and nothing before it does; no result means there is no space at all |
| `FirstVersions.Replace` | src/main/java/com/epam/esm/dao/impl/HibernateOrderDaoImpl.java:55 | the replaceAll step keeps the id and returns either the original or the snapshot |
| `FirstVersions.FirstVersionOf` | src/main/java/com/epam/esm/dao/impl/HibernateOrderDaoImpl.java:55 | the rewritten certificate keeps its id and is either the original or one of the snapshots |
| `FirstVersions.FirstVersionOfIsLast` | src/main/java/com/epam/esm/dao/impl/HibernateOrderDaoImpl.java:55 | a certificate with a matching snapshot becomes the last snapshot in the list with its id |
| `FirstVersions.FirstVersionOfUnmatched` | src/main/java/com/epam/esm/dao/impl/HibernateOrderDaoImpl.java:55 | a certificate with no matching snapshot is unchanged |
| `FirstVersions.LastSnapshotExists` | src/main/java/com/epam/esm/dao/impl/HibernateOrderDaoImpl.java:55 | when some snapshot has the id, a last one with that id exists |
| `FirstVersions.SubstituteSet` | src/main/java/com/epam/esm/dao/impl/HibernateOrderDaoImpl.java:54-56 | the new collection holds exactly the rewritten images of the old certificates |
| `FirstVersions.SubstituteSetNoLarger` | src/main/java/com/epam/esm/dao/impl/HibernateOrderDaoImpl.java:56 | the resulting set never has more elements than the original collection |
| `FirstVersions.SubstituteSetSpec` | src/main/java/com/epam/esm/dao/impl/HibernateOrderDaoImpl.java:53-57 | no more elements; the same ids; every unmatched certificate kept; every element either an unmatched original or the last snapshot with its id |
| `FirstVersions.SubstituteOrder` | src/main/java/com/epam/esm/dao/impl/HibernateOrderDaoImpl.java:56 | rewriting an order keeps its id, user and active flag |
| `FirstVersions.SubstituteAll` | src/main/java/com/epam/esm/dao/impl/HibernateOrderDaoImpl.java:53-57 | the listing keeps its length, and position i holds the rewritten order i |
| `FirstVersions.SubstituteAllKeepsOrders` | src/main/java/com/epam/esm/dao/impl/HibernateOrderDaoImpl.java:53-57 | substitution keeps the number and order of the orders and every field but the certificates; each collection keeps its ids and never grows |
| `FirstVersions.RewriteCertificates` | src/main/java/com/epam/esm/dao/impl/HibernateOrderDaoImpl.java:54-56 | copying into a list, running replaceAll once per snapshot in list order and collecting into a set yields `SubstituteSet` |
| `FirstVersions.ApplyFirstVersions` | src/main/java/com/epam/esm/dao/impl/HibernateOrderDaoImpl.java:53-57 | the in-place loop over the orders leaves exactly `SubstituteAll` of the old contents |
| `OrderDao.Lookup` | src/main/java/com/epam/esm/dao/impl/HibernateOrderDaoImpl.java:87-89 | the lookup finds an order exactly when it is stored and is active (or the layer returns inactive orders too), and returns the stored row |
| `OrderDao.Added` | src/main/java/com/epam/esm/dao/impl/HibernateOrderDaoImpl.java:103-106 | the added order is stored active with its other fields as given; every other order is unchanged; ids stay matched to keys |
| `OrderDao.Deleted` | src/main/java/com/epam/esm/dao/impl/HibernateOrderDaoImpl.java:109-116 | not-found exactly when the lookup finds nothing; otherwise the same keys, that order inactive with its other fields unchanged, and every other order unchanged |
| `OrderDao.Listing` | src/main/java/com/epam/esm/dao/impl/HibernateOrderDaoImpl.java:32-35 | every listed order is stored and visible: active, and of the requested user if one is named; every visible stored order that the ranking names is listed |
| `OrderDao.KeptPositions` | src/main/java/com/epam/esm/dao/impl/HibernateOrderDaoImpl.java:32-35 | the ranking positions a listing keeps all lie within the ranking |
| `OrderDao.KeptPositionsIncrease` | src/main/java/com/epam/esm/dao/impl/HibernateOrderDaoImpl.java:62-70 | the kept ranking positions strictly increase |
| `OrderDao.ListingAtKept` | src/main/java/com/epam/esm/dao/impl/HibernateOrderDaoImpl.java:62-70 | row i of a listing is the stored order at the i-th kept ranking position |
| `OrderDao.ListingInRankingOrder` | src/main/java/com/epam/esm/dao/impl/HibernateOrderDaoImpl.java:62-70 | a listing keeps the database's sort order: its rows are the visible stored orders at strictly increasing ranking positions |
| `OrderDao.ListingOnce` | src/main/java/com/epam/esm/dao/impl/HibernateOrderDaoImpl.java:32-35 | when the database lists each id once, no order appears twice in a listing |
| `OrderDao.ListingPage` | src/main/java/com/epam/esm/dao/impl/HibernateOrderDaoImpl.java:62-71 | a page of a listing holds exactly min(`size`, rows left after the offset) orders; they are consecutive rows of the listing starting at `(page - 1) * size`; it fails only on a bad window |
| `OrderDao.ActiveIds` | src/main/java/com/epam/esm/dao/impl/HibernateOrderDaoImpl.java:35 | the counted ids are exactly the stored ids of active orders |
| `OrderDao.ActiveCount` | src/main/java/com/epam/esm/dao/impl/HibernateOrderDaoImpl.java:97-100 | the active-order count never exceeds the number of stored orders |
| `OrderDao.DeletedActiveCount` | src/main/java/com/epam/esm/dao/impl/HibernateOrderDaoImpl.java:109-116 | deleting an active order lowers the count by one; deleting an inactive one leaves it unchanged |
| `OrderDao.AddedActiveCount` | src/main/java/com/epam/esm/dao/impl/HibernateOrderDaoImpl.java:103-106 | adding an order under a new id raises the count by one |
| `OrderDao.DeletedHidden` | src/main/java/com/epam/esm/dao/impl/HibernateOrderDaoImpl.java:109-116 | after a delete, the order appears in no listing and no page, for any user filter, ranking, page and size |
| `OrderDao.AddedListed` | src/main/java/com/epam/esm/dao/impl/HibernateOrderDaoImpl.java:103-106 | an added order is listed for its user and among all orders |
| `OrderDao.RepeatDelete` | src/main/java/com/epam/esm/dao/impl/HibernateOrderDaoImpl.java:110-113 | a second delete of the same id fails exactly when the lookup skips inactive orders; otherwise it changes nothing |
| `OrderDao.OrderDaoImpl.constructor` | src/main/java/com/epam/esm/dao/impl/HibernateOrderDaoImpl.java:37-40 | a new DAO has an empty store and the given lookup behaviour |
| `OrderDao.OrderDaoImpl.GetOrderById` | src/main/java/com/epam/esm/dao/impl/HibernateOrderDaoImpl.java:87-89 | returns the lookup result, which is always the stored row under that id |
| `OrderDao.OrderDaoImpl.AddOrder` | src/main/java/com/epam/esm/dao/impl/HibernateOrderDaoImpl.java:103-106 | returns the order marked active; the new store is `Added` of the old one |
| `OrderDao.OrderDaoImpl.DeleteOrder` | src/main/java/com/epam/esm/dao/impl/HibernateOrderDaoImpl.java:109-116 | not found: reports the id and leaves the store unchanged; otherwise the new store is `Deleted` of the old one |
| `OrderDao.OrderDaoImpl.GetAllOrdersByPage` | src/main/java/com/epam/esm/dao/impl/HibernateOrderDaoImpl.java:92-95 | returns `ListingPage` of the active orders: at most `size` orders, all active, consecutive rows of the listing (which `ListingInRankingOrder` puts in ranking order) |
| `OrderDao.OrderDaoImpl.GetOrdersByUserId` | src/main/java/com/epam/esm/dao/impl/HibernateOrderDaoImpl.java:48-60 | the page of the user's active orders with snapshots substituted; at most `size` orders, all active and of that user; a bad window is reported |

## Findings

| source | as written | input that shows it | evidently intended | confidence | as-written member | corrected member |
|---|---|---|---|---|---|---|
| src/main/java/com/epam/esm/dao/impl/HibernateOrderDaoImpl.java:67 | `(page - 1) * size` is computed in 32-bit int arithmetic, which wraps silently | page = 65538, size = 65536: the product 4295032832 wraps to 65536, the offset of page 2, so page 2 is returned again | the offset is exactly `(page - 1) * size`, and a page whose offset does not fit an int is refused | medium, not executed; the page and size checks in the service layer are not part of this model and may bound the inputs | `Paging.AsWrittenRepeatsPage` | `Paging.PageOffset` |
| src/main/java/com/epam/esm/dao/impl/HibernateOrderDaoImpl.java:67 | the same 32-bit product wraps for a negative page as well | page = -65535, size = 65536: the product -4294967296 wraps to 0, so page 1 is returned for a page that does not exist | a page whose offset is negative is refused | medium, not executed; the page and size checks in the service layer are not part of this model and may bound the inputs | `Paging.AsWrittenNegativePageWraps` | `Paging.PageOffset` |

The rest of the model pages with the corrected `Paging.PageOffset` and `Paging.PageWindow`.

## Left out

- OrderDao.ListingPage: uses the corrected window `Paging.PageWindow`, which refuses every
  offset `(page - 1) * size` outside the int range: with `FirstResultOverflow` above INT_MAX
  and with `NegativeFirstResult` below INT_MIN. The source uses the wrapped offset instead:
  when it is non-negative the page shows another page's rows, and when it is negative
  `setFirstResult` throws an IllegalArgumentException (see "## Findings" and
  `Paging.PageWindowAsWritten`, which models that window as written).
- OrderDao.OrderDaoImpl.GetOrdersByUserId: pages through `OrderDao.ListingPage`, so it can
  differ from the source only on the out-of-range offsets described in the line above;
  `Paging.AsWrittenAgreesWhenFits` proves the two windows equal for every int page and size
  whose product fits an int.
- OrderDao.OrderDaoImpl.GetAllOrdersByPage: the source leaves paging to
  `persistenceService.getAllModelsByPage`, which is not part of this model; how that layer
  computes its offset, and whether it wraps, is not visible, so the model pages it with
  `OrderDao.ListingPage` like the per-user listing.
- OrderDao.Listing: the `ranking` input may name an id twice, and then the listing shows
  that order twice. A query over the order table lists each row once, and
  `OrderDao.ListingOnce` proves that under that condition no order is repeated.

- `getFirstVersionOfOrders` (the Envers audit query in HibernateOrderDaoImpl.java, lines 73-84) is not modelled.
  Its "minimum revision per entity" semantics and its disjunction handling belong to the
  audit library. Its result is the `firstVersions` input. The model therefore also does
  not check that the snapshots are the first revisions, or that the lookup is batched.
- The persistence layer (`getModelById`, `getAllModelsByPage`, `getLastPage`, `add`,
  `update`) is not part of this model. Its lookup is modelled by `Lookup` with the
  `findsInactive` switch. A second delete fails exactly when that layer skips inactive
  orders, as `RepeatDelete` states; no claim is made for either setting.
- `getLastPage`: its page arithmetic lives in the persistence layer. Only the count it
  starts from is modelled (`ActiveCount`), and no ceiling formula is claimed.
- `OrderDao.OrderDaoImpl.GetAllOrdersByPage`: the paging inside the persistence layer is
  not visible. It is modelled with the same window as the per-user listing.
- Database sorting is not modelled. The `ranking` input gives the ids in sort order. The
  sort enum's own file is not part of this model. Only its `COST` constant is used, and it
  is rendered by its name. Its other constants and its `toString` are not modelled.
- `addOrder`: the id is generated by the database. The model stores the order under the
  id it carries, and replaces any order already stored under that id.
- `getOrdersByUserId` rewrites managed entities. Whether the rewritten certificate sets
  are flushed back to the database is not modelled; the store is left unchanged.
- Certificate prices and the order total are floating point and are not modelled.
  Certificate equality in the HashSet is structural equality of the certificate value.
- `size = 0` follows the query API's contract (no rows). Hibernate versions that read 0
  as "no limit" are not modelled.
- The per-page batching of the snapshot lookup, and the check that the user exists, are
  in code that is not part of this model.
- The first-revision policy, a ceiling for the last page, and a failing second delete
  are not in the visible code. The model follows the code on all three: substitution uses
  whatever snapshots are given, and the persistence layer decides the other two.
- HTTP controllers, hypermedia link building, DTO copying, the tag service interface and
  the Mockito-based service tests have no logic of this DAO and are not modelled.
