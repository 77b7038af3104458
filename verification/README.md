# Out-of-stock view of an inventory search result

This project models the domain records of an order-fulfilment workflow and the one
piece of behaviour they carry: the out-of-stock view of an inventory search result.
An `InventorySearchResult` holds the list of `ItemStatus` values the inventory service
reported, defaulting to the empty list. Its `OutOfStockItems` property is derived. It
is recomputed on every read as the statuses whose `Quantity` is zero or negative, in
their original order. It is excluded from JSON, so it is never stored next to the
statuses.

Files:

- `domain.dfy` (module `Domain`): the plain records `ItemStatus`, `Product`,
  `InventorySearchRequest`, `UpdateInventoryRequest` and
  `UpdateInventoryResult`. `DateTime` is an integer tick count that nothing compares.
- `search_result.dfy` (module `SearchResult`): the search result, the filter
  `OutOfStock` (the `Where` clause), the left-to-right materialisation
  `OutOfStockToList` (the `ToList` call), the complementary `InStock` filter, and the
  lemmas about them.
- `search_order.dfy` (module `SearchOrder`): a definition of the view that does not
  use the filter. It says the view is the in-order selection of the statuses at exactly
  the out-of-stock positions. The module proves that this definition and the filter
  agree in both directions.

`ItemStatus` is declared outside the modelled files. The filter reads only its integer
`Quantity`, so it is modelled with a product id and that quantity. The lambda
`status => status.Quantity <= 0` is the predicate `SearchResult.IsOutOfStock`. Every
contract states out-of-stock through it, except the boundary lemma
`OutOfStockSingleton`, which names the thresholds 0 and 1 as numbers.

## Model

| member | source | states |
|---|---|---|
| SearchResult.OutOfStock | Domain/InventorySearchResult.cs:10 | the view is never longer than the statuses, and every item in it has a quantity of at most zero |
| SearchResult.InStock | Domain/InventorySearchResult.cs:10 | the statuses the view leaves out: never longer than the input, and every one of them has a quantity of at least one |
| SearchResult.InventorySearchResult.OutOfStockItems | Domain/InventorySearchResult.cs:9-10 | the derived property is computed from the record's own statuses on every read: it is never longer than them, and an item is in it if and only if it is one of the statuses and out of stock |
| SearchResult.OutOfStockToList | Domain/InventorySearchResult.cs:10 | one left-to-right pass that appends each out-of-stock status to a fresh list produces exactly the filtered view on every input |
| SearchResult.OutOfStockAppend | Domain/InventorySearchResult.cs:10 | filtering a concatenation gives the concatenation of the filtered parts, so the filter works element by element in order |
| SearchResult.OutOfStockSingleton | Domain/InventorySearchResult.cs:10 | boundary of the lambda `status.Quantity <= 0` (the predicate `IsOutOfStock`): a status with quantity 0 or below is kept, and a status with quantity 1 or above is dropped |
| SearchResult.OutOfStockMembership | Domain/InventorySearchResult.cs:10 | soundness and completeness: an item is in the view if and only if it is among the statuses and its quantity is at most zero |
| SearchResult.OutOfStockComplete | Domain/InventorySearchResult.cs:10 | every position of the statuses holding an out-of-stock item contributes that item to the view |
| SearchResult.OutOfStockMultiplicity | Domain/InventorySearchResult.cs:10 | an out-of-stock item occurs in the view exactly as often as among the statuses, and an in-stock item never occurs: duplicates are kept and nothing is added |
| SearchResult.OutOfStockPartition | Domain/InventorySearchResult.cs:10 | the view and the in-stock remainder together hold every status exactly once, so their lengths add up to the number of statuses |
| SearchResult.OutOfStockUnchangedIff | Domain/InventorySearchResult.cs:10 | the view equals the statuses if and only if every status is out of stock |
| SearchResult.OutOfStockEmptyIff | Domain/InventorySearchResult.cs:10 | the view is empty if and only if every status is in stock (quantity at least one) |
| SearchResult.OutOfStockIdempotent | Domain/InventorySearchResult.cs:10 | applying the out-of-stock filter to the view again returns the same view |
| SearchResult.EmptySearchResultHasNoOutOfStock | Domain/InventorySearchResult.cs:7-10 | a search result built with the default empty statuses has an empty out-of-stock view |
| SearchResult.OutOfStockItemsMembership | Domain/InventorySearchResult.cs:5-11 | the derived property of a search result is computed from its own statuses: an item is in it if and only if it is one of the result's statuses and out of stock |
| SearchOrder.OutOfStockIsPicked | Domain/InventorySearchResult.cs:10 | the view is the in-order selection of the statuses at strictly increasing positions that are exactly the out-of-stock positions |
| SearchOrder.PickedIsOutOfStock | Domain/InventorySearchResult.cs:10 | any sequence selected in order at exactly the out-of-stock positions is the view, and those positions are unique |
| SearchOrder.OutOfStockCharacterization | Domain/InventorySearchResult.cs:10 | a sequence is the view if and only if it is such an in-order selection: nothing is reordered, dropped, duplicated or invented |

## Left out

- The `[JsonIgnore]` attribute (Domain/InventorySearchResult.cs:9) is not modelled as serialization. The view is a function of the statuses, so it has no stored copy that could go stale.
- Null statuses and null elements are not modelled: a sequence in the model is never null and holds no null items. The source does not guard against either. A search result deserialized from `{"statuses": null}` gets a null `Statuses`, and reading `OutOfStockItems` then throws `ArgumentNullException` from `Where`. A null element in the list makes `status.Quantity` throw `NullReferenceException`. The model's `OutOfStock` is total and has neither failure.
- C# `List` identity and mutation are not modelled. Statuses are an immutable sequence, and the view is a fresh value. A record's reference-based equality on its list field becomes structural equality.
- `ItemStatus` fields other than the product id and the quantity are not modelled. Their declaration is not part of this model.
- Worker/Activity/SendNotificationActivity.cs is left out. It only wraps a publish call on the message bus and stamps the notification with the wall clock. Both are external I/O.
- AppHost/AppHost.cs is left out. It is process bootstrap and wiring. The `USE_CATALYST` switch only selects the deployment topology.
- ServiceDefaults/JsonSerializerOptions.cs is left out. It only sets a JSON library option (case-insensitive property names).
- `Product`, `InventorySearchRequest`, `UpdateInventoryRequest` and `UpdateInventoryResult` are declared as plain datatypes with no contracts. The source gives them no behaviour. `UpdateInventoryRequest.operation` stays an unconstrained string, as in the source.
- The fulfilment workflow is left out: search, reserve, release, restock, compensation, notification, idempotent deduplication and retry. Non-negative stock and monotonic timestamps are left out for the same reason. None of this logic is present in the modelled source files, so a model of it could not be compared with code.
