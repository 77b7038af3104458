/**
 The plain records of the order workflow's domain: the values exchanged between
 the order manager and the inventory service. Apart from the out-of-stock view of
 a search result (module SearchResult), none of them carries behaviour; they are
 declared here so that the rest of the model speaks the system's own vocabulary.
 */
module Domain {

  /** A point in time, as ticks of an external clock. Nothing in the model orders
      or compares these values. */
  type DateTime = int

  /** One line item's stock state as reported by, or sent to, the inventory service.
      A quantity at or below zero means the item is out of stock. */
  datatype ItemStatus = ItemStatus(productId: string, quantity: int)

  /** The canonical stock record of one product. */
  datatype Product = Product(productId: string, quantity: int, lastUpdated: DateTime)

  /** A query for the availability of an order's items. */
  datatype InventorySearchRequest = InventorySearchRequest(orderId: string, items: seq<ItemStatus>)

  /** A mutation intent. The operation is an unconstrained string; "reserve",
      "release" and "restock" are the values callers are expected to use. */
  datatype UpdateInventoryRequest = UpdateInventoryRequest(orderId: string, items: seq<ItemStatus>, operation: string)

  /** The outcome of a mutation. */
  datatype UpdateInventoryResult = UpdateInventoryResult(success: bool, updatedAt: DateTime)
}
