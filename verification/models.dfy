/** The two JSON models the service exchanges. Both are plain records: the client neither
    builds nor checks carts, so no invariant is attached to them here. */
module Models {
  import opened Wrappers
  import opened Primitives

  /** A .NET `decimal` amount, kept exact. */
  type Money = real

  /** An item on sale (JSON fields `Id`, `Name`, `Description`, `Value`, `InventoryCount`). */
  datatype Item = Item(id: int64, name: Option<string>, description: Option<string>, value: Money, inventoryCount: int32)

  /** The server's view of the cart after an operation (JSON fields `ItemList`,
      `ItemCountMap`, `TotalItemCount`, `TotalValue`). */
  datatype ShoppingCart = ShoppingCart(itemList: seq<Item>, itemCountMap: map<int32, int32>, totalItemCount: int32, totalValue: Money)
}
