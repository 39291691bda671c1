/** The discovery store itself: the two collections the provider holds as
    state, and the eight operations it offers. Each operation replaces one or
    both collections by a pure function of the old ones, as the setters in
    app/discovery-context.tsx do; the writes to local storage that follow are
    not modelled. */
module Store {
  import opened Domain

  class DiscoveryStore {
    var items: seq<Item>
    var orders: seq<Order>

    /** Seeds both collections from what the two storage slots held. */
    constructor (storedItems: Stored<Item>, storedOrders: Stored<Order>)
      ensures items == LoadItems(storedItems) && orders == LoadOrders(storedOrders)
    {
      items := LoadItems(storedItems);
      orders := LoadOrders(storedOrders);
    }

    method AddItem(draft: ItemDraft, freshId: string)
      modifies this
      ensures items == AppendItem(old(items), draft, freshId)
      ensures orders == old(orders)
    {
      items := AppendItem(items, draft, freshId);
    }

    method RemoveItem(itemId: string)
      modifies this
      ensures items == WithoutItem(old(items), itemId)
      ensures orders == ClearItemReferences(old(orders), itemId)
    {
      items := WithoutItem(items, itemId);
      orders := ClearItemReferences(orders, itemId);
    }

    /** Prepends a new pending order and returns its id. */
    method SubmitOrder(categories: seq<Category>, freshId: string, now: int) returns (id: string)
      modifies this
      ensures id == freshId
      ensures orders == [NewOrder(freshId, now, categories)] + old(orders)
      ensures items == old(items)
    {
      orders := [NewOrder(freshId, now, categories)] + orders;
      id := freshId;
    }

    method DeleteOrder(orderId: string)
      modifies this
      ensures orders == WithoutOrder(old(orders), orderId)
      ensures items == old(items)
    {
      orders := WithoutOrder(orders, orderId);
    }

    method ResetOrders()
      modifies this
      ensures orders == [] && items == old(items)
    {
      orders := [];
    }

    method AssignItemToOrderSection(orderId: string, sectionIndex: int, itemId: string)
      modifies this
      ensures orders == AssignItem(old(orders), orderId, sectionIndex, itemId)
      ensures items == old(items)
    {
      orders := AssignItem(orders, orderId, sectionIndex, itemId);
    }

    method CompleteOrder(orderId: string)
      modifies this
      ensures orders == MarkComplete(old(orders), orderId)
      ensures items == old(items)
    {
      orders := MarkComplete(orders, orderId);
    }

    method ResetDemoData()
      modifies this
      ensures items == [] && orders == []
    {
      items := [];
      orders := [];
    }
  }
}
