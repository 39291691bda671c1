/** Invariants over the two collections together, and how the store's
    operations and the admin page's drop guard bear on them. The store itself
    checks neither category nor status when it assigns (see
    app/discovery-context.tsx, `assignItemToOrderSection`); the invariant that
    every assigned section holds an item it accepts is kept only because the
    admin page's guard stands in front of it. */
module Integrity {
  import opened Domain
  import opened Admin

  /** A section is either empty or holds the id of a listed item whose
      category it accepts. */
  predicate SectionBacked(items: seq<Item>, s: Section)
  {
    s.selectedItemId.Some? ==>
      exists it :: it in items && it.id == s.selectedItemId.value
                   && Accepts(s.requestedCategory, CategoryName(it.category))
  }

  /** Every section of every order is backed. */
  predicate WellAssigned(items: seq<Item>, orders: seq<Order>)
  {
    forall k, j :: 0 <= k < |orders| && 0 <= j < |orders[k].sections| ==>
      SectionBacked(items, orders[k].sections[j])
  }

  /** No two orders share an id. */
  predicate UniqueOrderIds(orders: seq<Order>)
  {
    forall i, j :: 0 <= i < j < |orders| ==> orders[i].id != orders[j].id
  }

  /** No two items share an id. */
  predicate UniqueItemIds(items: seq<Item>)
  {
    forall i, j :: 0 <= i < j < |items| ==> items[i].id != items[j].id
  }

  /** No other order shares the id of the order at `m`. */
  predicate IdUniqueAt(orders: seq<Order>, m: int)
    requires 0 <= m < |orders|
  {
    forall k :: 0 <= k < |orders| && k != m ==> orders[k].id != orders[m].id
  }

  /** Every completed order has every section assigned. */
  predicate CompletedAreFilled(orders: seq<Order>)
  {
    forall k :: 0 <= k < |orders| && orders[k].status == Completed ==> AllSectionsAssigned(orders[k])
  }

  // ----- the assignment invariant -----

  /** `addItem` only adds candidates, so every backed section stays backed. */
  lemma AddItemKeepsWellAssigned(items: seq<Item>, orders: seq<Order>, draft: ItemDraft, freshId: string)
    requires WellAssigned(items, orders)
    ensures WellAssigned(AppendItem(items, draft, freshId), orders)
  {
    var items' := AppendItem(items, draft, freshId);
    forall it | it in items ensures it in items' {
      assert it in items'[..|items|];
    }
  }

  /** `removeItem` takes out the item and, with it, every reference to it, so
      no section is left pointing at a missing item. */
  lemma RemoveItemKeepsWellAssigned(items: seq<Item>, orders: seq<Order>, itemId: string)
    requires WellAssigned(items, orders)
    ensures WellAssigned(WithoutItem(items, itemId), ClearItemReferences(orders, itemId))
  {
    var items' := WithoutItem(items, itemId);
    var orders' := ClearItemReferences(orders, itemId);
    forall k, j | 0 <= k < |orders'| && 0 <= j < |orders'[k].sections|
      ensures SectionBacked(items', orders'[k].sections[j])
    {
      var s := orders[k].sections[j];
      if orders'[k].sections[j].selectedItemId.Some? {
        assert s.selectedItemId.Some? && s.selectedItemId.value != itemId;
        var it :| it in items && it.id == s.selectedItemId.value
                  && Accepts(s.requestedCategory, CategoryName(it.category));
        assert it in items';
      }
    }
  }

  /** A submitted order starts with every section empty. */
  lemma SubmitKeepsWellAssigned(items: seq<Item>, orders: seq<Order>, freshId: string, now: int, cats: seq<Category>)
    requires WellAssigned(items, orders)
    ensures WellAssigned(items, [NewOrder(freshId, now, cats)] + orders)
  {
    var orders' := [NewOrder(freshId, now, cats)] + orders;
    forall k, j | 0 <= k < |orders'| && 0 <= j < |orders'[k].sections|
      ensures SectionBacked(items, orders'[k].sections[j])
    {
      if k > 0 {
        assert orders'[k] == orders[k - 1];
      }
    }
  }

  /** `deleteOrder` keeps only orders that were there. */
  lemma DeleteOrderKeepsWellAssigned(items: seq<Item>, orders: seq<Order>, orderId: string)
    requires WellAssigned(items, orders)
    ensures WellAssigned(items, WithoutOrder(orders, orderId))
  {
    var orders' := WithoutOrder(orders, orderId);
    forall k, j | 0 <= k < |orders'| && 0 <= j < |orders'[k].sections|
      ensures SectionBacked(items, orders'[k].sections[j])
    {
      assert orders'[k] in orders;
      var m :| 0 <= m < |orders| && orders[m] == orders'[k];
      assert orders'[k].sections[j] == orders[m].sections[j];
    }
  }

  /** `completeOrder` changes statuses only. */
  lemma CompleteKeepsWellAssigned(items: seq<Item>, orders: seq<Order>, orderId: string)
    requires WellAssigned(items, orders)
    ensures WellAssigned(items, MarkComplete(orders, orderId))
  {
    var orders' := MarkComplete(orders, orderId);
    forall k, j | 0 <= k < |orders'| && 0 <= j < |orders'[k].sections|
      ensures SectionBacked(items, orders'[k].sections[j])
    {
      assert orders'[k].sections[j] == orders[k].sections[j];
    }
  }

  /** A drop of a listed item onto a section of a listed order whose id no
      other order has, with the section's own requested category, keeps every
      section backed: when the guard lets it through, the one section that
      changes accepts the item. */
  lemma DropKeepsWellAssigned(items: seq<Item>, orders: seq<Order>, m: int, sectionIndex: int, it: Item)
    requires WellAssigned(items, orders)
    requires 0 <= m < |orders| && IdUniqueAt(orders, m)
    requires 0 <= sectionIndex < |orders[m].sections| && it in items
    ensures var requested := orders[m].sections[sectionIndex].requestedCategory;
            WellAssigned(items, AfterDrop(orders, DropAction(orders[m], sectionIndex, requested, it.id, CategoryName(it.category))))
  {
    var requested := orders[m].sections[sectionIndex].requestedCategory;
    var action := DropAction(orders[m], sectionIndex, requested, it.id, CategoryName(it.category));
    if action.Some? {
      var orders' := AssignItem(orders, orders[m].id, sectionIndex, it.id);
      forall k, j | 0 <= k < |orders'| && 0 <= j < |orders'[k].sections|
        ensures SectionBacked(items, orders'[k].sections[j])
      {
        if orders[k].id == orders[m].id && j == sectionIndex {
          assert k == m;
          assert orders'[k].sections[j] == Section(requested, Some(it.id));
        } else {
          assert orders'[k].sections[j] == orders[k].sections[j];
        }
      }
    }
  }

  /** Without the guard the store breaks the invariant: assigning a Food item
      to a Fashion section goes through. */
  lemma StoreAssignSkipsCategoryCheck()
    ensures var items := [Item("spice", "Jollof Spice Blend", "Savor Diaspora Kitchen", Food, "mix")];
            var orders := [NewOrder("o", 0, [Fashion])];
            WellAssigned(items, orders) && !WellAssigned(items, AssignItem(orders, "o", 0, "spice"))
  {
    var items := [Item("spice", "Jollof Spice Blend", "Savor Diaspora Kitchen", Food, "mix")];
    var orders := [NewOrder("o", 0, [Fashion])];
    var after := AssignItem(orders, "o", 0, "spice");
    assert after[0].sections[0] == Section(Fashion, Some("spice"));
    assert !SectionBacked(items, after[0].sections[0]);
  }

  /** The guard freezes completed orders: a drop onto an order whose id no
      other order has leaves every completed order exactly as it was. */
  lemma DropLeavesCompletedOrders(orders: seq<Order>, m: int, sectionIndex: int, requested: Category,
                                  itemId: string, itemCategory: string, k: int)
    requires 0 <= m < |orders| && IdUniqueAt(orders, m)
    requires 0 <= k < |orders| && orders[k].status == Completed
    ensures var after := AfterDrop(orders, DropAction(orders[m], sectionIndex, requested, itemId, itemCategory));
            |after| == |orders| && after[k] == orders[k]
  {
    var action := DropAction(orders[m], sectionIndex, requested, itemId, itemCategory);
    if action.Some? {
      assert k != m;
      var after := AssignItem(orders, orders[m].id, sectionIndex, itemId);
      assert after[k].sections == orders[k].sections;
    }
  }

  // ----- unique order ids -----

  /** A fresh id keeps order ids unique. */
  lemma SubmitKeepsUniqueIds(orders: seq<Order>, freshId: string, now: int, cats: seq<Category>)
    requires UniqueOrderIds(orders)
    requires forall k :: 0 <= k < |orders| ==> orders[k].id != freshId
    ensures UniqueOrderIds([NewOrder(freshId, now, cats)] + orders)
  {
    var orders' := [NewOrder(freshId, now, cats)] + orders;
    forall i, j | 0 <= i < j < |orders'| ensures orders'[i].id != orders'[j].id {
      assert orders'[j] == orders[j - 1];
      if i > 0 {
        assert orders'[i] == orders[i - 1];
      }
    }
  }

  /** Deleting keeps ids unique: what remains is a subsequence. */
  lemma {:induction false} DeleteKeepsUniqueIds(orders: seq<Order>, orderId: string)
    requires UniqueOrderIds(orders)
    ensures UniqueOrderIds(WithoutOrder(orders, orderId))
  {
    if orders != [] {
      var tail := orders[1..];
      TailKeepsUniqueIds(orders);
      DeleteKeepsUniqueIds(tail, orderId);
      var rest := WithoutOrder(tail, orderId);
      if orders[0].id != orderId {
        forall o | o in rest ensures o.id != orders[0].id {
          var n :| 0 <= n < |tail| && tail[n] == o;
          assert orders[n + 1] == o;
        }
        ConsKeepsUniqueIds(orders[0], rest);
        assert WithoutOrder(orders, orderId) == [orders[0]] + rest;
      } else {
        assert WithoutOrder(orders, orderId) == rest;
      }
    }
  }

  lemma TailKeepsUniqueIds(orders: seq<Order>)
    requires UniqueOrderIds(orders) && orders != []
    ensures UniqueOrderIds(orders[1..])
  {
    var tail := orders[1..];
    forall i, j | 0 <= i < j < |tail| ensures tail[i].id != tail[j].id {
      assert tail[i] == orders[i + 1] && tail[j] == orders[j + 1];
    }
  }

  lemma ConsKeepsUniqueIds(x: Order, rest: seq<Order>)
    requires UniqueOrderIds(rest)
    requires forall o :: o in rest ==> o.id != x.id
    ensures UniqueOrderIds([x] + rest)
  {
    var r := [x] + rest;
    forall i, j | 0 <= i < j < |r| ensures r[i].id != r[j].id {
      assert r[j] == rest[j - 1];
      if i > 0 {
        assert r[i] == rest[i - 1];
      }
    }
  }

  /** Assigning, completing and clearing leave every order's id in place. */
  lemma UpdatesKeepUniqueIds(orders: seq<Order>, orderId: string, sectionIndex: int, itemId: string)
    requires UniqueOrderIds(orders)
    ensures UniqueOrderIds(AssignItem(orders, orderId, sectionIndex, itemId))
    ensures UniqueOrderIds(MarkComplete(orders, orderId))
    ensures UniqueOrderIds(ClearItemReferences(orders, itemId))
  {
    var a := AssignItem(orders, orderId, sectionIndex, itemId);
    var c := MarkComplete(orders, orderId);
    var r := ClearItemReferences(orders, itemId);
    forall i, j | 0 <= i < j < |orders|
      ensures a[i].id != a[j].id && c[i].id != c[j].id && r[i].id != r[j].id
    {
      assert a[i].id == orders[i].id && a[j].id == orders[j].id;
      assert c[i].id == orders[i].id && c[j].id == orders[j].id;
      assert r[i].id == orders[i].id && r[j].id == orders[j].id;
    }
  }

  // ----- unique item ids -----

  /** `addItem` under an id no listed item has keeps item ids unique. */
  lemma AddItemKeepsUniqueIds(items: seq<Item>, draft: ItemDraft, freshId: string)
    requires UniqueItemIds(items) && !HasItemId(items, freshId)
    ensures UniqueItemIds(AppendItem(items, draft, freshId))
  {
    var r := AppendItem(items, draft, freshId);
    forall i, j | 0 <= i < j < |r| ensures r[i].id != r[j].id {
      assert r[i] == items[i];
      if j < |items| {
        assert r[j] == items[j];
      }
    }
  }

  /** `removeItem` keeps item ids unique: what remains is a subsequence. */
  lemma {:induction false} RemoveItemKeepsUniqueIds(items: seq<Item>, itemId: string)
    requires UniqueItemIds(items)
    ensures UniqueItemIds(WithoutItem(items, itemId))
  {
    if items != [] {
      var tail := items[1..];
      assert UniqueItemIds(tail) by {
        forall i, j | 0 <= i < j < |tail| ensures tail[i].id != tail[j].id {
          assert tail[i] == items[i + 1] && tail[j] == items[j + 1];
        }
      }
      RemoveItemKeepsUniqueIds(tail, itemId);
      var rest := WithoutItem(tail, itemId);
      if items[0].id != itemId {
        forall it | it in rest ensures it.id != items[0].id {
          var n :| 0 <= n < |tail| && tail[n] == it;
          assert items[n + 1] == it;
        }
        ConsKeepsUniqueItemIds(items[0], rest);
        assert WithoutItem(items, itemId) == [items[0]] + rest;
      } else {
        assert WithoutItem(items, itemId) == rest;
      }
    }
  }

  lemma ConsKeepsUniqueItemIds(x: Item, rest: seq<Item>)
    requires UniqueItemIds(rest)
    requires forall it :: it in rest ==> it.id != x.id
    ensures UniqueItemIds([x] + rest)
  {
    var r := [x] + rest;
    forall i, j | 0 <= i < j < |r| ensures r[i].id != r[j].id {
      assert r[j] == rest[j - 1];
      if i > 0 {
        assert r[i] == rest[i - 1];
      }
    }
  }

  // ----- completed orders are filled -----

  /** Completion marks only orders whose sections are all assigned. */
  lemma CompleteKeepsFilled(orders: seq<Order>, orderId: string)
    requires CompletedAreFilled(orders)
    ensures CompletedAreFilled(MarkComplete(orders, orderId))
  {
    var c := MarkComplete(orders, orderId);
    forall k | 0 <= k < |c| && c[k].status == Completed ensures AllSectionsAssigned(c[k]) {
      assert c[k].sections == orders[k].sections;
    }
  }

  /** Assignment only fills sections. */
  lemma AssignKeepsFilled(orders: seq<Order>, orderId: string, sectionIndex: int, itemId: string)
    requires CompletedAreFilled(orders)
    ensures CompletedAreFilled(AssignItem(orders, orderId, sectionIndex, itemId))
  {
    var a := AssignItem(orders, orderId, sectionIndex, itemId);
    forall k | 0 <= k < |a| && a[k].status == Completed ensures AllSectionsAssigned(a[k]) {
      forall j | 0 <= j < |a[k].sections| ensures a[k].sections[j].selectedItemId.Some? {
        assert orders[k].sections[j].selectedItemId.Some?;
      }
    }
  }

  /** A submitted order is pending. */
  lemma SubmitKeepsFilled(orders: seq<Order>, freshId: string, now: int, cats: seq<Category>)
    requires CompletedAreFilled(orders)
    ensures CompletedAreFilled([NewOrder(freshId, now, cats)] + orders)
  {
    var s := [NewOrder(freshId, now, cats)] + orders;
    forall k | 0 <= k < |s| && s[k].status == Completed ensures AllSectionsAssigned(s[k]) {
      assert s[k] == orders[k - 1];
    }
  }

  /** Deleting orders leaves the remaining ones as they were. */
  lemma DeleteKeepsFilled(orders: seq<Order>, orderId: string)
    requires CompletedAreFilled(orders)
    ensures CompletedAreFilled(WithoutOrder(orders, orderId))
  {
    var d := WithoutOrder(orders, orderId);
    forall k | 0 <= k < |d| && d[k].status == Completed ensures AllSectionsAssigned(d[k]) {
      assert d[k] in orders;
    }
  }

  /** `removeItem` can empty a section of a completed order: a completed
      order is no longer guaranteed to be filled. */
  lemma RemoveItemCanEmptyCompletedOrder()
    ensures var orders := [Order("o", Completed, 0, [Section(Food, Some("spice"))])];
            CompletedAreFilled(orders) && !CompletedAreFilled(ClearItemReferences(orders, "spice"))
  {
    var orders := [Order("o", Completed, 0, [Section(Food, Some("spice"))])];
    var after := ClearItemReferences(orders, "spice");
    assert after[0].sections[0].selectedItemId == None;
  }
}
