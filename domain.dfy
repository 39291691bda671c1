/** The item/order domain of the discovery store (app/discovery-context.tsx):
    the record types, the category options, the starter catalogue, the rules
    for seeding the store from what local storage returned, and the pure
    transformations every store mutation applies to its two collections. */
module Domain {

  datatype Option<T> = None | Some(value: T)

  datatype Category =
    | Genre | Accessories | Fashion | Food | Lifestyle | ArtEntertainment | Surprise

  /** The string a category is in the program: what is stored, rendered and
      carried in a drag payload. */
  function CategoryName(c: Category): string
  {
    match c
    case Genre => "Genre"
    case Accessories => "Accessories"
    case Fashion => "Fashion"
    case Food => "Food"
    case Lifestyle => "Lifestyle"
    case ArtEntertainment => "Art/Entertainment"
    case Surprise => "Surprise"
  }

  /** Different categories have different names, so comparing names compares
      categories. */
  lemma CategoryNameInjective(c: Category, d: Category)
    ensures CategoryName(c) == CategoryName(d) <==> c == d
  {
  }

  /** `CATEGORY_OPTIONS`: every category once, in display order. */
  const CategoryOptions: seq<Category> :=
    [Genre, Accessories, Fashion, Food, Lifestyle, ArtEntertainment, Surprise]

  lemma EveryCategoryIsAnOption()
    ensures forall c: Category :: c in CategoryOptions
  {
    forall c: Category ensures c in CategoryOptions {
      match c
      case Genre => assert CategoryOptions[0] == c;
      case Accessories => assert CategoryOptions[1] == c;
      case Fashion => assert CategoryOptions[2] == c;
      case Food => assert CategoryOptions[3] == c;
      case Lifestyle => assert CategoryOptions[4] == c;
      case ArtEntertainment => assert CategoryOptions[5] == c;
      case Surprise => assert CategoryOptions[6] == c;
    }
  }

  /** What remains of `cats` with every `x` removed, in the same order. */
  function WithoutCategory(cats: seq<Category>, x: Category): (r: seq<Category>)
    ensures |r| <= |cats|
    ensures forall k :: 0 <= k < |r| ==> r[k] != x
  {
    if cats == [] then []
    else (if cats[0] == x then [] else [cats[0]]) + WithoutCategory(cats[1..], x)
  }

  /** What `WithoutCategory` keeps: every other category, and all of `cats`
      when `x` is not there. */
  lemma {:induction false} WithoutCategoryMembers(cats: seq<Category>, x: Category)
    ensures forall c :: c in WithoutCategory(cats, x) <==> c in cats && c != x
    ensures x !in cats ==> WithoutCategory(cats, x) == cats
  {
    if cats != [] {
      WithoutCategoryMembers(cats[1..], x);
      assert cats == [cats[0]] + cats[1..];
    }
  }

  /** `CREATOR_CATEGORY_OPTIONS`: the options offered to creators, which are
      all categories but Surprise. */
  function CreatorCategoryOptions(): (r: seq<Category>)
    ensures forall c :: c in r <==> c != Surprise
  {
    EveryCategoryIsAnOption();
    WithoutCategoryMembers(CategoryOptions, Surprise);
    WithoutCategory(CategoryOptions, Surprise)
  }

  /** The creator options are the full list in its display order, less its
      last entry, Surprise. */
  lemma CreatorOptionsInOrder()
    ensures CreatorCategoryOptions() == CategoryOptions[..6] == [Genre, Accessories, Fashion, Food, Lifestyle, ArtEntertainment]
  {
    var a := CategoryOptions[..6];
    assert CategoryOptions == a + [Surprise];
    assert Surprise !in a;
    WithoutCategoryConcat(a, [Surprise], Surprise);
    WithoutCategoryMembers(a, Surprise);
    assert WithoutCategory([Surprise], Surprise) == [];
  }

  /** Filtering works piece by piece. */
  lemma {:induction false} WithoutCategoryConcat(a: seq<Category>, b: seq<Category>, x: Category)
    ensures WithoutCategory(a + b, x) == WithoutCategory(a, x) + WithoutCategory(b, x)
  {
    if a != [] {
      assert (a + b)[0] == a[0] && (a + b)[1..] == a[1..] + b;
      WithoutCategoryConcat(a[1..], b, x);
      var head := if a[0] == x then [] else [a[0]];
      var p, q := WithoutCategory(a[1..], x), WithoutCategory(b, x);
      assert WithoutCategory(a + b, x) == head + (p + q);
      assert WithoutCategory(a, x) == head + p;
      assert head + (p + q) == (head + p) + q;
    } else {
      assert a + b == b;
    }
  }

  /** The categories a creator may give an item. */
  type CreatorCategory = c: Category | c != Surprise witness Fashion

  datatype Item = Item(id: string, name: string, business: string, category: Category, description: string)

  /** An item as the creator form hands it over, before the store gives it an id. */
  datatype ItemDraft = ItemDraft(name: string, business: string, category: Category, description: string)

  datatype Section = Section(requestedCategory: Category, selectedItemId: Option<string>)

  datatype Status = Pending | Completed

  /** `createdAt` is the submission time in milliseconds. */
  datatype Order = Order(id: string, status: Status, createdAt: int, sections: seq<Section>)

  const StarterItems: seq<Item> := [
    Item("starter-1", "Shea Glow Body Butter", "Melanin Bloom Naturals", Lifestyle,
         "Hydrating whipped shea butter with citrus scent."),
    Item("starter-2", "Kente Street Tote", "Rooted Thread Co.", Fashion,
         "Everyday tote made with Ghana-inspired print details."),
    Item("starter-3", "Jollof Spice Blend", "Savor Diaspora Kitchen", Food,
         "A mild spice mix to season rice, stews, and proteins.")
  ]

  /** What reading one storage slot can give: no browser window (server
      rendering), no value or an empty string, a read or parse that throws, a
      parsed value that is not an array, or a parsed array. */
  datatype Stored<T> = NoWindow | Missing | Unreadable | NotAnArray | StoredArray(records: seq<T>)

  /** The initial item collection: the stored array when it is non-empty, the
      starter catalogue in every other case. */
  function LoadItems(stored: Stored<Item>): (r: seq<Item>)
    ensures r != []
    ensures stored.StoredArray? && stored.records != [] ==> r == stored.records
    ensures !(stored.StoredArray? && stored.records != []) ==> r == StarterItems
  {
    match stored
    case StoredArray(records) => if |records| > 0 then records else StarterItems
    case _ => StarterItems
  }

  /** Reloading what was saved gives it back exactly when it is not empty: an
      emptied catalogue comes back as the starter items. */
  lemma ItemsReloadRoundTrip(items: seq<Item>)
    ensures LoadItems(StoredArray(items)) == items <==> items != []
  {
  }

  /** The initial order collection: the stored array, or no orders. */
  function LoadOrders(stored: Stored<Order>): (r: seq<Order>)
    ensures stored.StoredArray? ==> r == stored.records
    ensures !stored.StoredArray? ==> r == []
  {
    if stored.StoredArray? then stored.records else []
  }

  // ----- items -----

  predicate HasItemId(items: seq<Item>, id: string)
  {
    exists k :: 0 <= k < |items| && items[k].id == id
  }

  /** `addItem`: the draft, with the fresh id, after every existing item. */
  function AppendItem(items: seq<Item>, draft: ItemDraft, freshId: string): (r: seq<Item>)
    ensures |r| == |items| + 1 && r[..|items|] == items
    ensures r[|items|] == Item(freshId, draft.name, draft.business, draft.category, draft.description)
  {
    items + [Item(freshId, draft.name, draft.business, draft.category, draft.description)]
  }

  /** The item-collection half of `removeItem`. */
  function WithoutItem(items: seq<Item>, itemId: string): (r: seq<Item>)
    ensures forall k :: 0 <= k < |r| ==> r[k].id != itemId
    ensures forall it :: it in r <==> it in items && it.id != itemId
    ensures !HasItemId(items, itemId) ==> r == items
    ensures |r| <= |items|
  {
    if items == [] then []
    else (if items[0].id == itemId then [] else [items[0]]) + WithoutItem(items[1..], itemId)
  }

  /** Removal works piece by piece, so the items that stay keep their order. */
  lemma {:induction false} WithoutItemConcat(a: seq<Item>, b: seq<Item>, itemId: string)
    ensures WithoutItem(a + b, itemId) == WithoutItem(a, itemId) + WithoutItem(b, itemId)
  {
    if a != [] {
      assert (a + b)[0] == a[0] && (a + b)[1..] == a[1..] + b;
      WithoutItemConcat(a[1..], b, itemId);
      var head := if a[0].id == itemId then [] else [a[0]];
      assert WithoutItem(a + b, itemId) == head + WithoutItem(a[1..] + b, itemId);
      assert WithoutItem(a, itemId) == head + WithoutItem(a[1..], itemId);
    } else {
      assert a + b == b;
    }
  }

  /** Removing an item just added under a fresh id restores the collection. */
  lemma WithoutItemUndoesAppend(items: seq<Item>, draft: ItemDraft, freshId: string)
    requires !HasItemId(items, freshId)
    ensures WithoutItem(AppendItem(items, draft, freshId), freshId) == items
  {
    var added := Item(freshId, draft.name, draft.business, draft.category, draft.description);
    WithoutItemConcat(items, [added], freshId);
    assert WithoutItem([added], freshId) == [];
  }

  // ----- sections and orders -----

  /** Every section holds an item id, the condition the store checks before completing. */
  predicate AllSectionsAssigned(o: Order)
  {
    forall j :: 0 <= j < |o.sections| ==> o.sections[j].selectedItemId.Some?
  }

  /** The sections of a new order: one per category, in order, none assigned. */
  function FreshSections(cats: seq<Category>): (r: seq<Section>)
    ensures |r| == |cats|
    ensures forall j :: 0 <= j < |cats| ==> r[j].requestedCategory == cats[j] && r[j].selectedItemId == None
  {
    if cats == [] then [] else [Section(cats[0], None)] + FreshSections(cats[1..])
  }

  /** The order `submitOrder` creates from the fresh id and the current time. */
  function NewOrder(freshId: string, now: int, cats: seq<Category>): (o: Order)
    ensures o.id == freshId && o.status == Pending && o.createdAt == now
    ensures |o.sections| == |cats|
    ensures forall j :: 0 <= j < |cats| ==> o.sections[j] == Section(cats[j], None)
    ensures !AllSectionsAssigned(o) <==> cats != []
  {
    var o := Order(freshId, Pending, now, FreshSections(cats));
    assert cats != [] ==> o.sections[0].selectedItemId == None;
    o
  }

  /** The section, emptied if it holds `itemId` and kept as it is otherwise. */
  function ClearSection(s: Section, itemId: string): Section
  {
    if s.selectedItemId == Some(itemId) then s.(selectedItemId := None) else s
  }

  function ClearInSections(ss: seq<Section>, itemId: string): (r: seq<Section>)
    ensures |r| == |ss|
    ensures forall j :: 0 <= j < |ss| ==> r[j] == ClearSection(ss[j], itemId)
  {
    if ss == [] then [] else [ClearSection(ss[0], itemId)] + ClearInSections(ss[1..], itemId)
  }

  /** The order-collection half of `removeItem`: every section that holds
      `itemId` is emptied, every other section and every order's id, status,
      timestamp and section count stay as they were. */
  function ClearItemReferences(orders: seq<Order>, itemId: string): (r: seq<Order>)
    ensures |r| == |orders|
    ensures forall k :: 0 <= k < |orders| ==>
              r[k].id == orders[k].id && r[k].status == orders[k].status
              && r[k].createdAt == orders[k].createdAt && |r[k].sections| == |orders[k].sections|
    ensures forall k, j :: 0 <= k < |orders| && 0 <= j < |orders[k].sections| ==>
              r[k].sections[j].requestedCategory == orders[k].sections[j].requestedCategory
              && r[k].sections[j].selectedItemId ==
                 (if orders[k].sections[j].selectedItemId == Some(itemId) then None
                  else orders[k].sections[j].selectedItemId)
  {
    if orders == [] then []
    else
      [orders[0].(sections := ClearInSections(orders[0].sections, itemId))]
      + ClearItemReferences(orders[1..], itemId)
  }

  /** After `removeItem(itemId)` no section refers to the item any more. */
  lemma NoReferenceAfterClear(orders: seq<Order>, itemId: string, k: int, j: int)
    requires 0 <= k < |orders| && 0 <= j < |orders[k].sections|
    ensures ClearItemReferences(orders, itemId)[k].sections[j].selectedItemId != Some(itemId)
  {
  }

  /** Clearing the references to an item twice is clearing them once. */
  lemma ClearItemReferencesIdempotent(orders: seq<Order>, itemId: string)
    ensures ClearItemReferences(ClearItemReferences(orders, itemId), itemId)
            == ClearItemReferences(orders, itemId)
  {
    var once := ClearItemReferences(orders, itemId);
    var twice := ClearItemReferences(once, itemId);
    forall k | 0 <= k < |orders| ensures twice[k] == once[k] {
      assert twice[k].sections == once[k].sections;
    }
  }

  /** The orders other than `orderId`: `deleteOrder`. */
  function WithoutOrder(orders: seq<Order>, orderId: string): (r: seq<Order>)
    ensures forall k :: 0 <= k < |r| ==> r[k].id != orderId
    ensures forall o :: o in r <==> o in orders && o.id != orderId
    ensures (forall k :: 0 <= k < |orders| ==> orders[k].id != orderId) ==> r == orders
    ensures |r| <= |orders|
  {
    if orders == [] then []
    else (if orders[0].id == orderId then [] else [orders[0]]) + WithoutOrder(orders[1..], orderId)
  }

  /** Deleting works piece by piece, so the orders that stay keep their order. */
  lemma {:induction false} WithoutOrderConcat(a: seq<Order>, b: seq<Order>, orderId: string)
    ensures WithoutOrder(a + b, orderId) == WithoutOrder(a, orderId) + WithoutOrder(b, orderId)
  {
    if a != [] {
      assert (a + b)[0] == a[0] && (a + b)[1..] == a[1..] + b;
      WithoutOrderConcat(a[1..], b, orderId);
      var head := if a[0].id == orderId then [] else [a[0]];
      assert WithoutOrder(a + b, orderId) == head + WithoutOrder(a[1..] + b, orderId);
      assert WithoutOrder(a, orderId) == head + WithoutOrder(a[1..], orderId);
    } else {
      assert a + b == b;
    }
  }

  /** Deleting an order just submitted under a fresh id restores the collection. */
  lemma DeleteUndoesSubmit(orders: seq<Order>, freshId: string, now: int, cats: seq<Category>)
    requires forall k :: 0 <= k < |orders| ==> orders[k].id != freshId
    ensures WithoutOrder([NewOrder(freshId, now, cats)] + orders, freshId) == orders
  {
    WithoutOrderConcat([NewOrder(freshId, now, cats)], orders, freshId);
  }

  /** The sections, numbered from `from`, with the one numbered `sectionIndex`
      given `itemId` and every other one kept as it is. */
  function AssignInSections(ss: seq<Section>, sectionIndex: int, itemId: string, from: int): (r: seq<Section>)
    ensures |r| == |ss|
    ensures forall j :: 0 <= j < |ss| ==>
              r[j] == if from + j == sectionIndex then ss[j].(selectedItemId := Some(itemId)) else ss[j]
  {
    if ss == [] then []
    else
      [if from == sectionIndex then ss[0].(selectedItemId := Some(itemId)) else ss[0]]
      + AssignInSections(ss[1..], sectionIndex, itemId, from + 1)
  }

  /** `assignItemToOrderSection`: in every order whose id is `orderId`, section
      `sectionIndex` gets `itemId`; nothing else changes. There is no category
      or status check, and an index out of range matches no section. */
  function AssignItem(orders: seq<Order>, orderId: string, sectionIndex: int, itemId: string): (r: seq<Order>)
    ensures |r| == |orders|
    ensures forall k :: 0 <= k < |orders| ==>
              r[k].id == orders[k].id && r[k].status == orders[k].status
              && r[k].createdAt == orders[k].createdAt && |r[k].sections| == |orders[k].sections|
    ensures forall k, j :: 0 <= k < |orders| && 0 <= j < |orders[k].sections| ==>
              r[k].sections[j] ==
                if orders[k].id == orderId && j == sectionIndex
                then Section(orders[k].sections[j].requestedCategory, Some(itemId))
                else orders[k].sections[j]
  {
    if orders == [] then []
    else
      [if orders[0].id == orderId
       then orders[0].(sections := AssignInSections(orders[0].sections, sectionIndex, itemId, 0))
       else orders[0]]
      + AssignItem(orders[1..], orderId, sectionIndex, itemId)
  }

  /** An absent order or a section index that no matching order has leaves
      the collection as it was. */
  lemma AssignNoOp(orders: seq<Order>, orderId: string, sectionIndex: int, itemId: string)
    requires forall k :: 0 <= k < |orders| && orders[k].id == orderId ==>
               !(0 <= sectionIndex < |orders[k].sections|)
    ensures AssignItem(orders, orderId, sectionIndex, itemId) == orders
  {
    var r := AssignItem(orders, orderId, sectionIndex, itemId);
    forall k | 0 <= k < |orders| ensures r[k] == orders[k] {
      assert r[k].sections == orders[k].sections;
    }
  }

  /** A later assignment to the same section overwrites an earlier one. */
  lemma AssignOverwrites(orders: seq<Order>, orderId: string, sectionIndex: int, first: string, second: string)
    ensures AssignItem(AssignItem(orders, orderId, sectionIndex, first), orderId, sectionIndex, second)
            == AssignItem(orders, orderId, sectionIndex, second)
  {
    var once := AssignItem(orders, orderId, sectionIndex, first);
    var twice := AssignItem(once, orderId, sectionIndex, second);
    var direct := AssignItem(orders, orderId, sectionIndex, second);
    forall k | 0 <= k < |orders| ensures twice[k] == direct[k] {
      forall j | 0 <= j < |orders[k].sections| ensures twice[k].sections[j] == direct[k].sections[j] {
        assert once[k].sections[j].requestedCategory == orders[k].sections[j].requestedCategory;
      }
      assert twice[k].sections == direct[k].sections;
    }
  }

  /** `completeOrder`: every order with id `orderId` whose sections are all
      assigned becomes completed; every other order, and every field but the
      status, stays as it was. */
  function MarkComplete(orders: seq<Order>, orderId: string): (r: seq<Order>)
    ensures |r| == |orders|
    ensures forall k :: 0 <= k < |orders| ==>
              r[k].id == orders[k].id && r[k].createdAt == orders[k].createdAt
              && r[k].sections == orders[k].sections
    ensures forall k :: 0 <= k < |orders| ==>
              r[k].status == if orders[k].id == orderId && AllSectionsAssigned(orders[k])
                             then Completed else orders[k].status
  {
    if orders == [] then []
    else
      [if orders[0].id == orderId && AllSectionsAssigned(orders[0])
       then orders[0].(status := Completed) else orders[0]]
      + MarkComplete(orders[1..], orderId)
  }

  /** Completing twice is completing once. */
  lemma MarkCompleteIdempotent(orders: seq<Order>, orderId: string)
    ensures MarkComplete(MarkComplete(orders, orderId), orderId) == MarkComplete(orders, orderId)
  {
    var once := MarkComplete(orders, orderId);
    var twice := MarkComplete(once, orderId);
    forall k | 0 <= k < |orders| ensures twice[k] == once[k] {
      assert AllSectionsAssigned(once[k]) == AllSectionsAssigned(orders[k]);
    }
  }

  /** For a pending order, completion happens exactly when every section is
      assigned. */
  lemma CompletesIffAllAssigned(orders: seq<Order>, k: int)
    requires 0 <= k < |orders| && orders[k].status == Pending
    ensures MarkComplete(orders, orders[k].id)[k].status == Completed <==> AllSectionsAssigned(orders[k])
  {
  }

  /** No order transformation takes a completed order back to pending. */
  predicate KeepsCompleted(before: seq<Order>, after: seq<Order>)
  {
    |before| == |after|
    && forall k :: 0 <= k < |before| && before[k].status == Completed ==> after[k].status == Completed
  }

  lemma StatusNeverReverts(orders: seq<Order>, id: string, sectionIndex: int, itemId: string)
    ensures KeepsCompleted(orders, MarkComplete(orders, id))
    ensures KeepsCompleted(orders, AssignItem(orders, id, sectionIndex, itemId))
    ensures KeepsCompleted(orders, ClearItemReferences(orders, itemId))
  {
  }

  /** The walk-through of a Surprise section: with the Fashion and Food
      sections filled and the Surprise one empty, completion is refused; once
      a Lifestyle item fills the Surprise section, completion goes through. */
  lemma SurpriseSectionScenario()
    ensures var o0 := [NewOrder("o", 0, [Fashion, Food, Surprise])];
            var o1 := AssignItem(AssignItem(o0, "o", 0, "tote"), "o", 1, "spice");
            var o2 := MarkComplete(o1, "o");
            var o3 := MarkComplete(AssignItem(o2, "o", 2, "butter"), "o");
            o2[0].status == Pending && o3[0].status == Completed
  {
    var o0 := [NewOrder("o", 0, [Fashion, Food, Surprise])];
    var o1 := AssignItem(AssignItem(o0, "o", 0, "tote"), "o", 1, "spice");
    assert o1[0].sections[2].selectedItemId == None;
    var o2 := MarkComplete(o1, "o");
    var o3 := AssignItem(o2, "o", 2, "butter");
    assert AllSectionsAssigned(o3[0]);
  }
}
