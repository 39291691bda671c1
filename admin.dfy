/** The logic of the admin page (app/admin/page.tsx): the guard in front of
    every drop, the guard and summary of the "Submit Finished Box" button, the
    order in which orders are listed, and the grouping of items by category.
    The page's calls into the store are returned as values: `None` means the
    handler returns without calling the store. */
module Admin {
  import opened Domain
  import opened Text

  // ----- dropping an item onto a section -----

  /** A section asking for `requested` takes an item whose category name is
      `itemCategory`: Surprise takes anything, every other category only
      itself. */
  predicate Accepts(requested: Category, itemCategory: string)
  {
    requested == Surprise || itemCategory == CategoryName(requested)
  }

  /** For an item dragged from the list, whose payload carries its own
      category name, acceptance is category equality with Surprise as a
      wildcard. */
  lemma AcceptsDraggedItem(requested: Category, it: Item)
    ensures Accepts(requested, CategoryName(it.category)) <==> requested == Surprise || it.category == requested
  {
    CategoryNameInjective(it.category, requested);
  }

  datatype Assignment = Assignment(orderId: string, sectionIndex: int, itemId: string)

  /** `onDropItem`: the assignment the drop asks the store for, if any. A
      completed order, an empty item id and a category the section does not
      accept all stop the drop; otherwise exactly this order, section and
      item are assigned. */
  function DropAction(order: Order, sectionIndex: int, requested: Category, itemId: string, itemCategory: string)
    : (r: Option<Assignment>)
    ensures r.Some? <==> order.status != Completed && itemId != "" && Accepts(requested, itemCategory)
    ensures r.Some? ==> r.value == Assignment(order.id, sectionIndex, itemId)
  {
    if order.status == Completed then None
    else if itemId == "" then None
    else if !Accepts(requested, itemCategory) then None
    else Some(Assignment(order.id, sectionIndex, itemId))
  }

  /** The store after a drop: unchanged when the guard stops it, otherwise the
      requested assignment applied. */
  function AfterDrop(orders: seq<Order>, action: Option<Assignment>): seq<Order>
  {
    match action
    case None => orders
    case Some(a) => AssignItem(orders, a.orderId, a.sectionIndex, a.itemId)
  }

  // ----- completing an order -----

  /** A JavaScript-truthy item id: present and not the empty string. */
  predicate Truthy(id: Option<string>)
  {
    id.Some? && id.value != ""
  }

  /** The page's completion guard: every section's item id is truthy. */
  predicate AllAssignedTruthy(order: Order)
  {
    forall j :: 0 <= j < |order.sections| ==> Truthy(order.sections[j].selectedItemId)
  }

  /** The first item with the section's id, and nothing for a section with no
      id or an id that no item has. */
  function FindItem(items: seq<Item>, selected: Option<string>): (r: Option<Item>)
    ensures r.Some? ==> Some(r.value.id) == selected
    ensures r.Some? ==> exists k :: 0 <= k < |items| && items[k] == r.value
                                   && forall m :: 0 <= m < k ==> Some(items[m].id) != selected
    ensures r.None? <==> forall k :: 0 <= k < |items| ==> Some(items[k].id) != selected
  {
    if items == [] then None
    else if Some(items[0].id) == selected then Some(items[0])
    else
      var r := FindItem(items[1..], selected);
      FindItemStep(items, selected, r);
      r
  }

  /** What a search of the tail says about the whole, when the head does not
      match. */
  lemma FindItemStep(items: seq<Item>, selected: Option<string>, r: Option<Item>)
    requires items != [] && Some(items[0].id) != selected
    requires r.Some? ==> exists k :: 0 <= k < |items[1..]| && items[1..][k] == r.value
                                   && forall m :: 0 <= m < k ==> Some(items[1..][m].id) != selected
    requires r.None? <==> forall k :: 0 <= k < |items[1..]| ==> Some(items[1..][k].id) != selected
    ensures r.Some? ==> exists k :: 0 <= k < |items| && items[k] == r.value
                                   && forall m :: 0 <= m < k ==> Some(items[m].id) != selected
    ensures r.None? <==> forall k :: 0 <= k < |items| ==> Some(items[k].id) != selected
  {
    if r.Some? {
      var k' :| 0 <= k' < |items[1..]| && items[1..][k'] == r.value
                && forall m :: 0 <= m < k' ==> Some(items[1..][m].id) != selected;
      assert items[k' + 1] == r.value;
      forall m | 0 <= m < k' + 1 ensures Some(items[m].id) != selected {
        if m > 0 { assert items[m] == items[1..][m - 1]; }
      }
    } else {
      forall k | 0 <= k < |items| ensures Some(items[k].id) != selected {
        if k > 0 { assert items[k] == items[1..][k - 1]; }
      }
    }
  }

  /** The text an assigned section shows in the summary. */
  function AssignedText(items: seq<Item>, section: Section): string
  {
    match FindItem(items, section.selectedItemId)
    case Some(it) => it.name + " - " + it.business
    case None => "Unassigned"
  }

  /** The numbered head of a summary line, `Section n (category): `. */
  function LineHead(index: nat, section: Section): string
  {
    "Section " + NatToString(index + 1) + " (" + CategoryName(section.requestedCategory) + "): "
  }

  /** The summary lines of `sections`, the first numbered `from`. */
  function SummaryLines(items: seq<Item>, sections: seq<Section>, from: nat): (r: seq<string>)
    ensures |r| == |sections|
    ensures forall j :: 0 <= j < |sections| ==>
              r[j] == LineHead(from + j, sections[j]) + AssignedText(items, sections[j])
  {
    if sections == [] then []
    else [LineHead(from, sections[0]) + AssignedText(items, sections[0])]
         + SummaryLines(items, sections[1..], from + 1)
  }

  /** What a summary line shows after its head: the found item's name and
      business, or "Unassigned" when no item has the section's id. */
  lemma SummaryShowsAssignedItem(items: seq<Item>, sections: seq<Section>, j: int)
    requires 0 <= j < |sections|
    ensures var line := SummaryLines(items, sections, 0)[j];
            var head := LineHead(j, sections[j]);
            |head| <= |line| && line[..|head|] == head
            && (if exists k :: 0 <= k < |items| && Some(items[k].id) == sections[j].selectedItemId
                then line[|head|..] == FindItem(items, sections[j].selectedItemId).value.name + " - "
                                       + FindItem(items, sections[j].selectedItemId).value.business
                else line[|head|..] == "Unassigned")
  {
    var line := SummaryLines(items, sections, 0)[j];
    var head := LineHead(j, sections[j]);
    assert line == head + AssignedText(items, sections[j]);
    assert line[|head|..] == AssignedText(items, sections[j]);
  }

  /** Two different numbers give line heads that differ before either ends:
      the digits differ, or one of them stops where the other goes on. */
  lemma LineHeadsDiffer(i: nat, j: nat, a: Section, b: Section, x: string, y: string)
    requires i != j
    ensures LineHead(i, a) + x != LineHead(j, b) + y
  {
    NatToStringInjective(i + 1, j + 1);
    var p := "Section ";
    var di, dj := NatToString(i + 1), NatToString(j + 1);
    var u := " (" + CategoryName(a.requestedCategory) + "): " + x;
    var v := " (" + CategoryName(b.requestedCategory) + "): " + y;
    assert LineHead(i, a) + x == p + di + u;
    assert LineHead(j, b) + y == p + dj + v;
    NumeralsDiffer(p, di, dj, u, v);
  }

  /** Text that runs a number into a non-digit tells different numbers apart. */
  lemma NumeralsDiffer(p: string, di: string, dj: string, u: string, v: string)
    requires di != dj && AllDigits(di) && AllDigits(dj)
    requires u != [] && !('0' <= u[0] <= '9') && v != [] && !('0' <= v[0] <= '9')
    ensures p + di + u != p + dj + v
  {
    var s, t := p + di + u, p + dj + v;
    var n := |p|;
    if |di| == |dj| {
      var k :| 0 <= k < |di| && di[k] != dj[k];
      assert s[n + k] == di[k] && t[n + k] == dj[k];
    } else if |di| < |dj| {
      assert s[n + |di|] == u[0] && t[n + |di|] == dj[|di|];
    } else {
      assert t[n + |dj|] == v[0] && s[n + |dj|] == di[|dj|];
    }
  }

  /** The summary lines are pairwise different, so they can serve as the
      list's keys. */
  lemma SummaryLinesDistinct(items: seq<Item>, sections: seq<Section>)
    ensures var lines := SummaryLines(items, sections, 0);
            forall i, j :: 0 <= i < j < |lines| ==> lines[i] != lines[j]
  {
    var lines := SummaryLines(items, sections, 0);
    forall i, j | 0 <= i < j < |lines| ensures lines[i] != lines[j] {
      LineHeadsDiffer(i, j, sections[i], sections[j],
                      AssignedText(items, sections[i]), AssignedText(items, sections[j]));
    }
  }

  datatype Popup = Popup(orderId: string, lines: seq<string>)

  /** What `handleComplete` does once its guard passes: the id it asks the
      store to complete, and the popup it opens. */
  datatype Completion = Completion(completeOrderId: string, popup: Popup)

  /** `handleComplete`: `None` when the guard returns early; otherwise the
      store is asked to complete `order.id` and the popup, for that same
      order, shows one summary line per section, in section order. */
  function HandleComplete(items: seq<Item>, order: Order): (r: Option<Completion>)
    ensures r.Some? <==> AllAssignedTruthy(order)
    ensures r.Some? ==> r.value.completeOrderId == order.id && r.value.popup.orderId == order.id
    ensures r.Some? ==> |r.value.popup.lines| == |order.sections|
                        && r.value.popup.lines == SummaryLines(items, order.sections, 0)
  {
    if !AllAssignedTruthy(order) then None
    else Some(Completion(order.id, Popup(order.id, SummaryLines(items, order.sections, 0))))
  }

  /** The store after the button's handler: unchanged when the guard stops
      it, otherwise the requested order completed. */
  function AfterComplete(orders: seq<Order>, action: Option<Completion>): seq<Order>
  {
    match action
    case None => orders
    case Some(c) => MarkComplete(orders, c.completeOrderId)
  }

  /** When the page's guard lets completion through, the store call it makes
      does complete that order, because truthy ids are never null; when the
      guard stops it, the store is untouched. */
  lemma GuardedCompletionSucceeds(items: seq<Item>, orders: seq<Order>, k: int)
    requires 0 <= k < |orders|
    ensures var c := HandleComplete(items, orders[k]);
            (c.Some? ==> AfterComplete(orders, c)[k].status == Completed)
            && (c.None? ==> AfterComplete(orders, c) == orders)
  {
    if HandleComplete(items, orders[k]).Some? {
      assert AllSectionsAssigned(orders[k]);
    }
  }

  /** The two guards disagree on the empty id: the store counts a section
      holding "" as assigned, the page does not. */
  lemma EmptyIdGuardsDisagree()
    ensures var o := Order("o", Pending, 0, [Section(Genre, Some(""))]);
            AllSectionsAssigned(o) && !AllAssignedTruthy(o)
            && MarkComplete([o], "o")[0].status == Completed && HandleComplete([], o).None?
  {
    var o := Order("o", Pending, 0, [Section(Genre, Some(""))]);
    assert !Truthy(o.sections[0].selectedItemId);
  }

  /** The "Submit Finished Box" button is enabled. */
  predicate SubmitEnabled(order: Order)
  {
    AllAssignedTruthy(order) && order.status != Completed
  }

  /** An enabled button belongs to a pending order that its click completes;
      a disabled one belongs to a completed order or to one with a falsy id. */
  lemma SubmitEnabledMeans(items: seq<Item>, orders: seq<Order>, k: int)
    requires 0 <= k < |orders|
    ensures SubmitEnabled(orders[k]) ==>
              orders[k].status == Pending
              && AfterComplete(orders, HandleComplete(items, orders[k]))[k].status == Completed
    ensures !SubmitEnabled(orders[k]) <==>
              orders[k].status == Completed || exists j :: 0 <= j < |orders[k].sections|
                                                      && !Truthy(orders[k].sections[j].selectedItemId)
  {
    if SubmitEnabled(orders[k]) {
      GuardedCompletionSucceeds(items, orders, k);
    }
  }

  // ----- the order list -----

  /** The comparator of `sortedOrders`: pending before completed, then newer
      before older. Negative puts `a` first. */
  function Compare(a: Order, b: Order): int
  {
    if a.status == b.status then b.createdAt - a.createdAt
    else if a.status == Pending then -1 else 1
  }

  /** The comparator lets `a` stand before `b`. */
  predicate Precedes(a: Order, b: Order)
  {
    Compare(a, b) <= 0
  }

  predicate SortedForAdmin(s: seq<Order>)
  {
    forall i, j :: 0 <= i < j < |s| ==> Precedes(s[i], s[j])
  }

  /** Inserts `x` before the first element it may precede. */
  function InsertOrder(x: Order, s: seq<Order>): (r: seq<Order>)
    requires SortedForAdmin(s)
    ensures SortedForAdmin(r)
    ensures multiset(r) == multiset(s) + multiset{x}
  {
    if s == [] then [x]
    else if Precedes(x, s[0]) then
      InsertFront(x, s);
      [x] + s
    else
      var rest := InsertOrder(x, s[1..]);
      InsertBehind(x, s, rest);
      [s[0]] + rest
  }

  /** An element that may precede the head of a sorted list may precede all
      of it. */
  lemma InsertFront(x: Order, s: seq<Order>)
    requires SortedForAdmin(s) && s != [] && Precedes(x, s[0])
    ensures SortedForAdmin([x] + s)
  {
    var r := [x] + s;
    forall i, j | 0 <= i < j < |r| ensures Precedes(r[i], r[j]) {
      assert r[j] == s[j - 1];
      if i > 0 {
        assert r[i] == s[i - 1];
      }
    }
  }

  /** Keeping the head in front of a sorted insertion into the tail. */
  lemma InsertBehind(x: Order, s: seq<Order>, rest: seq<Order>)
    requires SortedForAdmin(s) && s != [] && !Precedes(x, s[0])
    requires SortedForAdmin(rest) && multiset(rest) == multiset(s[1..]) + multiset{x}
    ensures SortedForAdmin([s[0]] + rest)
    ensures multiset([s[0]] + rest) == multiset(s) + multiset{x}
  {
    assert s == [s[0]] + s[1..];
    var r := [s[0]] + rest;
    forall i, j | 0 <= i < j < |r| ensures Precedes(r[i], r[j]) {
      var e := rest[j - 1];
      assert r[j] == e;
      if i > 0 {
        assert r[i] == rest[i - 1];
      } else {
        assert e in multiset(rest);
        if e != x {
          assert e in multiset(s[1..]);
          var m :| 0 <= m < |s[1..]| && s[1..][m] == e;
          assert s[m + 1] == e;
        }
      }
    }
  }

  /** A sorted copy of the orders: the same orders, every pending one before
      every completed one, and within a status the newest first. */
  function SortOrders(orders: seq<Order>): (r: seq<Order>)
    ensures multiset(r) == multiset(orders)
    ensures SortedForAdmin(r)
    ensures forall i, j :: 0 <= i < j < |r| && r[i].status == Completed ==> r[j].status == Completed
    ensures forall i, j :: 0 <= i < j < |r| && r[i].status == r[j].status ==> r[i].createdAt >= r[j].createdAt
  {
    if orders == [] then []
    else
      assert orders == [orders[0]] + orders[1..];
      InsertOrder(orders[0], SortOrders(orders[1..]))
  }

  // ----- items grouped by category -----

  /** The items of category `c`, in listing order. */
  function ItemsInCategory(items: seq<Item>, c: Category): (r: seq<Item>)
    ensures |r| <= |items|
    ensures forall k :: 0 <= k < |r| ==> r[k].category == c
  {
    if items == [] then []
    else
      (if items[0].category == c then [items[0]] else []) + ItemsInCategory(items[1..], c)
  }

  /** An item of category `c` appears in its group exactly as often as in the list. */
  lemma {:induction false} ItemsInCategoryCount(items: seq<Item>, c: Category, it: Item)
    requires it.category == c
    ensures multiset(ItemsInCategory(items, c))[it] == multiset(items)[it]
  {
    if items != [] {
      ItemsInCategoryCount(items[1..], c, it);
      assert items == [items[0]] + items[1..];
      var head := if items[0].category == c then [items[0]] else [];
      assert ItemsInCategory(items, c) == head + ItemsInCategory(items[1..], c);
    }
  }

  /** A group holds exactly the listed items of its category. */
  lemma ItemsInCategoryMembers(items: seq<Item>, c: Category, it: Item)
    ensures it in ItemsInCategory(items, c) <==> it in items && it.category == c
  {
    if it.category == c {
      ItemsInCategoryCount(items, c, it);
    }
  }

  /** Filtering works piece by piece, so every group keeps the items' order. */
  lemma {:induction false} ItemsInCategoryConcat(a: seq<Item>, b: seq<Item>, c: Category)
    ensures ItemsInCategory(a + b, c) == ItemsInCategory(a, c) + ItemsInCategory(b, c)
  {
    if a != [] {
      assert (a + b)[0] == a[0] && (a + b)[1..] == a[1..] + b;
      ItemsInCategoryConcat(a[1..], b, c);
      var head := if a[0].category == c then [a[0]] else [];
      var p, q := ItemsInCategory(a[1..], c), ItemsInCategory(b, c);
      assert ItemsInCategory(a + b, c) == head + (p + q);
      assert ItemsInCategory(a, c) == head + p;
      assert head + (p + q) == (head + p) + q;
    } else {
      assert a + b == b;
    }
  }

  /** The `reduce` over `cats`: one entry per category, holding its items. */
  function GroupByCategory(items: seq<Item>, cats: seq<Category>): (m: map<Category, seq<Item>>)
    ensures forall c :: c in m <==> c in cats
    ensures forall c :: c in cats ==> m[c] == ItemsInCategory(items, c)
  {
    if cats == [] then map[]
    else
      var last := cats[|cats| - 1];
      assert forall c :: c in cats <==> c in cats[..|cats| - 1] || c == last by {
        assert cats == cats[..|cats| - 1] + [last];
      }
      GroupByCategory(items, cats[..|cats| - 1])[last := ItemsInCategory(items, last)]
  }

  /** `itemsByCategory`: every category is a key, and each holds exactly the
      items of that category. */
  function ItemsByCategory(items: seq<Item>): (m: map<Category, seq<Item>>)
    ensures forall c: Category :: c in m && m[c] == ItemsInCategory(items, c)
  {
    EveryCategoryIsAnOption();
    GroupByCategory(items, CategoryOptions)
  }

  /** Every item is shown in its own category's group, as often as it is
      listed, and in no other group. */
  lemma EachItemInItsGroup(items: seq<Item>, it: Item)
    ensures var m := ItemsByCategory(items);
            multiset(m[it.category])[it] == multiset(items)[it]
            && forall c :: c != it.category ==> it !in m[c]
  {
    ItemsInCategoryCount(items, it.category, it);
  }
}
