# Discovery box store, modelled and verified in Dafny

The discovery-box demo has three pages that share one in-memory store.
- **Creators** list items. Each item has a name, a business, a category and a description.
- **Shoppers** order a five-section box. Each section asks for a category. A shopper must go through a simulated subscription before an order can be placed.
- **Admins** fill each section of an order by dragging an item onto it, then complete the order.

This project models that store and the logic of the three pages, and proves properties about them.

Modules:
- `Text` (`text.dfy`) covers the JavaScript built-ins the pages depend on:
  - `String.prototype.trim`, with ECMAScript's whitespace and line-terminator characters;
  - the decimal rendering of a number inside a template literal;
  - the default string order that `Array.prototype.sort` uses when given no comparator.
- `Domain` (`domain.dfy`) holds the parts of `app/discovery-context.tsx` that do not depend on state:
  - the record types and the category lists;
  - the starter catalogue and the fallbacks used when loading from storage;
  - one pure function for each update that the store's operations apply (adding and removing items, clearing a removed item's references, deleting, assigning, completing) and `NewOrder` for a submitted order.
- `Store` (`store.dfy`) is the provider's state. It is a class with an `items` and an `orders` sequence. Each operation is a method that replaces those sequences. `SubmitOrder` puts `NewOrder` in front of the orders, the two resets assign empty sequences, and every other method applies the matching `Domain` function.
- `Admin` (`admin.dfy`) covers the admin page:
  - the drop guard and the completion guard;
  - the summary lines shown in the completion popup;
  - the order sort, the grouping of items by category, and when the submit button is enabled.
- `Shopper` (`shopper.dfy`) models the shopper page as a class whose event handlers update its fields. This covers the subscription gate and the slot editor.
- `Creator` (`creator.dfy`) covers the creator page:
  - form validation and reset, with the form as a class;
  - the sorted list of distinct business names.
- `Integrity` (`integrity.dfy`) states invariants that span both collections and shows which operations keep them:
  - every assigned section holds a listed item whose category the section accepts;
  - order ids are unique, and item ids are unique;
  - every completed order is fully assigned.

The store does not check the category rule. The rule holds only because the admin page's drop guard runs first. `Integrity.StoreAssignSkipsCategoryCheck` shows the store alone breaking it, and `Integrity.DropKeepsWellAssigned` shows the guarded drop keeping it.

Ids and timestamps come from `crypto.randomUUID` and `Date`. Here they are parameters: a fresh id string, and an integer number of milliseconds.

Points where the code behaves differently from what one might expect:
- Items saved as an empty array come back as the starter catalogue on the next load (`Domain.ItemsReloadRoundTrip`).
- The page and the store disagree about an empty-string item id. The page treats it as unassigned; the store treats it as assigned (`Admin.EmptyIdGuardsDisagree`).
- `removeItem` can empty a section of an order that is already completed (`Integrity.RemoveItemCanEmptyCompletedOrder`).

## Model

| member | source | states |
|---|---|---|
| Domain.CategoryNameInjective | app/discovery-context.tsx:12-19 | two categories have the same string name only if they are the same category |
| Domain.EveryCategoryIsAnOption | app/discovery-context.tsx:239-247 | every category appears in `CATEGORY_OPTIONS` |
| Domain.WithoutCategory | app/discovery-context.tsx:249-251 | the filter result is no longer than its input and never contains the removed category |
| Domain.WithoutCategoryMembers | app/discovery-context.tsx:249-251 | the filter keeps exactly the other categories; with nothing to remove it returns its input unchanged |
| Domain.WithoutCategoryConcat | app/discovery-context.tsx:249-251 | filtering a concatenation is the same as concatenating the filtered parts, so the order is kept |
| Domain.CreatorCategoryOptions | app/discovery-context.tsx:249-251 | a category is a creator option exactly when it is not Surprise |
| Domain.CreatorOptionsInOrder | app/discovery-context.tsx:239-251 | the creator options are `CATEGORY_OPTIONS` in the same order with its last entry, Surprise, removed; the list is Genre, Accessories, Fashion, Food, Lifestyle, Art/Entertainment |
| Domain.LoadItems | app/discovery-context.tsx:90-100 | a stored non-empty array is used as is; every other case gives the starter items (no window, missing or empty value, a read or parse error, not an array, an empty array); the result is never empty |
| Domain.ItemsReloadRoundTrip | app/discovery-context.tsx:90-100 | reloading saved items gives them back exactly when they are not empty |
| Domain.LoadOrders | app/discovery-context.tsx:102-112 | a stored array is used as is; every other case gives no orders |
| Domain.AppendItem | app/discovery-context.tsx:134-142 | exactly one item is added, at the end, with the fresh id and the draft's fields; the earlier items are unchanged and in the same order |
| Domain.WithoutItem | app/discovery-context.tsx:144 | no item with the id remains; an item stays exactly when its id differs; an absent id changes nothing |
| Domain.WithoutItemConcat | app/discovery-context.tsx:144 | removal works piece by piece, so the remaining items keep their relative order |
| Domain.WithoutItemUndoesAppend | app/discovery-context.tsx:134-144 | removing an item that was just added under a fresh id restores the catalogue |
| Domain.FreshSections | app/discovery-context.tsx:165-168 | there is one section per category, in the same order, and none is assigned |
| Domain.NewOrder | app/discovery-context.tsx:157-169 | the new order has the fresh id, status pending and the given timestamp; section j asks for `cats[j]` and is unassigned |
| Domain.ClearInSections | app/discovery-context.tsx:148-152 | a section holding the item is emptied; every other section is kept |
| Domain.ClearItemReferences | app/discovery-context.tsx:145-154 | order count, ids, statuses, timestamps and section counts are unchanged; a section holding the item becomes unassigned; every other section is untouched |
| Domain.NoReferenceAfterClear | app/discovery-context.tsx:145-154 | after `removeItem` no section refers to the removed item |
| Domain.ClearItemReferencesIdempotent | app/discovery-context.tsx:145-154 | clearing references to an item twice gives the same result as clearing them once |
| Domain.WithoutOrder | app/discovery-context.tsx:174-176 | exactly the orders with that id are removed; an absent id changes nothing |
| Domain.WithoutOrderConcat | app/discovery-context.tsx:175 | deletion works piece by piece, so the remaining orders keep their relative order |
| Domain.DeleteUndoesSubmit | app/discovery-context.tsx:156-176 | deleting an order that was just submitted under a fresh id restores the order list |
| Domain.AssignInSections | app/discovery-context.tsx:191-195 | only the section at the given index gets the item id; every other section is kept |
| Domain.AssignItem | app/discovery-context.tsx:185-199 | in every order with the target id, only section `sectionIndex` is set to the item, keeping its requested category; ids, statuses, timestamps and section counts never change; there is no category or status check |
| Domain.AssignNoOp | app/discovery-context.tsx:185-199 | an absent order id, or an index outside every matching order's sections, leaves the orders unchanged |
| Domain.AssignOverwrites | app/discovery-context.tsx:185-199 | a second assignment to the same section replaces the first |
| Domain.MarkComplete | app/discovery-context.tsx:200-210 | an order with the id becomes completed if every section holds a non-null id, and otherwise stays as it was; other orders and all other fields are untouched |
| Domain.MarkCompleteIdempotent | app/discovery-context.tsx:200-210 | completing an order twice gives the same result as completing it once |
| Domain.CompletesIffAllAssigned | app/discovery-context.tsx:204-207 | a pending order becomes completed exactly when all of its sections are assigned |
| Domain.StatusNeverReverts | app/discovery-context.tsx:143-210 | completing, assigning and removing items never turn a completed order back into a pending one |
| Domain.SurpriseSectionScenario | app/discovery-context.tsx:185-210 | for a Fashion/Food/Surprise order with only the first two sections filled, completion is refused; it succeeds once the Surprise section is filled |
| Store.DiscoveryStore.constructor | app/discovery-context.tsx:90-112 | the store starts from what the two storage slots held, using the load fallbacks |
| Store.DiscoveryStore.AddItem | app/discovery-context.tsx:134-142 | items become `AppendItem` of the old items; orders are unchanged |
| Store.DiscoveryStore.RemoveItem | app/discovery-context.tsx:143-155 | items become `WithoutItem` and orders become `ClearItemReferences` of the old state |
| Store.DiscoveryStore.SubmitOrder | app/discovery-context.tsx:156-173 | the new order goes in front of the old orders unchanged; the method returns its id; items are unchanged |
| Store.DiscoveryStore.DeleteOrder | app/discovery-context.tsx:174-176 | orders become `WithoutOrder` of the old orders; items are unchanged |
| Store.DiscoveryStore.ResetOrders | app/discovery-context.tsx:177-184 | orders are emptied and items are unchanged |
| Store.DiscoveryStore.AssignItemToOrderSection | app/discovery-context.tsx:185-199 | orders become `AssignItem` of the old orders; items are unchanged |
| Store.DiscoveryStore.CompleteOrder | app/discovery-context.tsx:200-210 | orders become `MarkComplete` of the old orders; items are unchanged |
| Store.DiscoveryStore.ResetDemoData | app/discovery-context.tsx:211-220 | items and orders are both emptied |
| Admin.AcceptsDraggedItem | app/admin/page.tsx:60-61 | for a listed item, whose drag payload carries its own category, a section accepts it exactly when the section is Surprise or the categories are equal |
| Admin.DropAction | app/admin/page.tsx:46-65 | a store assignment is requested exactly when the order is not completed, the item id is not empty and the section accepts the category; the request is for exactly that order, section and item |
| Admin.FindItem | app/admin/page.tsx:74 | the result is the first item with the section's id; there is no result exactly when no item has that id |
| Admin.SummaryLines | app/admin/page.tsx:73-78 | there is one line per section, in section order; line j is `Section j+1 (category): ` followed by the text for that section's item |
| Admin.SummaryShowsAssignedItem | app/admin/page.tsx:73-78 | after its heading, a line shows the found item's name and business, or "Unassigned" when no item has that id |
| Admin.LineHeadsDiffer | app/admin/page.tsx:75 | lines for different section numbers are different strings, whatever follows their headings |
| Admin.NumeralsDiffer | app/admin/page.tsx:75 | different numerals followed by a non-digit give different strings |
| Admin.SummaryLinesDistinct | app/admin/page.tsx:300-302 | no two summary lines are equal, so they are safe to use as list keys |
| Admin.HandleComplete | app/admin/page.tsx:67-81 | nothing happens unless every section's id is truthy; otherwise the handler asks the store to complete this order's id and opens the popup for that order with its summary lines |
| Admin.GuardedCompletionSucceeds | app/admin/page.tsx:67-71 | once the page's guard passes, the store call the handler makes marks the order completed; when the guard stops it, the store is unchanged |
| Admin.EmptyIdGuardsDisagree | app/admin/page.tsx:68-69 | a section holding "" counts as assigned in the store but not on the page |
| Admin.SubmitEnabledMeans | app/admin/page.tsx:269 | the button (using `allAssigned` from lines 177-179) is enabled exactly when the order is not completed and every id is truthy; clicking an enabled button completes a pending order |
| Admin.InsertOrder | app/admin/page.tsx:38-43 | inserting into a sorted list keeps it sorted under the comparator and adds exactly the new order |
| Admin.SortOrders | app/admin/page.tsx:37-44 | the result is a permutation of the orders, with every pending order before every completed one; within a status, `createdAt` never increases |
| Admin.ItemsInCategory | app/admin/page.tsx:32 | every item in a group has that group's category |
| Admin.ItemsInCategoryCount | app/admin/page.tsx:32 | an item of the category appears in the group exactly as many times as in the list |
| Admin.ItemsInCategoryMembers | app/admin/page.tsx:32 | the group holds exactly the listed items that have its category |
| Admin.ItemsInCategoryConcat | app/admin/page.tsx:32 | filtering works piece by piece, so groups keep the items' order |
| Admin.GroupByCategory | app/admin/page.tsx:31-34 | the `reduce` has a key for each category it goes through, holding that category's filtered items |
| Admin.ItemsByCategory | app/admin/page.tsx:30-35 | every category is a key, and its entry holds exactly that category's items, in listing order |
| Admin.EachItemInItsGroup | app/admin/page.tsx:30-35 | each item appears in its own category's group as many times as it is listed, and in no other group |
| Integrity.AddItemKeepsWellAssigned | app/discovery-context.tsx:134-142 | adding an item keeps every assigned section backed by a listed item that the section accepts |
| Integrity.RemoveItemKeepsWellAssigned | app/discovery-context.tsx:143-155 | removing an item clears its references, so the invariant still holds |
| Integrity.SubmitKeepsWellAssigned | app/discovery-context.tsx:156-173 | a new order's sections are empty, so the invariant still holds |
| Integrity.DeleteOrderKeepsWellAssigned | app/discovery-context.tsx:174-176 | deleting orders keeps the invariant |
| Integrity.CompleteKeepsWellAssigned | app/discovery-context.tsx:200-210 | completion changes only statuses, so the invariant still holds |
| Integrity.DropKeepsWellAssigned | app/admin/page.tsx:46-65 | dropping a listed item onto a section of an order whose id no other order has keeps every section backed by an item it accepts |
| Integrity.StoreAssignSkipsCategoryCheck | app/discovery-context.tsx:185-199 | counterexample: called directly, the store puts a Food item in a Fashion section and breaks the invariant |
| Integrity.DropLeavesCompletedOrders | app/admin/page.tsx:54 | a drop onto an order whose id no other order has leaves every completed order exactly as it was |
| Integrity.SubmitKeepsUniqueIds | app/discovery-context.tsx:156-173 | submitting under a fresh id keeps order ids unique |
| Integrity.DeleteKeepsUniqueIds | app/discovery-context.tsx:174-176 | deleting keeps order ids unique |
| Integrity.UpdatesKeepUniqueIds | app/discovery-context.tsx:143-210 | assigning, completing and removing items keep order ids unique |
| Integrity.CompleteKeepsFilled | app/discovery-context.tsx:200-210 | completion keeps every completed order fully assigned |
| Integrity.AssignKeepsFilled | app/discovery-context.tsx:185-199 | assignment keeps every completed order fully assigned |
| Integrity.SubmitKeepsFilled | app/discovery-context.tsx:156-173 | submission keeps every completed order fully assigned |
| Integrity.DeleteKeepsFilled | app/discovery-context.tsx:174-176 | deleting orders keeps every completed order fully assigned |
| Integrity.AddItemKeepsUniqueIds | app/discovery-context.tsx:134-142 | adding an item under an id no listed item has keeps item ids unique |
| Integrity.RemoveItemKeepsUniqueIds | app/discovery-context.tsx:143-144 | removing an item keeps item ids unique |
| Integrity.RemoveItemCanEmptyCompletedOrder | app/discovery-context.tsx:145-154 | counterexample: removing an item can leave a completed order with an unassigned section |
| Shopper.SlotIdsDistinct | app/shopper/page.tsx:17-21 | different slot positions get different slot ids |
| Shopper.FreshSlots | app/shopper/page.tsx:16-21 | there are n slots; slot k has id `slot-(k+1)` and asks for Genre |
| Shopper.FreshSlotIdsUnique | app/shopper/page.tsx:16-21 | no two fresh slots share an id |
| Shopper.WithSlotCategory | app/shopper/page.tsx:28-34 | the slot count and every id are kept; only the slot with the given id takes the new category |
| Shopper.SlotCategories | app/shopper/page.tsx:41 | the categories in slot order |
| Shopper.UpdateFreshSlot | app/shopper/page.tsx:28-41 | choosing a category for slot k of a fresh box changes only position k of the order it would place |
| Shopper.ShopperPage.constructor | app/shopper/page.tsx:16-26 | five Genre slots, not subscribed, payment popup shown, subscribed popup hidden, no order placed |
| Shopper.ShopperPage.UpdateSlot | app/shopper/page.tsx:28-34 | the slots become `WithSlotCategory` of the old slots; every other field is unchanged |
| Shopper.ShopperPage.PlaceOrder | app/shopper/page.tsx:36-43 | when not subscribed, nothing is submitted and the payment popup is shown; when subscribed, the slot categories are submitted in slot order and the returned id is recorded |
| Shopper.ShopperPage.CancelPayment | app/shopper/page.tsx:163 | the payment popup is hidden; nothing else changes |
| Shopper.ShopperPage.ConfirmPayment | app/shopper/page.tsx:45-48 | the payment popup is hidden and the subscribed popup is shown; the subscription is unchanged |
| Shopper.ShopperPage.CompleteSubscription | app/shopper/page.tsx:50-53 | the shopper becomes subscribed and the subscribed popup is hidden |
| Shopper.ShopperPage.StartNewOrder | app/shopper/page.tsx:55-65 | five fresh Genre slots, no order shown, payment popup shown exactly when not subscribed, subscribed popup hidden; the subscription is kept |
| Shopper.SubscribeThenOrder | app/shopper/page.tsx:36-53 | on a fresh page, the first order click submits nothing; after confirming and subscribing, the next click submits five Genre sections in front of the old orders |
| Text.Trim | app/creator/page.tsx:25 | `trim()` is empty exactly when the input is all whitespace; otherwise it neither starts nor ends with whitespace |
| Text.TrimIsInfix | app/creator/page.tsx:28-31 | the trimmed text is a contiguous part of the input with only whitespace before and after it |
| Text.TrimIdempotent | app/creator/page.tsx:28-31 | trimming twice is the same as trimming once |
| Text.NatToString | app/admin/page.tsx:75 | a number renders as a non-empty string of digits with no leading zero |
| Text.DecimalRoundTrip | app/admin/page.tsx:75 | reading back the rendered digits gives the number |
| Text.NatToStringInjective | app/shopper/page.tsx:18 | different numbers render as different strings |
| Text.StrLessIrreflexive | app/creator/page.tsx:20 | no string sorts before itself |
| Text.StrLessTransitive | app/creator/page.tsx:20 | the default sort order is transitive |
| Text.StrLessTotal | app/creator/page.tsx:20 | of any two different strings, one sorts before the other |
| Text.StrLessAsymmetric | app/creator/page.tsx:20 | two strings never each sort before the other |
| Creator.AcceptedDraftIsClean | app/creator/page.tsx:25-32 | an accepted form gives three text fields that are non-empty, have no whitespace at either end and are unchanged by trimming again; a refused form has a field that is all whitespace |
| Creator.TrimmedIsClean | app/creator/page.tsx:25-31 | one field at a time: a non-blank trimmed field is clean and trimming it again changes nothing |
| Creator.InsertBusiness | app/creator/page.tsx:20 | adding a name to a strictly sorted list keeps it strictly sorted and adds exactly that name |
| Creator.Businesses | app/creator/page.tsx:19-21 | the list is strictly sorted and holds exactly the items' business names |
| Creator.BusinessesDistinct | app/creator/page.tsx:19-21 | no name appears twice |
| Creator.CreatorForm.constructor | app/creator/page.tsx:13-17 | the form starts empty, with Fashion selected |
| Creator.CreatorForm.EditName | app/creator/page.tsx:60 | only the name changes |
| Creator.CreatorForm.EditBusiness | app/creator/page.tsx:71 | only the business changes |
| Creator.CreatorForm.EditDescription | app/creator/page.tsx:103 | only the description changes |
| Creator.CreatorForm.SelectCategory | app/creator/page.tsx:84-96 | only `CREATOR_CATEGORY_OPTIONS` can be chosen, so the field has the type of non-Surprise categories |
| Creator.CreatorForm.Submit | app/creator/page.tsx:23-36 | with a blank field nothing changes; otherwise exactly one item with the trimmed fields and the selected category is appended, name and description are cleared, business and category are kept, and orders are untouched |

## Left out

- Reading and writing `localStorage`, and `JSON.parse`/`JSON.stringify`, are browser I/O. A load is modelled as a `Stored` value that says what the storage slot gave. The writes after each change, and the removes in the two resets, are not modelled.
- Stored records are not checked against a schema (neither is the code). `Stored.StoredArray` already holds well-typed records.
- `crypto.randomUUID`, `Date.now`, `Math.random` and `new Date().toISOString()` are nondeterministic. They become a fresh-id parameter and an integer timestamp.
- Timestamps are integers, not ISO strings, so the sort's conversion of a timestamp string back to milliseconds is not modelled.
- React context, `useState`, `useMemo` and `useEffect` are left out. Each setter is modelled as assigning the new value, and the pages' classes stand in for their state hooks.
- JSX rendering and styling are left out.
- Drag-and-drop `DataTransfer` handling and the `activeDropKey` hover state are left out. A drop takes the item id and category strings directly.
- `confirm()` dialogs are left out. The reset and delete buttons call the store methods directly, which stand for the confirmed case. The "Reset Orders Only" handler also closes the completion popup, and that page-state change is not modelled.
- The popup's Close button and the shortened order id it displays are display only and are not modelled.
- `toLocaleString` display of dates is not modelled.
- app/page.tsx, app/page 2.tsx and app/providers.tsx are static links and a one-line wrapper. They are not part of this model.
- The creator page's Remove button calls `removeItem` directly. That is `Store.DiscoveryStore.RemoveItem`.
- Text.StrLessTotal: Dafny characters are Unicode scalar values, while JavaScript's default sort compares UTF-16 code units. The two orders differ for characters above U+FFFF compared with characters in U+E000–U+FFFF.
- Creator.InsertBusiness: orders names by `Text.StrLess`, by scalar value, so it can differ from JavaScript's code-unit sort on the characters named in the line above.
- Creator.Businesses: sorted by `Text.StrLess`, with the same difference from JavaScript's code-unit sort.
- Admin.SortOrders: the contract does not state that the sort is stable. Only the permutation and the comparator order are proved. The insertion does place a new order in front of the first one it may precede, but no lemma states the resulting tie order.
- Admin.ItemsByCategory: the JavaScript record is keyed by category strings. Here it is keyed by the `Category` datatype, which `Domain.CategoryNameInjective` shows is the same thing.
