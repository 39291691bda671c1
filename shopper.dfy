/** The shopper page (app/shopper/page.tsx): five category slots, a two-step
    simulated subscription, and the order placement it gates. The page's state
    is a class whose event handlers update it step by step. */
module Shopper {
  import opened Domain
  import opened Text
  import opened Store

  /** `BOX_SLOTS` */
  const BoxSlots: nat := 5

  datatype Slot = Slot(id: string, category: Category)

  /** The id of the slot at `index`: "slot-" and its position counted from one. */
  function SlotId(index: nat): string
  {
    "slot-" + NatToString(index + 1)
  }

  /** Different positions get different slot ids. */
  lemma SlotIdsDistinct(i: nat, j: nat)
    requires i != j
    ensures SlotId(i) != SlotId(j)
  {
    NatToStringInjective(i + 1, j + 1);
    assert SlotId(i)[5..] == NatToString(i + 1);
    assert SlotId(j)[5..] == NatToString(j + 1);
  }

  /** The `Array.from` of the initial state and of `startNewOrder`: `n` slots
      asking for Genre, with ids `slot-1` ... `slot-n` in order. */
  function FreshSlots(n: nat): (r: seq<Slot>)
    ensures |r| == n
    ensures forall k :: 0 <= k < n ==> r[k] == Slot(SlotId(k), Genre)
  {
    if n == 0 then [] else FreshSlots(n - 1) + [Slot(SlotId(n - 1), Genre)]
  }

  /** No two fresh slots share an id. */
  lemma FreshSlotIdsUnique(n: nat)
    ensures forall i, j :: 0 <= i < j < n ==> FreshSlots(n)[i].id != FreshSlots(n)[j].id
  {
    forall i, j | 0 <= i < j < n ensures FreshSlots(n)[i].id != FreshSlots(n)[j].id {
      SlotIdsDistinct(i, j);
    }
  }

  /** The update inside `updateSlot`: the slot whose id is `slotId` takes
      `value`; every slot keeps its id and position, every other slot its
      category. */
  function WithSlotCategory(slots: seq<Slot>, slotId: string, value: Category): (r: seq<Slot>)
    ensures |r| == |slots|
    ensures forall k :: 0 <= k < |slots| ==> r[k].id == slots[k].id
    ensures forall k :: 0 <= k < |slots| ==>
              r[k].category == if slots[k].id == slotId then value else slots[k].category
  {
    if slots == [] then []
    else [if slots[0].id == slotId then slots[0].(category := value) else slots[0]]
         + WithSlotCategory(slots[1..], slotId, value)
  }

  /** The categories the slots ask for, in slot order. */
  function SlotCategories(slots: seq<Slot>): (r: seq<Category>)
    ensures |r| == |slots|
    ensures forall k :: 0 <= k < |slots| ==> r[k] == slots[k].category
  {
    if slots == [] then [] else [slots[0].category] + SlotCategories(slots[1..])
  }

  /** Choosing a category for one slot of a fresh box changes exactly that
      position of the order it would place. */
  lemma UpdateFreshSlot(k: nat, value: Category)
    requires k < BoxSlots
    ensures var cats := SlotCategories(WithSlotCategory(FreshSlots(BoxSlots), SlotId(k), value));
            |cats| == BoxSlots && cats[k] == value
            && forall m :: 0 <= m < BoxSlots && m != k ==> cats[m] == Genre
  {
    forall m | 0 <= m < BoxSlots && m != k ensures FreshSlots(BoxSlots)[m].id != SlotId(k) {
      SlotIdsDistinct(m, k);
    }
  }

  class ShopperPage {
    var slots: seq<Slot>
    var submittedOrderId: Option<string>
    var isSubscribed: bool
    var showPaymentPopup: bool
    var showSubscribedPopup: bool

    /** An order id is shown only to a subscribed shopper. */
    ghost predicate Valid()
      reads this
    {
      submittedOrderId.Some? ==> isSubscribed
    }

    /** The state when the page mounts: five Genre slots, not subscribed, the
        payment popup open, no order placed. */
    constructor ()
      ensures Valid()
      ensures slots == FreshSlots(BoxSlots) && submittedOrderId == None
      ensures !isSubscribed && showPaymentPopup && !showSubscribedPopup
    {
      slots := FreshSlots(BoxSlots);
      submittedOrderId := None;
      isSubscribed := false;
      showPaymentPopup := true;
      showSubscribedPopup := false;
    }

    method UpdateSlot(slotId: string, value: Category)
      requires Valid()
      modifies this
      ensures Valid()
      ensures slots == WithSlotCategory(old(slots), slotId, value)
      ensures submittedOrderId == old(submittedOrderId) && isSubscribed == old(isSubscribed)
      ensures showPaymentPopup == old(showPaymentPopup) && showSubscribedPopup == old(showSubscribedPopup)
    {
      slots := WithSlotCategory(slots, slotId, value);
    }

    /** `placeOrder`: an unsubscribed shopper gets the payment popup and the
        store is not touched; a subscribed one submits the slot categories in
        slot order and sees the new order's id. */
    method PlaceOrder(store: DiscoveryStore, freshId: string, now: int)
      requires Valid()
      modifies this, store
      ensures Valid()
      ensures !old(isSubscribed) ==>
                store.orders == old(store.orders) && showPaymentPopup
                && submittedOrderId == old(submittedOrderId)
      ensures old(isSubscribed) ==>
                store.orders == [NewOrder(freshId, now, SlotCategories(slots))] + old(store.orders)
                && submittedOrderId == Some(freshId) && showPaymentPopup == old(showPaymentPopup)
      ensures store.items == old(store.items)
      ensures slots == old(slots) && isSubscribed == old(isSubscribed)
      ensures showSubscribedPopup == old(showSubscribedPopup)
    {
      if !isSubscribed {
        showPaymentPopup := true;
        return;
      }
      var orderId := store.SubmitOrder(SlotCategories(slots), freshId, now);
      submittedOrderId := Some(orderId);
    }

    /** The payment popup's Cancel button. */
    method CancelPayment()
      requires Valid()
      modifies this
      ensures Valid()
      ensures !showPaymentPopup
      ensures slots == old(slots) && submittedOrderId == old(submittedOrderId)
      ensures isSubscribed == old(isSubscribed) && showSubscribedPopup == old(showSubscribedPopup)
    {
      showPaymentPopup := false;
    }

    method ConfirmPayment()
      requires Valid()
      modifies this
      ensures Valid()
      ensures !showPaymentPopup && showSubscribedPopup
      ensures slots == old(slots) && submittedOrderId == old(submittedOrderId)
      ensures isSubscribed == old(isSubscribed)
    {
      showPaymentPopup := false;
      showSubscribedPopup := true;
    }

    method CompleteSubscription()
      requires Valid()
      modifies this
      ensures Valid()
      ensures isSubscribed && !showSubscribedPopup
      ensures slots == old(slots) && submittedOrderId == old(submittedOrderId)
      ensures showPaymentPopup == old(showPaymentPopup)
    {
      isSubscribed := true;
      showSubscribedPopup := false;
    }

    /** `startNewOrder`: fresh slots, no order shown, the payment popup open
        exactly for an unsubscribed shopper, the subscribed popup closed. */
    method StartNewOrder()
      requires Valid()
      modifies this
      ensures Valid()
      ensures slots == FreshSlots(BoxSlots) && submittedOrderId == None
      ensures showPaymentPopup == !isSubscribed && !showSubscribedPopup
      ensures isSubscribed == old(isSubscribed)
    {
      slots := FreshSlots(BoxSlots);
      submittedOrderId := None;
      showPaymentPopup := !isSubscribed;
      showSubscribedPopup := false;
    }
  }

  /** The path through the gate: a first click on the order button only opens
      the payment popup; after confirming and continuing, the same click
      submits the five slots and shows the new order. No handler sets the
      subscription back to false. */
  method SubscribeThenOrder(store: DiscoveryStore, firstId: string, secondId: string, now: int)
    modifies store
    ensures store.orders == [NewOrder(secondId, now, [Genre, Genre, Genre, Genre, Genre])] + old(store.orders)
    ensures store.items == old(store.items)
  {
    var page := new ShopperPage();
    var before := store.orders;
    page.PlaceOrder(store, firstId, now);
    assert store.orders == before && page.showPaymentPopup && page.submittedOrderId == None;
    page.ConfirmPayment();
    page.CompleteSubscription();
    var cats := SlotCategories(page.slots);
    assert cats == [Genre, Genre, Genre, Genre, Genre] by {
      assert forall k :: 0 <= k < |cats| ==> cats[k] == Genre;
    }
    page.PlaceOrder(store, secondId, now);
    assert page.isSubscribed && page.submittedOrderId == Some(secondId);
    assert store.orders == [NewOrder(secondId, now, [Genre, Genre, Genre, Genre, Genre])] + before;
    page.StartNewOrder();
    assert page.isSubscribed && !page.showPaymentPopup && page.submittedOrderId == None;
  }
}
