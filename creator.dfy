/** The creator page (app/creator/page.tsx): the listing form, which trims its
    text fields, refuses a blank one and hands the rest to the store, and the
    business-name suggestions derived from the listed items. */
module Creator {
  import opened Domain
  import opened Text
  import opened Store

  /** The guard of `onSubmit`: no field is blank once trimmed. */
  predicate FormAccepted(name: string, business: string, description: string)
  {
    Trim(name) != [] && Trim(business) != [] && Trim(description) != []
  }

  /** The item `onSubmit` hands to `addItem`. */
  function DraftOf(name: string, business: string, category: Category, description: string): ItemDraft
  {
    ItemDraft(Trim(name), Trim(business), category, Trim(description))
  }

  /** A text field as the form stores it: non-empty, with no whitespace at
      either end. */
  predicate CleanText(s: string)
  {
    s != [] && !IsJsWhitespace(s[0]) && !IsJsWhitespace(s[|s| - 1])
  }

  /** Whatever was typed, an accepted form yields an item whose three text
      fields are clean, and trimming them again changes nothing; a refused
      form has a field made only of whitespace. */
  lemma AcceptedDraftIsClean(name: string, business: string, description: string, category: Category)
    ensures FormAccepted(name, business, description) ==>
              var d := DraftOf(name, business, category, description);
              CleanText(d.name) && CleanText(d.business) && CleanText(d.description)
              && Trim(d.name) == d.name && Trim(d.business) == d.business
              && Trim(d.description) == d.description
    ensures !FormAccepted(name, business, description) <==>
              AllWhitespace(name) || AllWhitespace(business) || AllWhitespace(description)
  {
    TrimmedIsClean(name);
    TrimmedIsClean(business);
    TrimmedIsClean(description);
  }

  /** One text field of `AcceptedDraftIsClean`. */
  lemma TrimmedIsClean(s: string)
    ensures Trim(s) != [] ==> CleanText(Trim(s)) && Trim(Trim(s)) == Trim(s)
    ensures Trim(s) == [] <==> AllWhitespace(s)
  {
    TrimIdempotent(s);
  }

  /** Adds `b` to a strictly sorted list of names, keeping it strictly sorted. */
  function InsertBusiness(sorted: seq<string>, b: string): (r: seq<string>)
    requires StrictlySorted(sorted)
    ensures StrictlySorted(r)
    ensures forall x :: x in r <==> x in sorted || x == b
  {
    if sorted == [] then [b]
    else if b == sorted[0] then sorted
    else if StrLess(b, sorted[0]) then
      BelowHeadBelowAll(b, sorted);
      SortedCons(b, sorted);
      [b] + sorted
    else
      var rest := InsertBusiness(sorted[1..], b);
      StrLessTotal(b, sorted[0]);
      HeadBelowTail(sorted);
      SortedCons(sorted[0], rest);
      [sorted[0]] + rest
  }

  /** The head of a strictly sorted list is below everything after it. */
  lemma HeadBelowTail(s: seq<string>)
    requires StrictlySorted(s) && s != []
    ensures forall e :: e in s[1..] ==> StrLess(s[0], e)
  {
    forall e | e in s[1..] ensures StrLess(s[0], e) {
      var j :| 0 <= j < |s[1..]| && s[1..][j] == e;
      assert s[j + 1] == e;
    }
  }

  /** `businesses`: the business names of the items, each once, in the order
      `sort` gives strings. */
  function Businesses(items: seq<Item>): (r: seq<string>)
    ensures StrictlySorted(r)
    ensures forall x :: x in r <==> exists it :: it in items && it.business == x
  {
    if items == [] then []
    else
      assert items == [items[0]] + items[1..];
      InsertBusiness(Businesses(items[1..]), items[0].business)
  }

  /** Strictly sorted lists hold each name once. */
  lemma BusinessesDistinct(items: seq<Item>)
    ensures var r := Businesses(items);
            forall i, j :: 0 <= i < j < |r| ==> r[i] != r[j]
  {
    var r := Businesses(items);
    forall i, j | 0 <= i < j < |r| ensures r[i] != r[j] {
      StrLessIrreflexive(r[i]);
    }
  }

  /** The state of the listing form. */
  class CreatorForm {
    var name: string
    var business: string
    var category: CreatorCategory
    var description: string

    /** An empty form with Fashion selected. */
    constructor ()
      ensures name == "" && business == "" && category == Fashion && description == ""
    {
      name, business, category, description := "", "", Fashion, "";
    }

    method EditName(value: string)
      modifies this
      ensures name == value
      ensures business == old(business) && category == old(category) && description == old(description)
    {
      name := value;
    }

    method EditBusiness(value: string)
      modifies this
      ensures business == value
      ensures name == old(name) && category == old(category) && description == old(description)
    {
      business := value;
    }

    method EditDescription(value: string)
      modifies this
      ensures description == value
      ensures name == old(name) && business == old(business) && category == old(category)
    {
      description := value;
    }

    /** The category select offers only the creator options, so the selected
        category is never Surprise. */
    method SelectCategory(value: Category)
      requires value in CreatorCategoryOptions()
      modifies this
      ensures category == value
      ensures name == old(name) && business == old(business) && description == old(description)
    {
      category := value;
    }

    /** `onSubmit`: a form with a blank field changes nothing; otherwise the
        trimmed fields and the category become one new item at the end of the
        store's list, and the name and description are cleared while the
        business and category stay for the next listing. */
    method Submit(store: DiscoveryStore, freshId: string)
      modifies this, store
      ensures !FormAccepted(old(name), old(business), old(description)) ==>
                store.items == old(store.items)
                && name == old(name) && business == old(business)
                && category == old(category) && description == old(description)
      ensures FormAccepted(old(name), old(business), old(description)) ==>
                store.items == AppendItem(old(store.items),
                                          DraftOf(old(name), old(business), old(category), old(description)),
                                          freshId)
                && name == "" && description == ""
                && business == old(business) && category == old(category)
      ensures store.orders == old(store.orders)
    {
      if !FormAccepted(name, business, description) {
        return;
      }
      var draft := DraftOf(name, business, category, description);
      store.AddItem(draft, freshId);
      name, description := "", "";
    }
  }
}
