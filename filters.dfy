/** The portfolio filter bar of main.js (`initFilters`, scripts/main.js:252-278). Buttons and items are modelled
    by their `data-filter` attributes (`None` when absent, JavaScript's `undefined`) and their flags. */
module Filters {
  import opened Wrappers

  /** Whether an item stays displayed under the button's filter: every item under `all`, otherwise those whose
      own filter is the same, including an item and a button that both lack the attribute. */
  predicate Selected(filter: Option<string>, itemFilter: Option<string>)
  {
    filter == Some("all") || itemFilter == filter
  }

  /** `.filter-btn` buttons and `.filter-item` items: each button's `active` class, and each item's `active`
      class and whether it is displayed (`style.display` is not `none`). */
  class FilterBar {
    const buttonFilters: seq<Option<string>>
    const itemFilters: seq<Option<string>>
    var buttonActive: seq<bool>
    var itemActive: seq<bool>
    var itemShown: seq<bool>

    predicate Valid()
      reads this
    {
      |buttonActive| == |buttonFilters| && |itemActive| == |itemShown| == |itemFilters|
    }

    constructor(buttonFilters: seq<Option<string>>, itemFilters: seq<Option<string>>,
                buttonActive: seq<bool>, itemActive: seq<bool>, itemShown: seq<bool>)
      requires |buttonActive| == |buttonFilters| && |itemActive| == |itemShown| == |itemFilters|
      ensures Valid()
      ensures this.buttonFilters == buttonFilters && this.itemFilters == itemFilters
      ensures this.buttonActive == buttonActive && this.itemActive == itemActive && this.itemShown == itemShown
    {
      this.buttonFilters := buttonFilters;
      this.itemFilters := itemFilters;
      this.buttonActive := buttonActive;
      this.itemActive := itemActive;
      this.itemShown := itemShown;
    }

    /** A click on button `b` (scripts/main.js:259-276). No handler is installed when there are no items
        (scripts/main.js:256), so nothing changes then. Otherwise exactly the clicked button becomes active, the
        selected items are displayed and keep their `active` class, and every other item is hidden and loses it. */
    method Click(b: nat)
      requires Valid() && b < |buttonFilters|
      modifies this
      ensures Valid()
      ensures itemFilters == [] ==>
                buttonActive == old(buttonActive) && itemActive == old(itemActive) && itemShown == old(itemShown)
      ensures itemFilters != [] ==> forall j :: 0 <= j < |buttonActive| ==> (buttonActive[j] <==> j == b)
      ensures itemFilters != [] ==>
                forall k :: 0 <= k < |itemFilters| ==>
                  itemShown[k] == Selected(buttonFilters[b], itemFilters[k]) &&
                  itemActive[k] == (Selected(buttonFilters[b], itemFilters[k]) && old(itemActive[k]))
    {
      if |itemFilters| == 0 {
        return;
      }
      var filter := buttonFilters[b];
      var j := 0;
      while j < |buttonActive|
        invariant 0 <= j <= |buttonActive| == |buttonFilters|
        invariant forall i :: 0 <= i < j ==> !buttonActive[i]
        invariant itemActive == old(itemActive) && itemShown == old(itemShown)
      {
        buttonActive := buttonActive[j := false];
        j := j + 1;
      }
      buttonActive := buttonActive[b := true];
      var k := 0;
      while k < |itemFilters|
        invariant 0 <= k <= |itemFilters| && |itemActive| == |itemShown| == |itemFilters|
        invariant forall i :: 0 <= i < k ==>
                    itemShown[i] == Selected(filter, itemFilters[i]) &&
                    itemActive[i] == (Selected(filter, itemFilters[i]) && old(itemActive[i]))
        invariant forall i :: k <= i < |itemFilters| ==> itemActive[i] == old(itemActive[i])
        invariant |buttonActive| == |buttonFilters| && forall i :: 0 <= i < |buttonActive| ==> (buttonActive[i] <==> i == b)
      {
        if filter == Some("all") || itemFilters[k] == filter {
          itemShown := itemShown[k := true];
        } else {
          itemActive := itemActive[k := false];
          itemShown := itemShown[k := false];
        }
        k := k + 1;
      }
    }
  }
}
