/** The interface components of components.js: the `Modal` system (scripts/components.js:37-72), the `Accordion`
    (scripts/components.js:75-95) and the `Tabs` (scripts/components.js:98-119). Elements are positions in
    document order; their `active` classes are flags. */
module Components {
  import opened Wrappers
  import opened Js

  /** `document.getElementById(id)` over the modals' ids: the first modal carrying `id`, and none for the empty id. */
  function ElementById(ids: seq<string>, id: string): (r: Option<nat>)
    ensures r.Some? ==> r.value < |ids| && ids[r.value] == id && id != "" &&
                        forall k :: 0 <= k < r.value ==> ids[k] != id
    ensures r.None? ==> id == "" || forall k :: 0 <= k < |ids| ==> ids[k] != id
  {
    if id == "" then None else FirstWith(ids, id, 0)
  }

  function FirstWith(ids: seq<string>, id: string, from: nat): (r: Option<nat>)
    requires from <= |ids|
    ensures r.Some? ==> from <= r.value < |ids| && ids[r.value] == id &&
                        forall k :: from <= k < r.value ==> ids[k] != id
    ensures r.None? ==> forall k :: from <= k < |ids| ==> ids[k] != id
    decreases |ids| - from
  {
    if from == |ids| then None
    else if ids[from] == id then Some(from)
    else FirstWith(ids, id, from + 1)
  }

  /** Whether `getElementById` can reach modal `k` by its own id: the id is not empty and no earlier modal has it. */
  predicate Reachable(ids: seq<string>, k: nat)
    requires k < |ids|
  {
    ids[k] != "" && forall j :: 0 <= j < k ==> ids[j] != ids[k]
  }

  /** The modals still open after Escape: those that were open and that no lookup by id reaches. Escape never
      opens a modal. */
  function AfterEscape(ids: seq<string>, active: seq<bool>): (after: seq<bool>)
    requires |active| == |ids|
    ensures |after| == |ids|
    ensures forall k :: 0 <= k < |ids| && after[k] ==> active[k]
  {
    seq(|ids|, k requires 0 <= k < |ids| => active[k] && !Reachable(ids, k))
  }

  /** With ids that are present and unique, Escape closes every modal. */
  lemma EscapeClosesAll(ids: seq<string>, active: seq<bool>)
    requires |active| == |ids|
    requires forall k :: 0 <= k < |ids| ==> ids[k] != ""
    requires forall j, k :: 0 <= j < k < |ids| ==> ids[j] != ids[k]
    ensures forall k :: 0 <= k < |ids| ==> !AfterEscape(ids, active)[k]
  {
  }

  /** An open modal without an id, or whose id an earlier modal also carries, stays open after Escape. */
  lemma EscapeMissesUnreachable(ids: seq<string>, active: seq<bool>, k: nat)
    requires |active| == |ids| && k < |ids| && active[k]
    requires ids[k] == "" || exists j :: 0 <= j < k && ids[j] == ids[k]
    ensures AfterEscape(ids, active)[k]
  {
  }

  /** The page's `.modal` elements, their ids and `active` classes, and the page body. */
  class Modals {
    const ids: seq<string>
    const body: Body
    var active: seq<bool>

    predicate Valid()
      reads this
    {
      |active| == |ids|
    }

    constructor(ids: seq<string>, active: seq<bool>, body: Body)
      requires |active| == |ids|
      ensures Valid() && this.ids == ids && this.active == active && this.body == body
    {
      this.ids := ids;
      this.active := active;
      this.body := body;
    }

    /** `Modal.open(id)` (scripts/components.js:38-44): the modal found by `id` opens and the body is locked; an
        id that finds nothing changes nothing. */
    method Open(id: string)
      requires Valid()
      modifies this, body
      ensures Valid()
      ensures ElementById(ids, id).Some? ==>
                active == old(active)[ElementById(ids, id).value := true] && body.overflowHidden
      ensures ElementById(ids, id).None? ==>
                active == old(active) && body.overflowHidden == old(body.overflowHidden)
    {
      var modal := ElementById(ids, id);
      if modal.Some? {
        active := active[modal.value := true];
        body.overflowHidden := true;
      }
    }

    /** `Modal.close(id)` (scripts/components.js:46-52): the modal found by `id` closes and the body is unlocked,
        even when another modal is still open; an id that finds nothing changes nothing. */
    method Close(id: string)
      requires Valid()
      modifies this, body
      ensures Valid()
      ensures ElementById(ids, id).Some? ==>
                active == old(active)[ElementById(ids, id).value := false] && !body.overflowHidden
      ensures ElementById(ids, id).None? ==>
                active == old(active) && body.overflowHidden == old(body.overflowHidden)
    {
      var modal := ElementById(ids, id);
      if modal.Some? {
        active := active[modal.value := false];
        body.overflowHidden := false;
      }
    }

    /** A click on the backdrop inside modal `k` (scripts/components.js:56-61) closes whatever its id finds. */
    method BackdropClick(k: nat)
      requires Valid() && k < |ids|
      modifies this, body
      ensures Valid()
      ensures Reachable(ids, k) ==> active == old(active)[k := false] && !body.overflowHidden
      ensures ElementById(ids, ids[k]).Some? ==>
                active == old(active)[ElementById(ids, ids[k]).value := false] && !body.overflowHidden
      ensures ElementById(ids, ids[k]).None? ==>
                active == old(active) && body.overflowHidden == old(body.overflowHidden)
    {
      Close(ids[k]);
    }

    /** The Escape handler (scripts/components.js:64-70): each modal open when the key was pressed is closed by
        its id, so exactly the open modals a lookup reaches close, and the body is unlocked when any lookup
        found one. */
    method Escape()
      requires Valid()
      modifies this, body
      ensures Valid() && active == AfterEscape(ids, old(active))
      ensures (exists k :: 0 <= k < |ids| && old(active[k]) && ids[k] != "") ==> !body.overflowHidden
      ensures (forall k :: 0 <= k < |ids| && old(active[k]) ==> ids[k] == "") ==>
                body.overflowHidden == old(body.overflowHidden)
    {
      var open := active;
      var k := 0;
      while k < |ids|
        invariant 0 <= k <= |ids| && Valid()
        invariant forall j :: 0 <= j < |ids| && active[j] ==> open[j]
        invariant forall j :: 0 <= j < |ids| && open[j] && !Reachable(ids, j) ==> active[j]
        invariant forall j :: 0 <= j < k && open[j] && Reachable(ids, j) ==> !active[j]
        invariant (exists j :: 0 <= j < k && open[j] && ids[j] != "") ==> !body.overflowHidden
        invariant (forall j :: 0 <= j < k && open[j] ==> ids[j] == "") ==>
                    body.overflowHidden == old(body.overflowHidden)
      {
        if open[k] {
          Close(ids[k]);
        }
        k := k + 1;
      }
    }
  }

  /** The items after a click on the header of item `k`: every item of the same accordion closes, and item `k`
      opens unless it was open. The only item of that accordion that can be open afterwards is item `k`. */
  function AccordionClick(accordionOf: seq<int>, active: seq<bool>, k: nat): (after: seq<bool>)
    requires |active| == |accordionOf| && k < |active|
    ensures |after| == |active|
    ensures forall i :: 0 <= i < |after| && after[i] && accordionOf[i] == accordionOf[k] ==> i == k
  {
    seq(|active|, i requires 0 <= i < |active| =>
      if i == k then !active[k] else if accordionOf[i] == accordionOf[k] then false else active[i])
  }

  /** After a click at most one item of the clicked accordion is open. */
  lemma AccordionAtMostOne(accordionOf: seq<int>, active: seq<bool>, k: nat, i: nat, j: nat)
    requires |active| == |accordionOf| && k < |active| && i < |active| && j < |active|
    requires accordionOf[i] == accordionOf[k] && accordionOf[j] == accordionOf[k]
    requires AccordionClick(accordionOf, active, k)[i] && AccordionClick(accordionOf, active, k)[j]
    ensures i == j
  {
  }

  /** A click on an open item leaves its accordion closed; on a closed one it leaves exactly that item open. */
  lemma AccordionToggle(accordionOf: seq<int>, active: seq<bool>, k: nat)
    requires |active| == |accordionOf| && k < |active|
    ensures var after := AccordionClick(accordionOf, active, k);
            forall i :: 0 <= i < |active| && accordionOf[i] == accordionOf[k] ==>
              (after[i] <==> !active[k] && i == k)
  {
  }

  /** A click changes no item of another accordion. */
  lemma AccordionOthersUntouched(accordionOf: seq<int>, active: seq<bool>, k: nat)
    requires |active| == |accordionOf| && k < |active|
    ensures var after := AccordionClick(accordionOf, active, k);
            forall i :: 0 <= i < |active| && accordionOf[i] != accordionOf[k] ==> after[i] == active[i]
  {
  }

  /** The `.accordion-item` elements, the `.accordion` each lies in, and their `active` classes. */
  class Accordions {
    const accordionOf: seq<int>
    var active: seq<bool>

    constructor(accordionOf: seq<int>, active: seq<bool>)
      requires |active| == |accordionOf|
      ensures this.accordionOf == accordionOf && this.active == active
    {
      this.accordionOf := accordionOf;
      this.active := active;
    }

    /** The header click handler of item `k` (scripts/components.js:78-92). */
    method Click(k: nat)
      requires |active| == |accordionOf| && k < |active|
      modifies this
      ensures active == AccordionClick(accordionOf, old(active), k)
    {
      var isActive := active[k];
      var i := 0;
      while i < |active|
        invariant 0 <= i <= |active| == |accordionOf|
        invariant forall j :: 0 <= j < i && accordionOf[j] == accordionOf[k] ==> !active[j]
        invariant forall j :: 0 <= j < |active| && (i <= j || accordionOf[j] != accordionOf[k]) ==>
                    active[j] == old(active[j])
      {
        if accordionOf[i] == accordionOf[k] {
          active := active[i := false];
        }
        i := i + 1;
      }
      if !isActive {
        active := active[k := true];
      }
    }
  }

  /** The element `#id` inside container `c`: the first panel of `c` whose id is `id`. */
  function PanelIn(panelTabs: seq<int>, panelIds: seq<string>, c: int, id: string, from: nat): (r: Option<nat>)
    requires |panelIds| == |panelTabs| && from <= |panelTabs|
    ensures r.Some? ==> from <= r.value < |panelTabs| && panelTabs[r.value] == c && panelIds[r.value] == id &&
                        forall p :: from <= p < r.value ==> !(panelTabs[p] == c && panelIds[p] == id)
    ensures r.None? ==> forall p :: from <= p < |panelTabs| ==> !(panelTabs[p] == c && panelIds[p] == id)
    decreases |panelTabs| - from
  {
    if from == |panelTabs| then None
    else if panelTabs[from] == c && panelIds[from] == id then Some(from)
    else PanelIn(panelTabs, panelIds, c, id, from + 1)
  }

  /** The id the selector `#${tabId}` names: an absent `data-tab` is written as `undefined`. */
  function SelectorId(tab: Option<string>): string
  {
    if tab.Some? then tab.value else "undefined"
  }

  /** The `.tabs` containers' `.tab-button` and `.tab-panel` elements: the container each lies in, each button's
      `data-tab`, each panel's id, and their `active` classes. */
  class TabSets {
    const buttonTabs: seq<int>
    const buttonTargets: seq<Option<string>>
    const panelTabs: seq<int>
    const panelIds: seq<string>
    var buttonActive: seq<bool>
    var panelActive: seq<bool>

    predicate Valid()
      reads this
    {
      |buttonTargets| == |buttonActive| == |buttonTabs| && |panelIds| == |panelActive| == |panelTabs|
    }

    constructor(buttonTabs: seq<int>, buttonTargets: seq<Option<string>>, panelTabs: seq<int>, panelIds: seq<string>,
                buttonActive: seq<bool>, panelActive: seq<bool>)
      requires |buttonTargets| == |buttonActive| == |buttonTabs| && |panelIds| == |panelActive| == |panelTabs|
      ensures Valid() && this.buttonTabs == buttonTabs && this.buttonTargets == buttonTargets
      ensures this.panelTabs == panelTabs && this.panelIds == panelIds
      ensures this.buttonActive == buttonActive && this.panelActive == panelActive
    {
      this.buttonTabs := buttonTabs;
      this.buttonTargets := buttonTargets;
      this.panelTabs := panelTabs;
      this.panelIds := panelIds;
      this.buttonActive := buttonActive;
      this.panelActive := panelActive;
    }

    /** The click handler of button `b` (scripts/components.js:101-116): in its container exactly that button and
        exactly the panel its `data-tab` names become active, containers elsewhere are untouched; `ok` is false
        when no panel has that id, in which case `querySelector` yields `null` and the handler stops with every
        panel of the container inactive. */
    method Click(b: nat) returns (ok: bool)
      requires Valid() && b < |buttonTabs|
      modifies this
      ensures Valid()
      ensures var c := buttonTabs[b];
              forall i :: 0 <= i < |buttonActive| ==>
                buttonActive[i] == if buttonTabs[i] == c then i == b else old(buttonActive[i])
      ensures var c, panel := buttonTabs[b], PanelIn(panelTabs, panelIds, buttonTabs[b], SelectorId(buttonTargets[b]), 0);
              ok == panel.Some? &&
              forall p :: 0 <= p < |panelActive| ==>
                panelActive[p] == if panelTabs[p] == c then panel == Some(p) else old(panelActive[p])
    {
      var c := buttonTabs[b];
      var i := 0;
      while i < |buttonActive|
        invariant 0 <= i <= |buttonActive| && Valid() && panelActive == old(panelActive)
        invariant forall j :: 0 <= j < |buttonActive| ==>
                    buttonActive[j] == if j < i && buttonTabs[j] == c then false else old(buttonActive[j])
      {
        if buttonTabs[i] == c {
          buttonActive := buttonActive[i := false];
        }
        i := i + 1;
      }
      buttonActive := buttonActive[b := true];
      var p := 0;
      while p < |panelActive|
        invariant 0 <= p <= |panelActive| && Valid()
        invariant forall j :: 0 <= j < |buttonActive| ==>
                    buttonActive[j] == if buttonTabs[j] == c then j == b else old(buttonActive[j])
        invariant forall j :: 0 <= j < |panelActive| ==>
                    panelActive[j] == if j < p && panelTabs[j] == c then false else old(panelActive[j])
      {
        if panelTabs[p] == c {
          panelActive := panelActive[p := false];
        }
        p := p + 1;
      }
      var panel := PanelIn(panelTabs, panelIds, c, SelectorId(buttonTargets[b]), 0);
      if panel.None? {
        return false;
      }
      panelActive := panelActive[panel.value := true];
      ok := true;
    }
  }
}
