/** The gallery lightbox of main.js (`initLightbox`, scripts/main.js:184-249). Each gallery item is modelled by
    the `src` of its `<img>`, or `None` when it has none. */
module Lightbox {
  import opened Wrappers
  import opened Js

  /** The `images` array: the sources of the items that have an image, in document order
      (scripts/main.js:195-204). */
  function Sources(items: seq<Option<string>>): (images: seq<string>)
    ensures |images| <= |items|
  {
    if items == [] then []
    else
      var last := items[|items| - 1];
      Sources(items[..|items| - 1]) + (if last.Some? then [last.value] else [])
  }

  /** Every source is an item's image and every item's image is a source. */
  lemma {:induction false} SourcesMembers(items: seq<Option<string>>, src: string)
    ensures src in Sources(items) <==> Some(src) in items
  {
    if items != [] {
      var init := items[..|items| - 1];
      SourcesMembers(init, src);
      assert items == init + [items[|items| - 1]];
    }
  }

  /** `(i + 1) % n`: the image after position `i`, wrapping round from the last image to the first. From any
      position that is not negative it lands on an image. */
  function NextIndex(i: int, n: int): (r: int)
    requires n > 0
    ensures i >= 0 ==> 0 <= r < n
    ensures 0 <= i < n ==> r == if i == n - 1 then 0 else i + 1
  {
    if 0 <= i < n then
      RemWrapOnce(i + 1, n);
      Rem(i + 1, n)
    else Rem(i + 1, n)
  }

  /** `(i - 1 + n) % n`: the image before position `i`, wrapping round from the first image to the last. From
      any position that is not negative it lands on an image. */
  function PrevIndex(i: int, n: int): (r: int)
    requires n > 0
    ensures i >= 0 ==> 0 <= r < n
    ensures 0 <= i < n ==> r == if i == 0 then n - 1 else i - 1
  {
    if 0 <= i < n then
      RemWrapOnce(i - 1 + n, n);
      Rem(i - 1 + n, n)
    else Rem(i - 1 + n, n)
  }

  /** On an image position the two steps undo each other. */
  lemma StepsInverse(i: int, n: int)
    requires 0 <= i < n
    ensures PrevIndex(NextIndex(i, n), n) == i
    ensures NextIndex(PrevIndex(i, n), n) == i
  {
  }

  /** The position in `images` of item `k`'s image: the number of images before it. */
  function ImageIndex(items: seq<Option<string>>, k: nat): (i: nat)
    requires k < |items| && items[k].Some?
    ensures i < |Sources(items)| && Sources(items)[i] == items[k].value
  {
    SourcesPrefix(items, k + 1);
    assert items[..k + 1][..k] == items[..k];
    |Sources(items[..k])|
  }

  /** The sources of a prefix of the items are a prefix of the sources. */
  lemma {:induction false} SourcesPrefix(items: seq<Option<string>>, n: nat)
    requires n <= |items|
    ensures Sources(items[..n]) <= Sources(items)
    decreases |items| - n
  {
    if n < |items| {
      SourcesPrefix(items, n + 1);
      assert items[..n + 1][..n] == items[..n];
    } else {
      assert items[..n] == items;
    }
  }

  /** The gallery and the `#lightbox` element. `hasLightbox` is whether `#lightbox` exists and `hasImage`
      whether it holds the `.lightbox-content img` element, whose `src` is `shown`. */
  class Gallery {
    const items: seq<Option<string>>
    const images: seq<string>
    const hasLightbox: bool
    const hasImage: bool
    const body: Body
    var currentIndex: int
    var active: bool
    var shown: string

    /** An open lightbox exists and was opened from an item with an image, so there are images to step through. */
    predicate Valid()
      reads this
    {
      images == Sources(items) && currentIndex >= 0 && (active ==> hasLightbox && |images| > 0)
    }

    constructor(items: seq<Option<string>>, hasLightbox: bool, hasImage: bool, body: Body, shown: string)
      ensures Valid() && this.items == items && this.body == body && !active && currentIndex == 0
      ensures this.hasLightbox == hasLightbox && this.hasImage == hasImage && this.shown == shown
    {
      this.items := items;
      this.hasLightbox := hasLightbox;
      this.hasImage := hasImage;
      this.body := body;
      this.shown := shown;
      var images := CollectSources(items);
      this.images := images;
      currentIndex := 0;
      active := false;
    }

    /** A click on item `k`, which has an image (scripts/main.js:199-202 and `openLightbox`, 206-212): the index
        becomes the item's position among all items, and the lightbox opens on the item's image when both the
        lightbox and its image element exist. */
    method ItemClick(k: nat)
      requires Valid() && k < |items| && items[k].Some?
      modifies this, body
      ensures Valid() && currentIndex == k
      ensures hasLightbox && hasImage ==> active && shown == items[k].value && body.overflowHidden
      ensures !(hasLightbox && hasImage) ==>
                active == old(active) && shown == old(shown) && body.overflowHidden == old(body.overflowHidden)
    {
      SourcesMembers(items, items[k].value);
      currentIndex := k;
      if hasLightbox && hasImage {
        shown := items[k].value;
        active := true;
        body.overflowHidden := true;
      }
    }

    /** `closeLightbox` (scripts/main.js:214-219). */
    method Close()
      requires Valid()
      modifies this, body
      ensures Valid() && currentIndex == old(currentIndex) && shown == old(shown)
      ensures hasLightbox ==> !active && !body.overflowHidden
      ensures !hasLightbox ==> active == old(active) && body.overflowHidden == old(body.overflowHidden)
    {
      if hasLightbox {
        active := false;
        body.overflowHidden := false;
      }
    }

    /** `showPrev` (scripts/main.js:221-224): step back one image, wrapping round. */
    method ShowPrev()
      requires Valid() && |images| > 0
      modifies this
      ensures Valid() && active == old(active)
      ensures currentIndex == PrevIndex(old(currentIndex), |images|) && 0 <= currentIndex < |images|
      ensures shown == if hasImage then images[currentIndex] else old(shown)
    {
      currentIndex := PrevIndex(currentIndex, |images|);
      if hasImage {
        shown := images[currentIndex];
      }
    }

    /** `showNext` (scripts/main.js:226-229): step on one image, wrapping round. */
    method ShowNext()
      requires Valid() && |images| > 0
      modifies this
      ensures Valid() && active == old(active)
      ensures currentIndex == NextIndex(old(currentIndex), |images|) && 0 <= currentIndex < |images|
      ensures shown == if hasImage then images[currentIndex] else old(shown)
    {
      currentIndex := NextIndex(currentIndex, |images|);
      if hasImage {
        shown := images[currentIndex];
      }
    }

    /** A click inside the lightbox (scripts/main.js:235-239) closes it only when it lands on the backdrop itself. */
    method LightboxClick(onBackdrop: bool)
      requires Valid() && hasLightbox
      modifies this, body
      ensures Valid() && currentIndex == old(currentIndex) && shown == old(shown)
      ensures onBackdrop ==> !active && !body.overflowHidden
      ensures !onBackdrop ==> active == old(active) && body.overflowHidden == old(body.overflowHidden)
    {
      if onBackdrop {
        Close();
      }
    }

    /** The keyboard handler (scripts/main.js:242-248): while the lightbox is open, Escape closes it and the
        arrow keys step through the images; otherwise nothing changes. */
    method KeyDown(key: string)
      requires Valid()
      modifies this, body
      ensures Valid()
      ensures !old(active) ==>
                active == old(active) && currentIndex == old(currentIndex) && shown == old(shown) &&
                body.overflowHidden == old(body.overflowHidden)
      ensures old(active) && key == "Escape" ==>
                !active && !body.overflowHidden && currentIndex == old(currentIndex) && shown == old(shown)
      ensures old(active) && key == "ArrowLeft" ==>
                active && currentIndex == PrevIndex(old(currentIndex), |images|) &&
                shown == (if hasImage then images[currentIndex] else old(shown)) &&
                body.overflowHidden == old(body.overflowHidden)
      ensures old(active) && key == "ArrowRight" ==>
                active && currentIndex == NextIndex(old(currentIndex), |images|) &&
                shown == (if hasImage then images[currentIndex] else old(shown)) &&
                body.overflowHidden == old(body.overflowHidden)
      ensures old(active) && key != "Escape" && key != "ArrowLeft" && key != "ArrowRight" ==>
                active && currentIndex == old(currentIndex) && shown == old(shown) &&
                body.overflowHidden == old(body.overflowHidden)
    {
      if active {
        if key == "Escape" {
          Close();
        }
        if key == "ArrowLeft" {
          ShowPrev();
        }
        if key == "ArrowRight" {
          ShowNext();
        }
      }
    }
  }

  /** The `forEach` at scripts/main.js:195-204 pushing each item's image source onto `images`. */
  method CollectSources(items: seq<Option<string>>) returns (images: seq<string>)
    ensures images == Sources(items)
  {
    images := [];
    var k := 0;
    while k < |items|
      invariant 0 <= k <= |items| && images == Sources(items[..k])
    {
      assert items[..k + 1][..k] == items[..k];
      if items[k].Some? {
        images := images + [items[k].value];
      }
      k := k + 1;
    }
    assert items[..k] == items;
  }

  /** After a click on item 1 of `[no image, a, b]` and a step forward, the lightbox shows `a` again rather than
      `b`: `currentIndex` counts items while `images` counts only those with an image. */
  lemma StepAfterClickMisaligned()
    ensures var items := [None, Some("a.jpg"), Some("b.jpg")];
            var images := Sources(items);
            images == ["a.jpg", "b.jpg"] &&
            images[NextIndex(1, |images|)] == "a.jpg" &&
            images[NextIndex(ImageIndex(items, 1), |images|)] == "b.jpg"
  {
    var items: seq<Option<string>> := [None, Some("a.jpg"), Some("b.jpg")];
    assert items[..2][..1] == [None];
    assert items[..1] == [None];
    assert Sources(items[..1]) == [];
    assert Sources(items[..2]) == ["a.jpg"];
  }

  /** Counted from the image position of the clicked item, a step forward shows the image of the next item that
      has one. */
  lemma NextFromImageIndex(items: seq<Option<string>>, k: nat, m: nat)
    requires k < m < |items| && items[k].Some? && items[m].Some?
    requires forall j :: k < j < m ==> items[j].None?
    ensures NextIndex(ImageIndex(items, k), |Sources(items)|) == ImageIndex(items, m)
  {
    var i, n := ImageIndex(items, k), |Sources(items)|;
    assert items[..k + 1][..k] == items[..k];
    SourcesSkip(items, k + 1, m);
    assert ImageIndex(items, m) == i + 1;
    RemWrapOnce(i + 1, n);
  }

  /** Items without an image add no source. */
  lemma {:induction false} SourcesSkip(items: seq<Option<string>>, lo: nat, hi: nat)
    requires lo <= hi <= |items|
    requires forall j :: lo <= j < hi ==> items[j].None?
    ensures Sources(items[..hi]) == Sources(items[..lo])
    decreases hi - lo
  {
    if lo < hi {
      SourcesSkip(items, lo, hi - 1);
      assert items[..hi][..hi - 1] == items[..hi - 1];
    }
  }
}
