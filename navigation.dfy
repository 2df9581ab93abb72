/** The navigation behaviour of main.js: the mobile menu toggle (`initNavigation`, scripts/main.js:15-35),
    the current-page link marking (scripts/main.js:38-47) and the scrolled header (`initHeaderScroll`,
    scripts/main.js:51-69). */
module Navigation {
  import opened Wrappers
  import opened Strings
  import opened Js

  /** `window.location.pathname.split('/').pop() || 'index.html'`: never empty, and never holding a `/`. */
  function CurrentPage(pathname: string): (page: string)
    ensures page != "" && '/' !in page
  {
    var parts := Split(pathname, '/');
    var last := parts[|parts| - 1];
    if last == "" then "index.html" else last
  }

  /** The current page is the part of the path after its last `/`, or `index.html` when that part is empty
      (an empty path or one ending in `/`); it is never empty. */
  lemma CurrentPageSpec(pathname: string)
    ensures var page := CurrentPage(pathname);
            (pathname == "" || pathname[|pathname| - 1] == '/' ==> page == "index.html") &&
            (pathname != "" && pathname[|pathname| - 1] != '/' ==>
               '/' !in page && |page| <= |pathname| && page == pathname[|pathname| - |page|..] &&
               (|page| < |pathname| ==> pathname[|pathname| - |page| - 1] == '/'))
  {
    var parts := Split(pathname, '/');
    var last := parts[|parts| - 1];
    LastPiece(pathname, '/');
    if last != "" {
      assert pathname[|pathname| - 1] == last[|last| - 1];
      assert pathname[|pathname| - 1] != '/';
      assert CurrentPage(pathname) == last;
    } else {
      assert CurrentPage(pathname) == "index.html";
    }
  }

  /** Whether a link whose `href` attribute is `href` (`None` when absent) is marked active on `page`. */
  predicate LinkActive(href: Option<string>, page: string)
  {
    href == Some(page) || (page == "" && href == Some("index.html"))
  }

  /** The second disjunct of the rule never fires: a link is active exactly when its `href` is the current page. */
  lemma EmptyPageDisjunctDead(pathname: string, href: Option<string>)
    ensures LinkActive(href, CurrentPage(pathname)) <==> href == Some(CurrentPage(pathname))
  {
  }

  /** The `.nav-link` elements of the page and their `active` classes. */
  class NavLinks {
    const hrefs: seq<Option<string>>
    var active: seq<bool>

    constructor(hrefs: seq<Option<string>>, active: seq<bool>)
      requires |active| == |hrefs|
      ensures this.hrefs == hrefs && this.active == active
    {
      this.hrefs := hrefs;
      this.active := active;
    }

    /** The loop at scripts/main.js:40-47: every link is marked active exactly when it points at the current page. */
    method MarkCurrent(pathname: string)
      requires |active| == |hrefs|
      modifies this
      ensures |active| == |hrefs|
      ensures forall k :: 0 <= k < |hrefs| ==> active[k] == LinkActive(hrefs[k], CurrentPage(pathname))
    {
      var page := CurrentPage(pathname);
      var k := 0;
      while k < |hrefs|
        invariant 0 <= k <= |hrefs| && |active| == |hrefs|
        invariant forall j :: 0 <= j < k ==> active[j] == LinkActive(hrefs[j], page)
      {
        if LinkActive(hrefs[k], page) {
          active := active[k := true];
        } else {
          active := active[k := false];
        }
        k := k + 1;
      }
    }
  }

  /** The `#navToggle` button and the `#navMobile` menu, both present, and the page body whose scrolling the
      open menu locks. */
  class MobileNav {
    var toggleActive: bool
    var navActive: bool
    const body: Body

    /** The page's initial `active` classes on the toggle and the menu. */
    constructor(body: Body, toggleActive: bool, navActive: bool)
      ensures this.body == body && this.toggleActive == toggleActive && this.navActive == navActive
    {
      this.body := body;
      this.toggleActive := toggleActive;
      this.navActive := navActive;
    }

    /** The toggle and the menu are open together, and the body is locked exactly while the menu is open. */
    predicate InSync()
      reads this, body
    {
      toggleActive == navActive && body.overflowHidden == navActive
    }

    /** A click on the toggle (scripts/main.js:20-24) flips both flags and locks the body exactly when the menu
        is now open. */
    method ToggleClick()
      modifies this, body
      ensures toggleActive == !old(toggleActive) && navActive == !old(navActive)
      ensures body.overflowHidden == navActive
      ensures old(toggleActive == navActive) ==> InSync()
    {
      toggleActive := !toggleActive;
      navActive := !navActive;
      body.overflowHidden := navActive;
    }

    /** A click on a link of the menu (scripts/main.js:27-34) closes the menu and unlocks the body. */
    method LinkClick()
      modifies this, body
      ensures !toggleActive && !navActive && !body.overflowHidden
      ensures InSync()
    {
      toggleActive := false;
      navActive := false;
      body.overflowHidden := false;
    }
  }

  /** The scroll offset above which the header is marked `scrolled`. */
  const ScrollThreshold: real := 100.0

  /** The `#header` element's `scrolled` class and the handler's `lastScroll`. */
  class Header {
    var scrolled: bool
    var lastScroll: real

    constructor()
      ensures !scrolled && lastScroll == 0.0
    {
      scrolled := false;
      lastScroll := 0.0;
    }

    /** The scroll handler (scripts/main.js:57-67) at `window.pageYOffset == offset`: the header is marked
        exactly when the page is scrolled strictly past the threshold. */
    method OnScroll(offset: real)
      modifies this
      ensures scrolled <==> offset > ScrollThreshold
      ensures lastScroll == offset
    {
      if offset > ScrollThreshold {
        scrolled := true;
      } else {
        scrolled := false;
      }
      lastScroll := offset;
    }
  }
}
