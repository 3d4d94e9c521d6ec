/** The navigation bar: whether the page has been scrolled past a threshold (which
    darkens the bar) and whether the mobile menu is open. The two are independent:
    scrolling never touches the menu and no menu event touches the scroll flag. */
module Nav {
  import opened Wrappers

  /** The scroll offset past which the bar counts as scrolled. */
  const ScrollThreshold: int := 50

  datatype NavState = NavState(scrolled: bool, menuOpen: bool)

  /** The events the bar reacts to. */
  datatype NavEvent =
      /** A window scroll, with the new vertical offset. */
    | Scroll(scrollY: int)
      /** The hamburger button's click handler on its own. */
    | Toggle
      /** A mousedown on the page, inside or outside the menu. As the bar is
          written, the hamburger button lies outside the menu, so its own mousedown
          is a `MouseDown(false)` (see `HamburgerAsWrittenNeverCloses`). */
    | MouseDown(insideMenu: bool)
      /** A click on a navigation link; `targetExists` says whether its anchor is on the page. */
    | LinkClick(targetExists: bool)
      /** A whole press on the hamburger button as intended: its mousedown is not
          taken for an outside click, so only its click's flip takes effect. This is
          the corrected press; the press as written is `MouseDown(false)` followed
          by `Toggle`. */
    | HamburgerPress

  /** The bar's reaction to one event. */
  function Step(s: NavState, e: NavEvent): (r: NavState)
    ensures e.Scroll? ==> r.menuOpen == s.menuOpen
    ensures !e.Scroll? ==> r.scrolled == s.scrolled
    ensures e.LinkClick? ==> !r.menuOpen
    ensures !s.menuOpen && r.menuOpen ==> e.Toggle? || e.HamburgerPress?
  {
    match e
    case Scroll(y) => s.(scrolled := y > ScrollThreshold)
    case Toggle => s.(menuOpen := !s.menuOpen)
    case MouseDown(insideMenu) => s.(menuOpen := s.menuOpen && insideMenu)
    case LinkClick(_) => s.(menuOpen := false)
    case HamburgerPress => s.(menuOpen := !s.menuOpen)
  }

  /** The state after a sequence of events, the last one applied last. */
  function Run(s: NavState, es: seq<NavEvent>): (r: NavState)
    ensures es == [] ==> r == s
    ensures es != [] && es[|es| - 1].LinkClick? ==> !r.menuOpen
    ensures (forall k :: 0 <= k < |es| ==> !es[k].Scroll?) ==> r.scrolled == s.scrolled
    decreases |es|
  {
    if es == [] then s else Step(Run(s, es[..|es| - 1]), es[|es| - 1])
  }

  /** The bar starts unscrolled with the menu closed. */
  const Initial: NavState := NavState(false, false)

  /** A scroll sets the flag exactly when the offset exceeds 50 (an offset of exactly
      50 does not) and leaves the menu alone. */
  lemma ScrollStep(s: NavState, y: int)
    ensures Step(s, Scroll(y)).scrolled <==> y > 50
    ensures !Step(s, Scroll(50)).scrolled && Step(s, Scroll(51)).scrolled
    ensures Step(s, Scroll(y)).menuOpen == s.menuOpen
  {
  }

  /** With the menu open, a mousedown outside it closes it and one inside it leaves it
      open; with the menu closed, no mousedown opens it. */
  lemma MouseDownStep(s: NavState, insideMenu: bool)
    ensures s.menuOpen ==> (Step(s, MouseDown(insideMenu)).menuOpen <==> insideMenu)
    ensures !s.menuOpen ==> !Step(s, MouseDown(insideMenu)).menuOpen
    ensures Step(s, MouseDown(insideMenu)).scrolled == s.scrolled
  {
  }

  /** A link click always leaves the menu closed, whether or not its target exists. */
  lemma LinkClickCloses(s: NavState, es: seq<NavEvent>, targetExists: bool)
    ensures !Run(s, es + [LinkClick(targetExists)]).menuOpen
  {
  }

  /** Toggling twice gives back the state before. */
  lemma ToggleTwice(s: NavState)
    ensures Step(Step(s, Toggle), Toggle) == s
    ensures Step(Step(s, HamburgerPress), HamburgerPress) == s
  {
  }

  /** The events that can change the menu. */
  predicate IsMenuEvent(e: NavEvent)
  {
    !e.Scroll?
  }

  function MenuEvents(es: seq<NavEvent>): (ms: seq<NavEvent>)
    ensures forall e :: e in ms <==> e in es && IsMenuEvent(e)
  {
    if es == [] then []
    else MenuEvents(es[..|es| - 1]) + (if IsMenuEvent(es[|es| - 1]) then [es[|es| - 1]] else [])
  }

  /** The menu flag after an event depends on the menu flag before it only. */
  lemma StepMenuDependsOnMenuOnly(a: NavState, b: NavState, e: NavEvent)
    requires a.menuOpen == b.menuOpen
    ensures Step(a, e).menuOpen == Step(b, e).menuOpen
  {
  }

  /** Whether the menu is open does not depend on any scrolling in between. */
  lemma {:induction false} MenuIgnoresScrolling(s: NavState, es: seq<NavEvent>)
    ensures Run(s, es).menuOpen == Run(s, MenuEvents(es)).menuOpen
    decreases |es|
  {
    if es != [] {
      var init, last := es[..|es| - 1], es[|es| - 1];
      MenuIgnoresScrolling(s, init);
      if IsMenuEvent(last) {
        var ms := MenuEvents(init) + [last];
        assert MenuEvents(es) == ms;
        assert ms[..|ms| - 1] == MenuEvents(init);
        assert Run(s, ms) == Step(Run(s, MenuEvents(init)), last);
        StepMenuDependsOnMenuOnly(Run(s, init), Run(s, MenuEvents(init)), last);
      } else {
        assert MenuEvents(es) == MenuEvents(init);
      }
    }
  }

  /** The last scroll offset in `es`, if there was a scroll. */
  function LastScroll(es: seq<NavEvent>): (y: Option<int>)
    ensures y.None? <==> forall e :: e in es ==> !e.Scroll?
    decreases |es|
  {
    if es == [] then None
    else if es[|es| - 1].Scroll? then Some(es[|es| - 1].scrollY)
    else
      assert forall e :: e in es <==> e in es[..|es| - 1] || e == es[|es| - 1];
      LastScroll(es[..|es| - 1])
  }

  /** The scroll flag depends on the last scroll offset only: menu events never
      change it. */
  lemma {:induction false} ScrolledIsLastScroll(s: NavState, es: seq<NavEvent>)
    ensures Run(s, es).scrolled ==
      match LastScroll(es)
      case None => s.scrolled
      case Some(y) => y > ScrollThreshold
    decreases |es|
  {
    if es != [] {
      ScrolledIsLastScroll(s, es[..|es| - 1]);
    }
  }

  /** The number of toggles in `es`. */
  function Toggles(es: seq<NavEvent>): nat
  {
    if es == [] then 0
    else Toggles(es[..|es| - 1]) + (if es[|es| - 1] == Toggle || es[|es| - 1] == HamburgerPress then 1 else 0)
  }

  /** Events that can only flip the menu or leave it as it is. */
  predicate NeverCloses(e: NavEvent)
  {
    e.Toggle? || e.HamburgerPress? || e.Scroll? || e == MouseDown(true)
  }

  /** As long as no link is clicked and no mousedown lands outside the menu, the
      menu is open exactly when it started open or was toggled an odd number of
      times, but not both. */
  lemma {:induction false} MenuFollowsToggleParity(s: NavState, es: seq<NavEvent>)
    requires forall e :: e in es ==> NeverCloses(e)
    ensures Run(s, es).menuOpen == (s.menuOpen != (Toggles(es) % 2 == 1))
    decreases |es|
  {
    if es != [] {
      var init := es[..|es| - 1];
      assert forall e :: e in init ==> e in es;
      assert es[|es| - 1] in es;
      MenuFollowsToggleParity(s, init);
    }
  }

  /** The hamburger as the bar wires it: its mousedown lands outside the menu and
      closes it, then its click (assuming the browser still delivers it after the
      re-render has swapped the icon) toggles the closed menu open again, so pressing
      it never leaves the menu closed. */
  lemma HamburgerAsWrittenNeverCloses(s: NavState)
    ensures Run(s, [MouseDown(false), Toggle]).menuOpen
  {
  }

  /** A press on the hamburger, with its mousedown not treated as outside the menu,
      closes an open menu and opens a closed one. */
  lemma HamburgerPressFlips(s: NavState)
    ensures Step(s, HamburgerPress).menuOpen == !s.menuOpen
    ensures s.menuOpen ==> !Step(s, HamburgerPress).menuOpen
    ensures Step(s, HamburgerPress).scrolled == s.scrolled
  {
  }

  /** The bar while it is on the page: its two flags and its two global listeners. */
  class NavMenu {
    var scrolled: bool
    var menuOpen: bool
    var mounted: bool
    /** The window "scroll" listener is registered. */
    var scrollListening: bool
    /** The document "mousedown" listener that detects outside clicks is registered. */
    var mousedownListening: bool

    /** The scroll listener lives as long as the bar is mounted; the outside-click
        listener is registered exactly while the menu is open. */
    ghost predicate Valid()
      reads this
    {
      scrollListening == mounted && mousedownListening == (mounted && menuOpen)
    }

    function State(): NavState
      reads this
    {
      NavState(scrolled, menuOpen)
    }

    /** Mounting registers the scroll listener; the menu starts closed. */
    constructor ()
      ensures Valid() && mounted
      ensures State() == Initial
      ensures scrollListening && !mousedownListening
    {
      scrolled, menuOpen := false, false;
      mounted := true;
      scrollListening, mousedownListening := true, false;
    }

    /** The scroll listener, called with the window's new vertical offset. */
    method OnScroll(scrollY: int)
      requires Valid() && scrollListening
      modifies this
      ensures Valid() && mounted == old(mounted)
      ensures State() == Step(old(State()), Scroll(scrollY))
      ensures scrolled <==> scrollY > ScrollThreshold
      ensures menuOpen == old(menuOpen)
    {
      scrolled := scrollY > ScrollThreshold;
    }

    /** Re-running the outside-click effect after the menu flag changed: the old
        listener is removed and a new one is added only if the menu is open. */
    method SyncOutsideListener()
      requires mounted
      modifies this`mousedownListening
      ensures mousedownListening == menuOpen
    {
      mousedownListening := false;
      if menuOpen {
        mousedownListening := true;
      }
    }

    /** The hamburger button's click handler. */
    method Toggle()
      requires Valid() && mounted
      modifies this
      ensures Valid() && mounted
      ensures State() == Step(old(State()), NavEvent.Toggle)
      ensures menuOpen == !old(menuOpen)
    {
      menuOpen := !menuOpen;
      SyncOutsideListener();
    }

    /** A mousedown on the page; only the registered outside-click listener reacts,
        closing the menu when the target is outside it. */
    method MouseDown(insideMenu: bool)
      requires Valid() && mounted
      modifies this
      ensures Valid() && mounted
      ensures State() == Step(old(State()), NavEvent.MouseDown(insideMenu))
    {
      if mousedownListening && !insideMenu {
        menuOpen := false;
        SyncOutsideListener();
      }
    }

    /** A click on a navigation link: close the menu, and report whether the page
        scrolls to the link's target (a missing target is silently ignored). */
    method LinkClick(targetExists: bool) returns (scrollsToTarget: bool)
      requires Valid() && mounted
      modifies this
      ensures Valid() && mounted
      ensures State() == Step(old(State()), NavEvent.LinkClick(targetExists))
      ensures !menuOpen && !mousedownListening
      ensures scrollsToTarget == targetExists
    {
      menuOpen := false;
      SyncOutsideListener();
      scrollsToTarget := targetExists;
    }

    /** A press on the hamburger as the bar wires it: the press's mousedown reaches
        the outside-click listener, then its click toggles. This assumes the browser
        still delivers the click after the mousedown's re-render has replaced the
        pressed icon. */
    method PressHamburgerAsWritten()
      requires Valid() && mounted
      modifies this
      ensures Valid() && mounted
      ensures State() == Run(old(State()), [NavEvent.MouseDown(false), NavEvent.Toggle])
      ensures menuOpen
    {
      ghost var s := State();
      MouseDown(false);
      Toggle();
      assert [NavEvent.MouseDown(false), NavEvent.Toggle][..1] == [NavEvent.MouseDown(false)];
      assert [NavEvent.MouseDown(false)][..0] == [];
      HamburgerAsWrittenNeverCloses(s);
    }

    /** A press on the hamburger with the outside-click listener ignoring mousedowns
        on the hamburger itself: only the click's toggle takes effect. */
    method PressHamburger()
      requires Valid() && mounted
      modifies this
      ensures Valid() && mounted
      ensures State() == Step(old(State()), HamburgerPress)
      ensures menuOpen == !old(menuOpen)
    {
      Toggle();
    }

    /** Unmounting removes both listeners. */
    method Unmount()
      requires Valid() && mounted
      modifies this
      ensures Valid() && !mounted
      ensures !scrollListening && !mousedownListening
      ensures State() == old(State())
    {
      mounted := false;
      scrollListening, mousedownListening := false, false;
    }
  }
}
