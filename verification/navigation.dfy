/** The navigation bar: the mobile menu opened and closed by the hamburger
    button, and the scroll listeners that shade the bar, show the
    back-to-top button and highlight the link of the section being read. */
module Navigation {

  /** A `section[id]` element: its id and its offsetTop in pixels. */
  datatype Section = Section(id: string, top: int)

  /** The highlight switches to a section 200 pixels before its top reaches
      the top of the window. `scrollY` may be fractional; section tops are
      whole pixels. */
  predicate Reached(s: Section, scrollY: real) {
    scrollY >= (s.top - 200) as real
  }

  /** The position of the last section, in document order, that the window
      has reached, or -1 when it has reached none. */
  function LastReached(sections: seq<Section>, scrollY: real): (k: int)
    ensures -1 <= k < |sections|
    ensures 0 <= k ==> Reached(sections[k], scrollY)
    ensures forall j :: k < j < |sections| ==> !Reached(sections[j], scrollY)
  {
    if sections == [] then -1
    else if Reached(sections[|sections| - 1], scrollY) then |sections| - 1
    else LastReached(sections[..|sections| - 1], scrollY)
  }

  /** The id the handler settles on: the last reached section's, or the
      empty string. */
  function CurrentId(sections: seq<Section>, scrollY: real): (id: string)
    ensures (forall j :: 0 <= j < |sections| ==> !Reached(sections[j], scrollY)) ==> id == ""
    ensures forall k ::
      (0 <= k < |sections| && Reached(sections[k], scrollY)
       && (forall j :: k < j < |sections| ==> !Reached(sections[j], scrollY)))
      ==> id == sections[k].id
  {
    var k := LastReached(sections, scrollY);
    if k < 0 then "" else sections[k].id
  }

  /** Scrolling further down never moves the highlight to an earlier
      section. */
  lemma ScrollingDownNeverMovesBack(sections: seq<Section>, y1: real, y2: real)
    requires y1 <= y2
    ensures LastReached(sections, y1) <= LastReached(sections, y2)
  {
  }

  /** With the sections in increasing order of their tops, the highlight is
      on section `k` exactly while the window is between the switching
      points of `k` and of the section after it. */
  lemma SortedSectionsBands(sections: seq<Section>, scrollY: real, k: int)
    requires forall i, j :: 0 <= i < j < |sections| ==> sections[i].top <= sections[j].top
    requires 0 <= k < |sections|
    ensures LastReached(sections, scrollY) == k <==>
      Reached(sections[k], scrollY)
      && (k + 1 == |sections| || !Reached(sections[k + 1], scrollY))
  {
  }

  /** Where a click lands, for the three click listeners of the menu. */
  datatype ClickTarget = OnHamburger | OnNavLink | InsideMenu | Elsewhere

  /** The navigation bar's state: the `active` classes of the menu and of
      the hamburger button, the bar's `scrolled` class, whether the
      back-to-top button is displayed, and the `active` class of each nav
      link (whose hrefs are fixed). */
  class NavBar {
    var menuActive: bool
    var hamburgerActive: bool
    var scrolled: bool
    var backToTopShown: bool
    const hrefs: seq<string>
    const linkActive: array<bool>

    ghost predicate Valid()
      reads this
    {
      linkActive.Length == |hrefs|
    }

    /** The menu and the hamburger are open together or closed together. */
    predicate InSync()
      reads this
    {
      menuActive == hamburgerActive
    }

    /** The page as loaded: the menu closed, at the top, no link active. */
    constructor (links: seq<string>)
      ensures Valid() && InSync() && !menuActive
      ensures !scrolled && !backToTopShown
      ensures hrefs == links && fresh(linkActive)
      ensures forall i :: 0 <= i < linkActive.Length ==> !linkActive[i]
    {
      menuActive := false;
      hamburgerActive := false;
      scrolled := false;
      backToTopShown := false;
      hrefs := links;
      linkActive := new bool[|links|](_ => false);
    }

    /** The hamburger's listener: toggle both classes. */
    method HamburgerClick()
      modifies this
      ensures menuActive == !old(menuActive) && hamburgerActive == !old(hamburgerActive)
      ensures old(InSync()) ==> InSync()
      ensures scrolled == old(scrolled) && backToTopShown == old(backToTopShown)
    {
      menuActive := !menuActive;
      hamburgerActive := !hamburgerActive;
    }

    /** A nav link's listener: close both. */
    method NavLinkClick()
      modifies this
      ensures !menuActive && !hamburgerActive && InSync()
      ensures scrolled == old(scrolled) && backToTopShown == old(backToTopShown)
    {
      menuActive := false;
      hamburgerActive := false;
    }

    /** The document's listener: a click outside the menu and off the
        hamburger closes both if the menu is open; any other click changes
        nothing. */
    method DocumentClick(insideNav: bool, onHamburger: bool)
      modifies this
      ensures !insideNav && !onHamburger && old(menuActive) ==> !menuActive && !hamburgerActive
      ensures insideNav || onHamburger || !old(menuActive) ==>
        menuActive == old(menuActive) && hamburgerActive == old(hamburgerActive)
      ensures old(InSync()) ==> InSync()
      ensures scrolled == old(scrolled) && backToTopShown == old(backToTopShown)
    {
      if !insideNav && !onHamburger && menuActive {
        menuActive := false;
        hamburgerActive := false;
      }
    }

    /** One click, with its listeners in the order the event reaches them:
        the target's own listener first, then the document's as the event
        bubbles up. */
    method Click(target: ClickTarget)
      modifies this
      ensures target == OnHamburger ==>
        menuActive == !old(menuActive) && hamburgerActive == !old(hamburgerActive)
      ensures target == OnNavLink || (target == Elsewhere && old(menuActive)) ==>
        !menuActive && !hamburgerActive
      ensures target == InsideMenu || (target == Elsewhere && !old(menuActive)) ==>
        menuActive == old(menuActive) && hamburgerActive == old(hamburgerActive)
      ensures old(InSync()) ==> InSync()
      ensures scrolled == old(scrolled) && backToTopShown == old(backToTopShown)
    {
      match target
      case OnHamburger =>
        HamburgerClick();
        DocumentClick(false, true);
      case OnNavLink =>
        NavLinkClick();
        DocumentClick(true, false);
      case InsideMenu =>
        DocumentClick(true, false);
      case Elsewhere =>
        DocumentClick(false, false);
    }

    /** The second pass of the highlighting handler: exactly the links
        pointing at `#current` are active. */
    method HighlightLinks(current: string)
      requires Valid()
      modifies linkActive
      ensures forall i :: 0 <= i < linkActive.Length ==> linkActive[i] == (hrefs[i] == "#" + current)
    {
      var i := 0;
      while i < linkActive.Length
        invariant 0 <= i <= linkActive.Length
        invariant forall j :: 0 <= j < i ==> linkActive[j] == (hrefs[j] == "#" + current)
      {
        linkActive[i] := hrefs[i] == "#" + current;
        i := i + 1;
      }
    }

    /** One scroll event, with the three scroll listeners in the order they
        were added: the bar's shading, the highlighting, the back-to-top
        button. */
    method OnScroll(sections: seq<Section>, scrollY: real)
      requires Valid()
      modifies this, linkActive
      ensures Valid()
      ensures scrolled == (scrollY > 50.0) && backToTopShown == (scrollY > 300.0)
      ensures menuActive == old(menuActive) && hamburgerActive == old(hamburgerActive)
      ensures forall i :: 0 <= i < linkActive.Length ==>
        linkActive[i] == (hrefs[i] == "#" + CurrentId(sections, scrollY))
    {
      scrolled := scrollY > 50.0;
      var current := ActiveSection(sections, scrollY);
      HighlightLinks(current);
      backToTopShown := scrollY > 300.0;
    }
  }

  /** The first pass of the highlighting handler: walk the sections in
      document order and remember the id of each one reached. */
  method ActiveSection(sections: seq<Section>, scrollY: real) returns (current: string)
    ensures current == CurrentId(sections, scrollY)
  {
    current := "";
    var i := 0;
    while i < |sections|
      invariant 0 <= i <= |sections|
      invariant current == CurrentId(sections[..i], scrollY)
    {
      assert sections[..i + 1][..i] == sections[..i];
      if Reached(sections[i], scrollY) {
        current := sections[i].id;
      }
      i := i + 1;
    }
    assert sections[..i] == sections;
  }
}
