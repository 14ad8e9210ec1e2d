/** The site header (script.js, `initNavigation`): the scroll handler, which
    sets the `scrolled` look past a fixed scroll distance and refreshes the
    active link, and the mobile menu opened by the hamburger
    button and closed by link clicks and clicks outside the header. */
module Navigation {

  import opened Wrappers
  import opened ActiveLink

  /** Scroll distance, in CSS pixels, past which the header is `scrolled`. */
  const ScrollThreshold := 40

  /** The header's `scrolled` class after a scroll event at `scrollY`. */
  predicate Scrolled(scrollY: int)
  {
    scrollY > ScrollThreshold
  }

  /** The threshold itself does not count: on whole pixels the header
      changes between 40 and 41. */
  lemma ScrolledBoundary(y: int)
    ensures !Scrolled(ScrollThreshold) && Scrolled(ScrollThreshold + 1)
    ensures Scrolled(y) <==> y >= ScrollThreshold + 1
  {
  }

  /** Once scrolled, the header stays so further down. */
  lemma ScrolledMonotone(y: int, y': int)
    requires y <= y'
    ensures Scrolled(y) ==> Scrolled(y')
  {
  }

  /** What a scroll event leaves on the page. */
  datatype Page = Page(scrolled: bool, anchors: seq<Anchor>)

  /** The scroll handler: update the header flag, then the active anchor. */
  function OnScroll(p: Page, sections: seq<Section>, scrollY: int): (r: Page)
    ensures r.scrolled <==> Scrolled(scrollY)
    ensures |r.anchors| == |p.anchors|
    ensures forall i :: 0 <= i < |r.anchors| ==> r.anchors[i].href == p.anchors[i].href
    ensures forall i :: 0 <= i < |r.anchors| ==>
      (r.anchors[i].active <==> p.anchors[i].href == Some("#" + ChosenId(sections, scrollY)))
  {
    CurrentIdIsLastReached(sections, scrollY);
    Page(Scrolled(scrollY), MarkAnchors(p.anchors, CurrentId(sections, scrollY)))
  }

  /** The menu: the link list's `open` class, the hamburger's `active` class
      and its `aria-expanded` attribute text. */
  datatype Menu = Menu(open: bool, hamburgerActive: bool, ariaExpanded: string)

  /** The text `setAttribute` stores for a boolean. */
  function AttrText(b: bool): string
  {
    if b then "true" else "false"
  }

  /** The hamburger shows the menu's state, visually and to assistive
      technology. */
  predicate Mirrored(m: Menu)
  {
    m.hamburgerActive == m.open && m.ariaExpanded == AttrText(m.open)
  }

  const Closed := Menu(false, false, "false")

  /** A click on the hamburger. */
  function Toggle(m: Menu): (r: Menu)
    ensures r.open == !m.open
    ensures Mirrored(r)
  {
    var isOpen := !m.open;
    Menu(isOpen, isOpen, AttrText(isOpen))
  }

  /** A click on any link of the menu. */
  function LinkClick(m: Menu): (r: Menu)
    ensures !r.open && Mirrored(r)
  {
    m.(open := false, hamburgerActive := false, ariaExpanded := "false")
  }

  /** The document-wide click handler; `insideHeader` says whether the click
      target lies inside the header. */
  function DocumentClick(m: Menu, insideHeader: bool): (r: Menu)
    ensures !insideHeader && m.open ==> !r.open && Mirrored(r)
    ensures !(!insideHeader && m.open) ==> r == m
  {
    if !insideHeader && m.open then Closed else m
  }

  /** A click somewhere on the page, in the order the handlers run: the
      target's own handler, then the document's as the event bubbles. The
      hamburger and the menu links lie inside the header. */
  datatype Click = OnHamburger | OnMenuLink | Elsewhere(insideHeader: bool)

  function OnClick(m: Menu, c: Click): Menu
  {
    match c
    case OnHamburger => DocumentClick(Toggle(m), true)
    case OnMenuLink => DocumentClick(LinkClick(m), true)
    case Elsewhere(inside) => DocumentClick(m, inside)
  }

  /** Bubbling to the document never undoes a hamburger or link click, and
      the menu opens only through the hamburger. */
  lemma ClickEffects(m: Menu, c: Click)
    ensures c == OnHamburger ==> OnClick(m, c) == Toggle(m)
    ensures c == OnMenuLink ==> OnClick(m, c) == Closed
    ensures c.Elsewhere? && c.insideHeader ==> OnClick(m, c) == m
    ensures c.Elsewhere? && !c.insideHeader ==> !OnClick(m, c).open
    ensures OnClick(m, c).open && !m.open ==> c == OnHamburger
  {
  }

  lemma ToggleTwice(m: Menu)
    requires Mirrored(m)
    ensures Toggle(Toggle(m)) == m
  {
  }

  function ClickAll(m: Menu, clicks: seq<Click>): Menu
    decreases |clicks|
  {
    if clicks == [] then m else ClickAll(OnClick(m, clicks[0]), clicks[1..])
  }

  /** Starting from a mirrored menu, every sequence of clicks keeps the
      hamburger in step with the menu. */
  lemma {:induction false} ClicksKeepMirrored(m: Menu, clicks: seq<Click>)
    requires Mirrored(m)
    ensures Mirrored(ClickAll(m, clicks))
    decreases |clicks|
  {
    if clicks != [] {
      ClickKeepsMirrored(m, clicks[0]);
      ClicksKeepMirrored(OnClick(m, clicks[0]), clicks[1..]);
    }
  }

  lemma ClickKeepsMirrored(m: Menu, c: Click)
    requires Mirrored(m)
    ensures Mirrored(OnClick(m, c))
  {
  }

  /** After `n` hamburger clicks the menu is open exactly when it started
      open and `n` is even, or started closed and `n` is odd. */
  lemma {:induction false} OpenAfterToggles(m: Menu, n: nat)
    requires Mirrored(m)
    ensures ClickAll(m, seq(n, _ => OnHamburger)).open == (m.open != (n % 2 == 1))
    ensures Mirrored(ClickAll(m, seq(n, _ => OnHamburger)))
    decreases n
  {
    if n > 0 {
      var rest := seq(n - 1, _ => OnHamburger);
      assert seq(n, _ => OnHamburger) == [OnHamburger] + rest;
      assert seq(n, _ => OnHamburger)[1..] == rest;
      OpenAfterToggles(Toggle(m), n - 1);
    }
  }
}
