/** The enhanced navigation bar (components/portfolio/navigation-enhanced.tsx): the
    scrolled flag, the active-section scan run on every scroll event, the highlight of the
    nav items and the mobile menu. The document is given by the caller as a map from
    element id to the element's bounding rectangle (integers), and `scrollY` likewise. */
module NavigationEnhanced {
  import opened Text

  datatype NavItem = NavItem(name: string, href: string)

  const NavItems: seq<NavItem> := [
    NavItem("Origin", "#origin"),
    NavItem("Arsenal", "#arsenal"),
    NavItem("Creations", "#creations"),
    NavItem("Journey", "#journey"),
    NavItem("Connect", "#connect")
  ]

  /** `href.slice(1)`: the href without its first character. */
  function SectionId(href: string): string
  {
    if |href| == 0 then "" else href[1..]
  }

  /** The section ids, in nav order. */
  function SectionIds(items: seq<NavItem>): (r: seq<string>)
    ensures |r| == |items|
    ensures forall i :: 0 <= i < |items| ==> r[i] == SectionId(items[i].href)
  {
    if |items| == 0 then [] else [SectionId(items[0].href)] + SectionIds(items[1..])
  }

  /** `getBoundingClientRect()`'s vertical extent. */
  datatype Rect = Rect(top: int, bottom: int)

  /** The probe line 100px below the viewport top lies within the element. */
  predicate Hit(dom: map<string, Rect>, id: string)
  {
    id in dom && dom[id].top <= 100 && dom[id].bottom >= 100
  }

  /** Reference: the position of the first id whose element exists and is hit. */
  function FirstHit(ids: seq<string>, dom: map<string, Rect>): (r: Option<nat>)
    ensures r.Some? ==> r.value < |ids| && Hit(dom, ids[r.value])
    ensures r.Some? ==> forall j :: 0 <= j < r.value ==> !Hit(dom, ids[j])
    ensures r.None? ==> forall j :: 0 <= j < |ids| ==> !Hit(dom, ids[j])
  {
    if |ids| == 0 then None
    else if Hit(dom, ids[0]) then Some(0)
    else
      match FirstHit(ids[1..], dom)
      case None => None
      case Some(k) => Some(k + 1)
  }

  datatype Nav = Nav(isScrolled: bool, isMobileMenuOpen: bool, activeSection: string)

  const Init := Nav(false, false, "")

  /** The loop of `handleScroll`: the first hit id, or the current section unchanged. */
  method ScanSections(ids: seq<string>, dom: map<string, Rect>, current: string)
    returns (active: string)
    ensures FirstHit(ids, dom).Some? ==> active == ids[FirstHit(ids, dom).value]
    ensures FirstHit(ids, dom).None? ==> active == current
  {
    active := current;
    var i := 0;
    while i < |ids|
      invariant 0 <= i <= |ids|
      invariant forall j :: 0 <= j < i ==> !Hit(dom, ids[j])
      invariant active == current
    {
      var section := ids[i];
      if section in dom {
        var rect := dom[section];
        if rect.top <= 100 && rect.bottom >= 100 {
          active := section;
          FirstHitIs(ids, dom, i);
          return;
        }
      }
      i := i + 1;
    }
    FirstHitNone(ids, dom);
  }

  lemma FirstHitIs(ids: seq<string>, dom: map<string, Rect>, i: nat)
    requires i < |ids| && Hit(dom, ids[i])
    requires forall j :: 0 <= j < i ==> !Hit(dom, ids[j])
    ensures FirstHit(ids, dom) == Some(i)
  {
  }

  lemma FirstHitNone(ids: seq<string>, dom: map<string, Rect>)
    requires forall j :: 0 <= j < |ids| ==> !Hit(dom, ids[j])
    ensures FirstHit(ids, dom).None?
  {
  }

  /** `handleScroll`: the scrolled flag follows `scrollY`, and the active section becomes
      the first section in nav order whose element lies under the probe line, or stays as
      it was when there is none. */
  method HandleScroll(nav: Nav, scrollY: int, dom: map<string, Rect>) returns (r: Nav)
    ensures r.isScrolled <==> scrollY > 50
    ensures r.isMobileMenuOpen == nav.isMobileMenuOpen
    ensures r.activeSection ==
      (if FirstHit(SectionIds(NavItems), dom).Some?
       then SectionIds(NavItems)[FirstHit(SectionIds(NavItems), dom).value]
       else nav.activeSection)
    ensures FirstHit(SectionIds(NavItems), dom).Some? ==> Hit(dom, r.activeSection)
  {
    var ids := SectionIds(NavItems);
    var active := ScanSections(ids, dom, nav.activeSection);
    r := Nav(scrollY > 50, nav.isMobileMenuOpen, active);
  }

  /** An item is highlighted when the active section is its href without `#`. */
  predicate Highlighted(nav: Nav, item: NavItem)
  {
    nav.activeSection == SectionId(item.href)
  }

  /** The section ids of the nav bar, in nav order. */
  lemma NavIds()
    ensures SectionIds(NavItems) == ["origin", "arsenal", "creations", "journey", "connect"]
  {
  }

  /** The section ids of the nav bar are pairwise distinct. */
  lemma NavIdsDistinct()
    ensures forall i, j :: 0 <= i < j < |NavItems| ==>
      SectionId(NavItems[i].href) != SectionId(NavItems[j].href)
  {
    forall i, j | 0 <= i < j < |NavItems|
      ensures SectionId(NavItems[i].href) != SectionId(NavItems[j].href)
    {
      var a, b := SectionId(NavItems[i].href), SectionId(NavItems[j].href);
      assert a[0] != b[0] || |a| != |b|;
    }
  }

  /** Nothing is highlighted at first; after a scroll that hits the section of item `i`,
      item `i` and no other is highlighted. */
  lemma HighlightExactlyOne(nav: Nav, i: nat)
    requires i < |NavItems| && nav.activeSection == SectionId(NavItems[i].href)
    ensures forall k :: 0 <= k < |NavItems| ==> !Highlighted(Init, NavItems[k])
    ensures forall k :: 0 <= k < |NavItems| ==> (Highlighted(nav, NavItems[k]) <==> k == i)
  {
    NavIdsDistinct();
    forall k | 0 <= k < |NavItems|
      ensures !Highlighted(Init, NavItems[k])
    {
      assert |SectionId(NavItems[k].href)| > 0;
    }
  }

  /** The menu button negates the open flag and touches nothing else. */
  function ToggleMenu(nav: Nav): (r: Nav)
    ensures r.isMobileMenuOpen != nav.isMobileMenuOpen
    ensures r.isScrolled == nav.isScrolled && r.activeSection == nav.activeSection
  {
    nav.(isMobileMenuOpen := !nav.isMobileMenuOpen)
  }

  /** Pressing the menu button twice restores the state. */
  lemma ToggleMenuTwice(nav: Nav)
    ensures ToggleMenu(ToggleMenu(nav)) == nav
  {
  }

  /** A mobile item click closes the menu. */
  function ClickMobileItem(nav: Nav): (r: Nav)
    ensures !r.isMobileMenuOpen
    ensures r.activeSection == nav.activeSection && r.isScrolled == nav.isScrolled
  {
    nav.(isMobileMenuOpen := false)
  }
}
