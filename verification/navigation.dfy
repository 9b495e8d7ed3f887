/** The section tracker of `initNavigation` (script.js:13-55).

    A scroll handler finds the first of the four page sections whose vertical
    extent contains the scroll position plus 100, and when that section differs
    from the remembered `activeSection` it records it and re-marks the tabs.  A
    click on a tab re-marks the tabs for that tab's `data-section` but leaves
    `activeSection` alone, so the two can drift apart.
 */
module Navigation {

  datatype Option<T> = None | Some(value: T)

  /** Header compensation added to `window.scrollY`. */
  const ProbeOffset: int := 100

  /** The sections the scroll handler scans, in scan order. */
  const SectionIds: seq<string> := ["home", "services", "portfolio", "contact"]

  /** An element's `offsetTop` and `offsetHeight`. */
  datatype Extent = Extent(top: int, height: nat)

  /** The sections present in the document, by id; an id that is not a key
      has no element and is skipped. */
  type Layout = map<string, Extent>

  /** A `.tab-trigger`: its `data-section` attribute, absent or a string, and
      whether it carries the `active` class. */
  datatype Tab = Tab(section: Option<string>, active: bool)

  datatype Nav = Nav(activeSection: string, tabs: seq<Tab>)

  /** The state right after `initNavigation`: `activeSection` is `home` and
      the tabs are as the markup left them. */
  function Initial(tabs: seq<Tab>): Nav {
    Nav("home", tabs)
  }

  predicate Covers(e: Extent, y: int) {
    e.top <= y < e.top + e.height
  }

  /** The section at index `k` of `ids` exists and contains `y`. */
  predicate Hit(ids: seq<string>, layout: Layout, y: int, k: int)
    requires 0 <= k < |ids|
  {
    ids[k] in layout && Covers(layout[ids[k]], y)
  }

  /** Index of the first section of `ids`, from index `k` on, that exists and
      contains `y`. */
  function FirstHitFrom(ids: seq<string>, layout: Layout, y: int, k: nat): (r: Option<nat>)
    requires k <= |ids|
    ensures r.Some? ==> k <= r.value < |ids| && Hit(ids, layout, y, r.value)
    ensures r.Some? ==> forall j :: k <= j < r.value ==> !Hit(ids, layout, y, j)
    ensures r.None? ==> forall j :: k <= j < |ids| ==> !Hit(ids, layout, y, j)
    decreases |ids| - k
  {
    if k == |ids| then None
    else if ids[k] in layout && Covers(layout[ids[k]], y) then Some(k)
    else FirstHitFrom(ids, layout, y, k + 1)
  }

  /** The section the scroll handler settles on for scroll offset
      `scrollY`, if any. */
  function Target(layout: Layout, scrollY: int): Option<string> {
    match FirstHitFrom(SectionIds, layout, scrollY + ProbeOffset, 0)
    case None => None
    case Some(k) => Some(SectionIds[k])
  }

  /** `setActiveTab(sectionId)`: every tab loses `active`, then the tabs whose
      `data-section` equals `sectionId` get it back.  A click on a tab with
      no `data-section` passes null, which marks every such tab. */
  function SetActiveTab(tabs: seq<Tab>, sectionId: Option<string>): (r: seq<Tab>)
    ensures |r| == |tabs|
    ensures forall i :: 0 <= i < |tabs| ==> r[i].section == tabs[i].section
    ensures forall i :: 0 <= i < |tabs| ==> (r[i].active <==> tabs[i].section == sectionId)
  {
    if tabs == [] then []
    else [Tab(tabs[0].section, tabs[0].section == sectionId)] + SetActiveTab(tabs[1..], sectionId)
  }

  /** The scroll handler. */
  function OnScroll(nav: Nav, layout: Layout, scrollY: int): (r: Nav)
    ensures r.activeSection == nav.activeSection || Target(layout, scrollY) == Some(r.activeSection)
    ensures r.activeSection == nav.activeSection ==> r == nav
    ensures |r.tabs| == |nav.tabs|
  {
    match Target(layout, scrollY)
    case None => nav
    case Some(id) =>
      if id == nav.activeSection then nav
      else Nav(id, SetActiveTab(nav.tabs, Some(id)))
  }

  /** The click handler of tab `i`: only the tab marks change.  The smooth
      scroll it starts is a browser effect; the scroll events it causes are
      further `OnScroll` steps. */
  function OnTabClick(nav: Nav, i: nat): (r: Nav)
    requires i < |nav.tabs|
    ensures r.activeSection == nav.activeSection && |r.tabs| == |nav.tabs|
    ensures forall j :: 0 <= j < |nav.tabs| ==>
      r.tabs[j].section == nav.tabs[j].section && (r.tabs[j].active <==> nav.tabs[j].section == nav.tabs[i].section)
  {
    Nav(nav.activeSection, SetActiveTab(nav.tabs, nav.tabs[i].section))
  }

  /* ---------------------------------------------------------- properties */

  /** `id` is the first section in scan order that exists and contains `y`. */
  ghost predicate FirstCovering(layout: Layout, y: int, id: string) {
    exists k :: 0 <= k < |SectionIds| && SectionIds[k] == id && Hit(SectionIds, layout, y, k)
      && forall j :: 0 <= j < k ==> !Hit(SectionIds, layout, y, j)
  }

  /** Some existing section contains `y`. */
  ghost predicate SomeCovering(layout: Layout, y: int) {
    exists k :: 0 <= k < |SectionIds| && Hit(SectionIds, layout, y, k)
  }

  /** The tabs are marked for `id`: exactly those whose `data-section` is
      `id` carry `active`. */
  predicate MarkedFor(tabs: seq<Tab>, id: string) {
    forall i :: 0 <= i < |tabs| ==> (tabs[i].active <==> tabs[i].section == Some(id))
  }

  /** A scroll moves `activeSection` to the first existing section that
      contains the probe, and re-marks the tabs for it when it changed; when
      no section contains the probe nothing changes. */
  lemma ScrollTracksFirstCovering(nav: Nav, layout: Layout, scrollY: int)
    ensures var r := OnScroll(nav, layout, scrollY);
      && (SomeCovering(layout, scrollY + ProbeOffset) ==>
            FirstCovering(layout, scrollY + ProbeOffset, r.activeSection))
      && (!SomeCovering(layout, scrollY + ProbeOffset) ==> r == nav)
      && (r.activeSection == nav.activeSection ==> r == nav)
      && (r.activeSection != nav.activeSection ==>
            |r.tabs| == |nav.tabs| && MarkedFor(r.tabs, r.activeSection)
            && forall i :: 0 <= i < |nav.tabs| ==> r.tabs[i].section == nav.tabs[i].section)
  {
    var y := scrollY + ProbeOffset;
    var hit := FirstHitFrom(SectionIds, layout, y, 0);
    if hit.Some? {
      assert FirstCovering(layout, y, SectionIds[hit.value]);
    }
  }

  /** Overlapping extents are resolved in scan order. */
  lemma EarlierSectionWins(nav: Nav, layout: Layout, scrollY: int, a: nat, b: nat)
    requires a < b < |SectionIds|
    requires Hit(SectionIds, layout, scrollY + ProbeOffset, a) && Hit(SectionIds, layout, scrollY + ProbeOffset, b)
    ensures OnScroll(nav, layout, scrollY).activeSection != SectionIds[b]
  {
    var hit := FirstHitFrom(SectionIds, layout, scrollY + ProbeOffset, 0);
    assert hit.Some? && hit.value <= a;
  }

  /** Scrolling keeps the tabs in step with `activeSection` once they are. */
  lemma ScrollKeepsMarks(nav: Nav, layout: Layout, scrollY: int)
    requires MarkedFor(nav.tabs, nav.activeSection)
    ensures MarkedFor(OnScroll(nav, layout, scrollY).tabs, OnScroll(nav, layout, scrollY).activeSection)
  {
  }

  /** A click marks the clicked tab, whatever `activeSection` is. */
  lemma ClickMarksClickedTab(nav: Nav, i: nat)
    requires i < |nav.tabs|
    ensures OnTabClick(nav, i).activeSection == nav.activeSection
    ensures OnTabClick(nav, i).tabs[i].active
    ensures forall j :: 0 <= j < |nav.tabs| ==>
      (OnTabClick(nav, i).tabs[j].active <==> nav.tabs[j].section == nav.tabs[i].section)
  {
  }

  /** The drift: after a click on the tab of another section, a scroll that
      lands back in the remembered section leaves the clicked tab marked and
      every tab of the remembered section unmarked. */
  lemma {:induction false} ClickThenScrollBackIsStale(nav: Nav, layout: Layout, scrollY: int, i: nat)
    requires i < |nav.tabs| && nav.tabs[i].section.Some? && nav.tabs[i].section.value != nav.activeSection
    requires Target(layout, scrollY) == Some(nav.activeSection)
    ensures var r := OnScroll(OnTabClick(nav, i), layout, scrollY);
      && r.activeSection == nav.activeSection
      && r.tabs[i].active
      && forall j :: 0 <= j < |r.tabs| && r.tabs[j].section == Some(nav.activeSection) ==> !r.tabs[j].active
  {
    var clicked := OnTabClick(nav, i);
    assert OnScroll(clicked, layout, scrollY) == clicked;
  }

  /** `setActiveTab` forgets the previous marks: the last call decides. */
  lemma {:induction false} SetActiveTabLastWins(tabs: seq<Tab>, a: Option<string>, b: Option<string>)
    ensures SetActiveTab(SetActiveTab(tabs, a), b) == SetActiveTab(tabs, b)
  {
    var once := SetActiveTab(tabs, b);
    var twice := SetActiveTab(SetActiveTab(tabs, a), b);
    assert |twice| == |once|;
    forall i | 0 <= i < |once| ensures twice[i] == once[i] {
    }
  }

  /** From start-up on, `activeSection` is always one of the four section
      ids. */
  lemma StartUpActiveIsSection(tabs: seq<Tab>, layout: Layout, events: seq<NavEvent>)
    ensures Run(Initial(tabs), layout, events).activeSection in SectionIds
  {
    RunActiveIsSection(Initial(tabs), layout, events);
  }

  /** All tabs carrying `active` belong to one section (or all lack one). */
  predicate Coherent(tabs: seq<Tab>) {
    forall i, j :: 0 <= i < |tabs| && 0 <= j < |tabs| && tabs[i].active && tabs[j].active ==>
      tabs[i].section == tabs[j].section
  }

  datatype NavEvent = Scrolled(scrollY: int) | TabClicked(tab: nat)

  /** A run of scroll and click events against a fixed layout; a click on a
      tab that does not exist is not an event. */
  function Run(nav: Nav, layout: Layout, events: seq<NavEvent>): Nav
    decreases |events|
  {
    if events == [] then nav
    else
      var next := match events[0]
        case Scrolled(y) => OnScroll(nav, layout, y)
        case TabClicked(i) => if i < |nav.tabs| then OnTabClick(nav, i) else nav;
      Run(next, layout, events[1..])
  }

  /** Once the tabs are coherent every event keeps them so, and the tab list
      itself never changes. */
  lemma {:induction false} RunKeepsCoherent(nav: Nav, layout: Layout, events: seq<NavEvent>)
    requires Coherent(nav.tabs)
    ensures Coherent(Run(nav, layout, events).tabs)
    ensures |Run(nav, layout, events).tabs| == |nav.tabs|
    ensures forall i :: 0 <= i < |nav.tabs| ==> Run(nav, layout, events).tabs[i].section == nav.tabs[i].section
    decreases |events|
  {
    if events != [] {
      var next := match events[0]
        case Scrolled(y) => OnScroll(nav, layout, y)
        case TabClicked(i) => if i < |nav.tabs| then OnTabClick(nav, i) else nav;
      assert Coherent(next.tabs);
      RunKeepsCoherent(next, layout, events[1..]);
    }
  }

  /** `activeSection` only ever holds `home` or a section id. */
  lemma {:induction false} RunActiveIsSection(nav: Nav, layout: Layout, events: seq<NavEvent>)
    requires nav.activeSection in SectionIds
    ensures Run(nav, layout, events).activeSection in SectionIds
    decreases |events|
  {
    if events != [] {
      var next := match events[0]
        case Scrolled(y) => OnScroll(nav, layout, y)
        case TabClicked(i) => if i < |nav.tabs| then OnTabClick(nav, i) else nav;
      RunActiveIsSection(next, layout, events[1..]);
    }
  }
}
