/**
 * The content pane: which tab it shows, which page it renders and the
 * title in its breadcrumb, all read from a snapshot of the store.
 */
module TabContent {
  import opened Wrappers
  import opened Pages
  import opened TabStore

  /** `tabs.find(t => t.id === activeTabId)`: the first tab carrying the active id, if any. */
  function Find(tabs: seq<Tab>, activeTabId: Option<TabId>): (r: Option<Tab>)
    ensures r.Some? <==> activeTabId.Some? && HasId(tabs, activeTabId.value)
    ensures r.Some? ==> r.value in tabs && r.value.id == activeTabId.value
  {
    if |tabs| == 0 then None
    else if Some(tabs[0].id) == activeTabId then Some(tabs[0])
    else
      var r := Find(tabs[1..], activeTabId);
      assert r.Some? ==> r.value in tabs;
      assert activeTabId.Some? && HasId(tabs, activeTabId.value) ==> HasId(tabs[1..], activeTabId.value) by {
        if activeTabId.Some? && HasId(tabs, activeTabId.value) {
          var i :| 0 <= i < |tabs| && tabs[i].id == activeTabId.value;
          assert tabs[1..][i - 1] == tabs[i];
        }
      }
      r
  }

  /** `find(...) ?? tabs[0]`: the tab shown, or none when there are no tabs. */
  function Displayed(tabs: seq<Tab>, activeTabId: Option<TabId>): (r: Option<Tab>)
    ensures r.None? <==> tabs == []
    ensures r.Some? ==> r.value in tabs
    ensures activeTabId.Some? && HasId(tabs, activeTabId.value) ==> r.value.id == activeTabId.value
    ensures tabs != [] && !(activeTabId.Some? && HasId(tabs, activeTabId.value)) ==> r == Some(tabs[0])
  {
    match Find(tabs, activeTabId)
    case Some(t) => Some(t)
    case None => if tabs == [] then None else Some(tabs[0])
  }

  /** `active?.component ?? BerandaPage`: the page rendered in the pane. */
  function RenderedPage(tabs: seq<Tab>, activeTabId: Option<TabId>): (p: Page)
    ensures tabs == [] ==> p == Beranda
    ensures Displayed(tabs, activeTabId).Some? ==> p == Displayed(tabs, activeTabId).value.page
    ensures tabs != [] ==> exists i :: 0 <= i < |tabs| && tabs[i].page == p
    ensures activeTabId.Some? && HasId(tabs, activeTabId.value) ==>
      exists i :: 0 <= i < |tabs| && tabs[i].id == activeTabId.value && tabs[i].page == p
  {
    match Displayed(tabs, activeTabId)
    case Some(t) =>
      assert exists i :: 0 <= i < |tabs| && tabs[i] == t;
      t.page
    case None => Beranda
  }

  /** `active?.title || 'Beranda'`: an empty title is falsy and falls back too. */
  function BreadcrumbTitle(tabs: seq<Tab>, activeTabId: Option<TabId>): (title: string)
    ensures title != ""
    ensures Displayed(tabs, activeTabId).None? || Displayed(tabs, activeTabId).value.title == "" ==>
      title == HomeTitle
    ensures Displayed(tabs, activeTabId).Some? && Displayed(tabs, activeTabId).value.title != "" ==>
      title == Displayed(tabs, activeTabId).value.title
  {
    match Displayed(tabs, activeTabId)
    case Some(t) => if t.title != "" then t.title else HomeTitle
    case None => HomeTitle
  }

  /** `find` and the store's `findIndex` agree on which tab carries an id. */
  lemma {:induction false} FindAgreesWithFindIndex(tabs: seq<Tab>, id: TabId)
    ensures Find(tabs, Some(id)) ==
      (if FindIndex(tabs, id) == -1 then None else Some(tabs[FindIndex(tabs, id)]))
  {
    if |tabs| > 0 && tabs[0].id != id {
      FindAgreesWithFindIndex(tabs[1..], id);
    }
  }

  /** With distinct ids, the tab carrying the active id is the one shown. */
  lemma {:induction false} DisplayedIsActive(s: Snapshot, k: nat)
    requires UniqueIds(s.tabs) && k < |s.tabs| && s.activeTabId == Some(s.tabs[k].id)
    ensures Displayed(s.tabs, s.activeTabId) == Some(s.tabs[k])
  {
  }

  /** Once the store holds a tab, the pane always shows one of them. */
  lemma {:induction false} ShowsATabOnceInitialised(s: Snapshot, freshId: TabId)
    ensures Displayed(Initialize(s, freshId).tabs, Initialize(s, freshId).activeTabId).Some?
  {
  }

  /** A newly added tab (fresh id) is the one the pane shows. */
  lemma {:induction false} AddedTabIsDisplayed(s: Snapshot, freshId: TabId, page: Page, title: string, icon: Icon)
    requires UniqueIds(s.tabs) && !HasId(s.tabs, freshId)
    ensures var r := AddTab(s, freshId, page, title, icon);
      Displayed(r.tabs, r.activeTabId) == Some(Tab(freshId, title, page, icon)) &&
      RenderedPage(r.tabs, r.activeTabId) == page
  {
  }

  /** Switching to an id no tab carries shows the first tab instead: the dangling id is harmless. */
  lemma {:induction false} DanglingShowsFirst(s: Snapshot, tabId: TabId)
    requires s.tabs != [] && !HasId(s.tabs, tabId)
    ensures var r := Switch(s, tabId);
      Displayed(r.tabs, r.activeTabId) == Some(s.tabs[0]) &&
      RenderedPage(r.tabs, r.activeTabId) == s.tabs[0].page
  {
  }
}
