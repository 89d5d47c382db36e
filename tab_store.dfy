/**
 * The tab session store: an ordered list of open tabs and the id of the
 * active one, changed by four transitions (initialise, add, switch, close).
 *
 * The transitions are first given as functions on a `Snapshot` of the
 * store's data, with lemmas about what they promise; the class `TabSession`
 * then holds that data in mutable fields, and each of its methods is proved
 * to perform exactly the corresponding function.
 */
module TabStore {
  import opened Wrappers
  import opened Pages

  /**
   * Tab ids. The source draws them from `crypto.randomUUID()` (or a
   * time-plus-random string); all that matters to the store is that a new
   * id differs from every id in use, so here they are naturals handed out
   * by a counter.
   */
  type TabId = nat

  /** One open tab: `TabData`. */
  datatype Tab = Tab(id: TabId, title: string, page: Page, icon: Icon)

  /** The data part of `TabState`; a null `activeTabId` is `None`. */
  datatype Snapshot = Snapshot(tabs: seq<Tab>, activeTabId: Option<TabId>)

  /** The title of the tab created by initialisation. */
  const HomeTitle: string := "Beranda"

  /** The tab created by initialisation, showing the home page. */
  function HomeTab(id: TabId): Tab {
    Tab(id, HomeTitle, Beranda, HomeIcon)
  }

  /** Some tab carries `id`. */
  predicate HasId(tabs: seq<Tab>, id: TabId) {
    exists i :: 0 <= i < |tabs| && tabs[i].id == id
  }

  /** No two tabs share an id. */
  predicate UniqueIds(tabs: seq<Tab>) {
    forall i, j :: 0 <= i < j < |tabs| ==> tabs[i].id != tabs[j].id
  }

  /** The active id is set and names one of the tabs. */
  predicate ActiveNamesTab(s: Snapshot) {
    s.activeTabId.Some? && HasId(s.tabs, s.activeTabId.value)
  }

  /** Either nothing is open yet (no tabs, null active id) or the active id names a tab. */
  predicate ActiveValid(s: Snapshot) {
    (s.tabs == [] && s.activeTabId.None?) || ActiveNamesTab(s)
  }

  /** `Math.max(0, k)` */
  function MaxZero(k: int): (r: nat)
    ensures r >= k && (r == 0 || r == k)
  {
    if k > 0 then k else 0
  }

  /** `tabs.findIndex(t => t.id === id)`: the first position holding `id`, or -1. */
  function FindIndex(tabs: seq<Tab>, id: TabId): (r: int)
    ensures -1 <= r < |tabs|
    ensures r == -1 <==> !HasId(tabs, id)
    ensures 0 <= r ==> tabs[r].id == id && forall j :: 0 <= j < r ==> tabs[j].id != id
  {
    if |tabs| == 0 then -1
    else if tabs[0].id == id then 0
    else
      var k := FindIndex(tabs[1..], id);
      if k == -1 then -1 else k + 1
  }

  /** `tabs.filter(t => t.id !== id)`: every tab not carrying `id`, in order. */
  function Without(tabs: seq<Tab>, id: TabId): (r: seq<Tab>)
    ensures |r| <= |tabs|
    ensures !HasId(tabs, id) ==> r == tabs
  {
    if |tabs| == 0 then []
    else if tabs[0].id == id then Without(tabs[1..], id)
    else [tabs[0]] + Without(tabs[1..], id)
  }

  /** `initializeTabs` with `freshId` as the value `generateId` would return. */
  function Initialize(s: Snapshot, freshId: TabId): (r: Snapshot)
    ensures |r.tabs| >= 1
    ensures ActiveValid(s) ==> ActiveNamesTab(r)
    ensures s.tabs == [] ==>
      |r.tabs| == 1 && r.tabs[0].title == "Beranda" && r.tabs[0].page == Beranda &&
      r.tabs[0].icon == HomeIcon && r.tabs[0].id == freshId && r.activeTabId == Some(freshId)
    ensures s.tabs != [] ==> r == s
    ensures UniqueIds(s.tabs) ==> UniqueIds(r.tabs)
  {
    if |s.tabs| > 0 then s
    else
      var r := Snapshot([HomeTab(freshId)], Some(freshId));
      assert r.tabs[0].id == freshId;
      r
  }

  /** `addNewTab(component, title, icon)` with `freshId` as the value `generateId` would return. */
  function AddTab(s: Snapshot, freshId: TabId, page: Page, title: string, icon: Icon): (r: Snapshot)
    ensures |r.tabs| == |s.tabs| + 1 && r.tabs[..|s.tabs|] == s.tabs
    ensures r.tabs[|s.tabs|] == Tab(freshId, title, page, icon)
    ensures r.activeTabId == Some(r.tabs[|r.tabs| - 1].id)
    ensures ActiveNamesTab(r)
    ensures UniqueIds(s.tabs) && !HasId(s.tabs, freshId) ==> UniqueIds(r.tabs)
  {
    Snapshot(s.tabs + [Tab(freshId, title, page, icon)], Some(freshId))
  }

  /** `switchTab(tabId)`: sets the active id whether or not a tab carries it. */
  function Switch(s: Snapshot, tabId: TabId): (r: Snapshot)
    ensures r.tabs == s.tabs && r.activeTabId == Some(tabId)
    ensures ActiveNamesTab(r) <==> HasId(s.tabs, tabId)
  {
    Snapshot(s.tabs, Some(tabId))
  }

  /**
   * The outcome of `closeTab`. In the source, `remaining[0].id` throws a
   * TypeError when no tab is left after filtering; the state is then not
   * updated.
   */
  datatype Closing = Closed(after: Snapshot) | Throws

  /** `closeTab(tabIdToClose)` */
  function Close(s: Snapshot, tabIdToClose: TabId): (r: Closing)
    ensures r.Throws? <==>
      |s.tabs| > 1 && s.activeTabId == Some(tabIdToClose) &&
      forall i :: 0 <= i < |s.tabs| ==> s.tabs[i].id == tabIdToClose
    ensures |s.tabs| <= 1 ==> r == Closed(s)
  {
    if |s.tabs| <= 1 then Closed(s)
    else
      var idx := FindIndex(s.tabs, tabIdToClose);
      var remaining := Without(s.tabs, tabIdToClose);
      WithoutMembers(s.tabs, tabIdToClose);
      if s.activeTabId == Some(tabIdToClose) then
        var newIndex := MaxZero(idx - 1);
        if newIndex < |remaining| then Closed(Snapshot(remaining, Some(remaining[newIndex].id)))
        else if 0 < |remaining| then Closed(Snapshot(remaining, Some(remaining[0].id)))
        else
          assert forall i :: 0 <= i < |s.tabs| ==> s.tabs[i] in s.tabs;
          Throws
      else Closed(Snapshot(remaining, s.activeTabId))
  }

  // ---------------------------------------------------------------------
  // Filtering by id

  /** Filtering keeps exactly the tabs that do not carry `id`. */
  lemma {:induction false} WithoutMembers(tabs: seq<Tab>, id: TabId)
    ensures forall t :: t in Without(tabs, id) <==> t in tabs && t.id != id
  {
    if |tabs| > 0 {
      WithoutMembers(tabs[1..], id);
      assert tabs == [tabs[0]] + tabs[1..];
    }
  }

  /** Filtering drops every copy of a tab carrying `id` and keeps every copy of the others. */
  lemma {:induction false} WithoutCounts(tabs: seq<Tab>, id: TabId, t: Tab)
    ensures multiset(Without(tabs, id))[t] == if t.id == id then 0 else multiset(tabs)[t]
  {
    if |tabs| > 0 {
      WithoutCounts(tabs[1..], id, t);
      assert tabs == [tabs[0]] + tabs[1..];
    }
  }

  /** Filtering keeps a prefix free of `id` untouched. */
  lemma {:induction false} WithoutKeepsPrefix(tabs: seq<Tab>, id: TabId, k: nat)
    requires k <= |tabs|
    requires forall j :: 0 <= j < k ==> tabs[j].id != id
    ensures |Without(tabs, id)| >= k && Without(tabs, id)[..k] == tabs[..k]
  {
    if k > 0 {
      WithoutKeepsPrefix(tabs[1..], id, k - 1);
      assert tabs[..k] == [tabs[0]] + tabs[1..][..k - 1];
    }
  }

  /** Removing the one tab that carries `id` leaves the others in their order. */
  lemma {:induction false} WithoutRemovesAt(tabs: seq<Tab>, k: nat)
    requires k < |tabs|
    requires forall j :: 0 <= j < |tabs| && j != k ==> tabs[j].id != tabs[k].id
    ensures Without(tabs, tabs[k].id) == tabs[..k] + tabs[k + 1..]
  {
    var id := tabs[k].id;
    var rest := tabs[1..];
    if k == 0 {
      assert !HasId(rest, id) by {
        forall i | 0 <= i < |rest| ensures rest[i].id != id {
          assert rest[i] == tabs[i + 1];
        }
      }
      assert Without(tabs, id) == Without(rest, id) == rest;
    } else {
      assert rest[k - 1] == tabs[k];
      forall j | 0 <= j < |rest| && j != k - 1 ensures rest[j].id != rest[k - 1].id {
        assert rest[j] == tabs[j + 1];
      }
      WithoutRemovesAt(rest, k - 1);
      assert Without(tabs, id) == [tabs[0]] + Without(rest, id);
      assert tabs[..k] + tabs[k + 1..] == [tabs[0]] + (rest[..k - 1] + rest[k..]);
    }
  }

  /** A sequence whose ids are distinct still has distinct ids once one position is cut out. */
  lemma {:induction false} UniqueIdsCut(tabs: seq<Tab>, k: nat)
    requires UniqueIds(tabs) && k < |tabs|
    ensures UniqueIds(tabs[..k] + tabs[k + 1..])
  {
  }

  // ---------------------------------------------------------------------
  // What closeTab does

  /**
   * Closing the active tab at position `k` (ids distinct, more than one tab):
   * the tab is cut out, and its left neighbour becomes active, or, when it
   * was the first tab, the tab that followed it.
   */
  lemma {:induction false} CloseActiveTab(s: Snapshot, k: nat)
    requires UniqueIds(s.tabs) && |s.tabs| > 1 && k < |s.tabs|
    requires s.activeTabId == Some(s.tabs[k].id)
    ensures Close(s, s.tabs[k].id) ==
      Closed(Snapshot(s.tabs[..k] + s.tabs[k + 1..], Some(s.tabs[if k == 0 then 1 else k - 1].id)))
  {
    var id := s.tabs[k].id;
    WithoutRemovesAt(s.tabs, k);
    var remaining := s.tabs[..k] + s.tabs[k + 1..];
    var idx := FindIndex(s.tabs, id);
    assert idx == k;
    if k == 0 {
      assert remaining[0] == s.tabs[1];
    } else {
      assert remaining[k - 1] == s.tabs[k - 1];
    }
  }

  /** Closing a tab that is not the active one leaves the active id as it was. */
  lemma {:induction false} CloseInactiveTab(s: Snapshot, k: nat)
    requires UniqueIds(s.tabs) && |s.tabs| > 1 && k < |s.tabs|
    requires s.activeTabId != Some(s.tabs[k].id)
    ensures Close(s, s.tabs[k].id) == Closed(Snapshot(s.tabs[..k] + s.tabs[k + 1..], s.activeTabId))
  {
    WithoutRemovesAt(s.tabs, k);
  }

  /**
   * Closing an id no tab carries keeps every tab; if that id was the
   * (dangling) active id, `findIndex` gives -1 and the first tab becomes active.
   */
  lemma {:induction false} CloseUnknownId(s: Snapshot, id: TabId)
    requires |s.tabs| > 1 && !HasId(s.tabs, id)
    ensures Close(s, id) ==
      Closed(Snapshot(s.tabs, if s.activeTabId == Some(id) then Some(s.tabs[0].id) else s.activeTabId))
  {
  }

  /**
   * In `remaining[newIndex]?.id ?? remaining[0].id` the fallback is never
   * what picks the tab: whenever any tab remains, `newIndex` is in range.
   */
  lemma {:induction false} CloseNeighbourInRange(tabs: seq<Tab>, id: TabId)
    requires Without(tabs, id) != []
    ensures MaxZero(FindIndex(tabs, id) - 1) < |Without(tabs, id)|
  {
    var idx := FindIndex(tabs, id);
    if idx > 0 {
      WithoutKeepsPrefix(tabs, id, idx);
    }
  }

  /**
   * With distinct ids, `closeTab` never throws, keeps the ids distinct,
   * never closes the last tab, removes exactly one tab when the id is
   * present among more than one tab and none otherwise, and keeps the active
   * id naming a tab if it did so before.
   */
  lemma {:induction false} CloseKeepsInvariants(s: Snapshot, id: TabId)
    requires UniqueIds(s.tabs)
    ensures Close(s, id).Closed?
    ensures UniqueIds(Close(s, id).after.tabs)
    ensures |s.tabs| >= 1 ==> |Close(s, id).after.tabs| >= 1
    ensures |Close(s, id).after.tabs| == |s.tabs| - (if |s.tabs| > 1 && HasId(s.tabs, id) then 1 else 0)
    ensures ActiveValid(s) ==> ActiveValid(Close(s, id).after)
  {
    if |s.tabs| > 1 {
      var k := FindIndex(s.tabs, id);
      if k == -1 {
        CloseUnknownId(s, id);
      } else {
        ClosePresentId(s, k);
      }
    }
  }

  /** `CloseKeepsInvariants` for an id some tab carries. */
  lemma {:induction false} ClosePresentId(s: Snapshot, k: nat)
    requires UniqueIds(s.tabs) && |s.tabs| > 1 && k < |s.tabs|
    ensures Close(s, s.tabs[k].id).Closed?
    ensures Close(s, s.tabs[k].id).after.tabs == s.tabs[..k] + s.tabs[k + 1..]
    ensures UniqueIds(Close(s, s.tabs[k].id).after.tabs)
    ensures ActiveValid(s) ==> ActiveNamesTab(Close(s, s.tabs[k].id).after)
  {
    var id := s.tabs[k].id;
    UniqueIdsCut(s.tabs, k);
    if s.activeTabId == Some(id) {
      CloseActiveTab(s, k);
      var after := Close(s, id).after;
      var n := if k == 0 then 1 else k - 1;
      assert after.tabs[if k == 0 then 0 else k - 1] == s.tabs[n];
    } else {
      CloseInactiveTab(s, k);
      var after := Close(s, id).after;
      if ActiveValid(s) {
        var a :| 0 <= a < |s.tabs| && s.tabs[a].id == s.activeTabId.value;
        assert after.tabs[if a < k then a else a - 1] == s.tabs[a];
      }
    }
  }

  // ---------------------------------------------------------------------
  // The other transitions

  /** Initialising twice is initialising once. */
  lemma {:induction false} InitializeIdempotent(s: Snapshot, id1: TabId, id2: TabId)
    ensures Initialize(Initialize(s, id1), id2) == Initialize(s, id1)
  {
  }

  /** Switching to an id no tab carries leaves a dangling active id. */
  lemma {:induction false} SwitchMayDangle(s: Snapshot, tabId: TabId)
    requires !HasId(s.tabs, tabId)
    ensures !ActiveValid(Switch(s, tabId))
  {
  }

  // ---------------------------------------------------------------------
  // The store as mutable state

  /**
   * The store instance: the two fields of `TabState` that its transitions
   * replace, plus the counter standing in for `generateId`.
   */
  class TabSession {
    var tabs: seq<Tab>
    var activeTabId: Option<TabId>
    /** Every id handed out so far is below this. */
    var nextId: TabId

    function State(): Snapshot
      reads this
    {
      Snapshot(tabs, activeTabId)
    }

    /** Ids are distinct and all come from the counter. */
    ghost predicate Valid()
      reads this
    {
      UniqueIds(tabs) && forall i :: 0 <= i < |tabs| ==> tabs[i].id < nextId
    }

    /** The store as `create` sets it up: no tabs, null active id. */
    constructor ()
      ensures Valid() && tabs == [] && activeTabId == None
    {
      tabs := [];
      activeTabId := None;
      nextId := 0;
    }

    /** `generateId`: an id no tab carries. */
    method GenerateId() returns (id: TabId)
      requires Valid()
      modifies this`nextId
      ensures Valid() && !HasId(tabs, id) && id < nextId
      ensures id == old(nextId) && nextId == old(nextId) + 1
    {
      id := nextId;
      nextId := nextId + 1;
    }

    /** `initializeTabs` */
    method InitializeTabs()
      requires Valid()
      modifies this
      ensures Valid()
      ensures State() == Initialize(old(State()), old(nextId))
      ensures old(tabs) != [] ==> unchanged(this)
    {
      if |tabs| > 0 {
        return;
      }
      var id := GenerateId();
      tabs := [HomeTab(id)];
      activeTabId := Some(id);
    }

    /** `addNewTab(component, title, icon)` */
    method AddNewTab(page: Page, title: string, icon: Icon)
      requires Valid()
      modifies this
      ensures Valid() && nextId == old(nextId) + 1
      ensures State() == AddTab(old(State()), old(nextId), page, title, icon)
    {
      var id := GenerateId();
      tabs := tabs + [Tab(id, title, page, icon)];
      activeTabId := Some(id);
    }

    /** `switchTab(tabId)` */
    method SwitchTab(tabId: TabId)
      requires Valid()
      modifies this`activeTabId
      ensures Valid()
      ensures State() == Switch(old(State()), tabId)
    {
      activeTabId := Some(tabId);
    }

    /** `closeTab(tabIdToClose)` */
    method CloseTab(tabIdToClose: TabId)
      requires Valid()
      modifies this`tabs, this`activeTabId
      ensures Valid()
      ensures Close(old(State()), tabIdToClose) == Closed(State())
    {
      if |tabs| <= 1 {
        return;
      }
      CloseKeepsInvariants(State(), tabIdToClose);
      var idx := FindIndex(tabs, tabIdToClose);
      var remaining := Without(tabs, tabIdToClose);
      var nextActive := activeTabId;
      if activeTabId == Some(tabIdToClose) {
        var newIndex := MaxZero(idx - 1);
        nextActive := Some(if newIndex < |remaining| then remaining[newIndex].id else remaining[0].id);
      }
      WithoutMembers(tabs, tabIdToClose);
      forall i | 0 <= i < |remaining| ensures remaining[i].id < nextId {
        assert remaining[i] in tabs;
      }
      tabs, activeTabId := remaining, nextActive;
    }
  }

  /**
   * A session as a user drives it: open the app, open the gallery, go back
   * to the home tab, close the gallery tab, then try to close the last tab.
   */
  method SessionScenario()
  {
    var session := new TabSession();
    session.InitializeTabs();
    var home := session.tabs[0];
    assert home.title == "Beranda" && session.activeTabId == Some(home.id);

    session.AddNewTab(Galeri, "Galeri", ImagesIcon);
    var gallery := session.tabs[1];
    assert session.tabs == [home, gallery] && session.activeTabId == Some(gallery.id);

    session.SwitchTab(home.id);
    assert session.tabs == [home, gallery] && session.activeTabId == Some(home.id);

    CloseInactiveTab(session.State(), 1);
    session.CloseTab(gallery.id);
    assert session.tabs == [home] && session.activeTabId == Some(home.id);

    session.CloseTab(home.id);
    assert session.tabs == [home] && session.activeTabId == Some(home.id);
  }
}
