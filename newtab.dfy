/**
 * The page state of newtab.js — the module-level `state = {activeTabId, customTabs}` — with
 * its storage step and the handlers that change it: load, save, create a tab, the tab menu's
 * rename / delete-all-links / delete, and the link grid's add / edit / remove.
 *
 * Dialog answers are parameters: a `prompt` result is an `Option<string>` (None for a
 * cancelled dialog, JavaScript `null`), a `confirm` result a `bool`. The id `makeId()` would
 * produce is a parameter too. `saveState` appends a snapshot of both fields to `saves`, so
 * the last snapshot is what storage holds.
 */
module NewTab {
  import opened Wrappers
  import opened JsText
  import opened Urls
  import opened TabModel

  /** The most tabs the page keeps on load and offers the "+" button below. */
  const MAX_CUSTOM_TABS: nat := 5

  /** The JavaScript truth value of a `string | null`: null and "" are falsy. */
  predicate Truthy(s: Option<string>) {
    s.Some? && s.value != ""
  }

  /** Both fields as `saveState` writes them in one storage call. */
  datatype Snapshot = Snapshot(activeTabId: Option<string>, customTabs: seq<Tab>)

  /**
   * The two storage keys as `loadState` reads them: `activeTabId` is None unless the stored
   * value is a string, `customTabs` is None unless the stored value is an array.
   */
  datatype StoredData = StoredData(activeTabId: Option<string>, customTabs: Option<seq<Tab>>)

  /** What reading the storage back yields after `saveState` wrote snapshot `s`. */
  function Persisted(s: Snapshot): StoredData {
    StoredData(s.activeTabId, Some(s.customTabs))
  }

  /**
   * `tabs[0]?.id || null`: the first tab's id, or null when there is no tab or the first
   * id is the empty (falsy) string.
   */
  function FirstIdOrNull(tabs: seq<Tab>): (r: Option<string>)
    ensures r.Some? ==> |tabs| > 0 && r.value == tabs[0].id && HasTab(tabs, r.value)
    ensures r.None? <==> tabs == [] || tabs[0].id == ""
  {
    if |tabs| > 0 && tabs[0].id != "" then Some(tabs[0].id) else None
  }

  /**
   * The tab list `loadState` keeps: nothing when the stored value is not an array, and
   * otherwise the stored list cut to its first MAX_CUSTOM_TABS entries, order kept.
   */
  function LoadedTabs(stored: Option<seq<Tab>>): (r: seq<Tab>)
    ensures |r| <= MAX_CUSTOM_TABS
    ensures stored.None? ==> r == []
    ensures stored.Some? ==> r <= stored.value
    ensures stored.Some? && |stored.value| <= MAX_CUSTOM_TABS ==> r == stored.value
    ensures stored.Some? && |stored.value| > MAX_CUSTOM_TABS ==> |r| == MAX_CUSTOM_TABS
  {
    if stored.None? then []
    else if |stored.value| > MAX_CUSTOM_TABS then stored.value[..MAX_CUSTOM_TABS]
    else stored.value
  }

  /**
   * The active id `loadState` settles on: the saved one exactly when it is a non-empty
   * string naming a loaded tab, and otherwise the first tab's id (or null). Either way it
   * is null or the id of a loaded tab.
   */
  function ResolveActive(saved: Option<string>, tabs: seq<Tab>): (r: Option<string>)
    ensures r.Some? ==> HasTab(tabs, r.value)
    ensures (saved.Some? && r == saved) <==> Truthy(saved) && HasTab(tabs, saved.value)
    ensures !(Truthy(saved) && HasTab(tabs, saved.value)) ==> r == FirstIdOrNull(tabs)
    ensures tabs == [] ==> r.None?
  {
    if Truthy(saved) && HasTab(tabs, saved.value) then saved else FirstIdOrNull(tabs)
  }

  /**
   * Saving and loading again gives back every snapshot the page can load into unchanged:
   * at most MAX_CUSTOM_TABS tabs and an active id that load would pick itself.
   */
  lemma ReloadRestoresSnapshot(s: Snapshot)
    requires |s.customTabs| <= MAX_CUSTOM_TABS
    requires s.activeTabId.Some? ==> s.activeTabId.value != "" && HasTab(s.customTabs, s.activeTabId.value)
    requires s.activeTabId.None? ==> s.customTabs == [] || s.customTabs[0].id == ""
    ensures LoadedTabs(Persisted(s).customTabs) == s.customTabs
    ensures ResolveActive(Persisted(s).activeTabId, LoadedTabs(Persisted(s).customTabs)) == s.activeTabId
  {
  }

  /** The tabs of `tabs` have pairwise different ids. */
  predicate UniqueIds(tabs: seq<Tab>) {
    forall i, j :: 0 <= i < j < |tabs| ==> tabs[i].id != tabs[j].id
  }

  /**
   * Load on a stored list longer than the cap, whose saved active id names one of the cut
   * tabs, activates the first kept tab: the active id never points past the cut.
   */
  lemma LoadDropsActiveBeyondCap(stored: seq<Tab>, k: nat)
    requires MAX_CUSTOM_TABS <= k < |stored|
    requires UniqueIds(stored) && stored[0].id != "" && stored[k].id != ""
    ensures var tabs := LoadedTabs(Some(stored));
      ResolveActive(Some(stored[k].id), tabs) == Some(stored[0].id) && tabs == stored[..MAX_CUSTOM_TABS]
  {
    var tabs := LoadedTabs(Some(stored));
    assert !HasTab(tabs, stored[k].id) by {
      forall j | 0 <= j < |tabs| ensures tabs[j].id != stored[k].id {
        assert tabs[j] == stored[j];
      }
    }
  }

  /** The page's single state object. */
  class AppState {
    var activeTabId: Option<string>
    var customTabs: seq<Tab>
    /** Every `saveState` call so far, oldest first. */
    var saves: seq<Snapshot>

    /** The active id is null or names a tab of the list. */
    ghost predicate Valid()
      reads this
    {
      activeTabId.Some? ==> HasTab(customTabs, activeTabId.value)
    }

    /** Both fields as they stand. */
    function Current(): Snapshot
      reads this
    {
      Snapshot(activeTabId, customTabs)
    }

    /** renderTabs shows the "+" (create) button only below the cap. */
    predicate AddButtonShown()
      reads this
    {
      |customTabs| < MAX_CUSTOM_TABS
    }

    /**
     * Index of the tab the link handlers work on, or -1: `find` by a truthy active id, so
     * the first tab holding that id, found whenever one holds it.
     */
    function ActiveTabIndex(): (i: int)
      reads this
      ensures -1 <= i < |customTabs|
      ensures i >= 0 ==> Truthy(activeTabId) && customTabs[i].id == activeTabId.value
      ensures i == -1 <==> !Truthy(activeTabId) || !HasTab(customTabs, activeTabId.value)
      ensures i >= 0 ==> forall k :: 0 <= k < i ==> customTabs[k].id != activeTabId.value
    {
      if !Truthy(activeTabId) then -1 else FindIndex(customTabs, activeTabId.value)
    }

    /** `state = {activeTabId: null, customTabs: []}` */
    constructor ()
      ensures Valid()
      ensures activeTabId == None && customTabs == [] && saves == []
    {
      activeTabId := None;
      customTabs := [];
      saves := [];
    }

    /** `saveState`: write both fields, in one storage call. */
    method SaveState()
      modifies this
      ensures saves == old(saves) + [old(Current())]
      ensures activeTabId == old(activeTabId) && customTabs == old(customTabs)
    {
      saves := saves + [Current()];
    }

    /** `loadState`: replace both fields from what storage returned. */
    method LoadState(data: StoredData)
      modifies this
      ensures Valid()
      ensures customTabs == LoadedTabs(data.customTabs)
      ensures activeTabId == ResolveActive(data.activeTabId, customTabs)
      ensures saves == old(saves)
    {
      customTabs := if data.customTabs.Some? then data.customTabs.value else [];
      if |customTabs| > MAX_CUSTOM_TABS {
        customTabs := customTabs[..MAX_CUSTOM_TABS];
      }
      var savedActive := data.activeTabId;
      var found := Truthy(savedActive) && HasTab(customTabs, savedActive.value);
      if found {
        activeTabId := savedActive;
      } else {
        activeTabId := FirstIdOrNull(customTabs);
      }
    }

    /** `init`'s storage part: load, then save so that both keys exist in storage. */
    method Init(data: StoredData)
      modifies this
      ensures Valid()
      ensures customTabs == LoadedTabs(data.customTabs)
      ensures activeTabId == ResolveActive(data.activeTabId, customTabs)
      ensures saves == old(saves) + [Current()]
    {
      LoadState(data);
      SaveState();
    }

    /**
     * `onCreateTab` with the prompt's answer `name` and the fresh id `id`. A cancelled or
     * empty answer changes nothing; any other — even one of blanks, which becomes the title
     * "" — appends one tab with no links and makes it active. The handler itself does not
     * check the cap: only renderTabs hiding "+" at the cap keeps the list at most
     * MAX_CUSTOM_TABS long.
     */
    method CreateTab(name: Option<string>, id: string)
      requires Valid()
      modifies this
      ensures Valid()
      ensures !Truthy(name) ==> unchanged(this)
      ensures Truthy(name) ==>
        customTabs == old(customTabs) + [Tab(id, Trim(name.value), [])]
        && activeTabId == Some(id)
        && saves == old(saves) + [Current()]
      ensures old(AddButtonShown()) ==> |customTabs| <= MAX_CUSTOM_TABS
    {
      if !Truthy(name) {
        return;
      }
      var tab := Tab(id, Trim(name.value), []);
      customTabs := customTabs + [tab];
      activeTabId := Some(tab.id);
      assert customTabs[|customTabs| - 1].id == id;
      SaveState();
    }

    /**
     * The tab menu's rename of tab `tabId` to the prompt's answer `name`: nothing happens
     * for an unknown id or a cancelled or empty answer; otherwise the first tab with that
     * id gets the trimmed answer as title and nothing else changes.
     */
    method RenameTab(tabId: string, name: Option<string>)
      requires Valid()
      modifies this
      ensures Valid()
      ensures var i := FindIndex(old(customTabs), tabId);
        if i == -1 || !Truthy(name) then unchanged(this)
        else (customTabs == old(customTabs)[i := old(customTabs)[i].(title := Trim(name.value))]
          && activeTabId == old(activeTabId)
          && saves == old(saves) + [Current()])
    {
      var i := FindIndex(customTabs, tabId);
      if i == -1 {
        return;
      }
      if !Truthy(name) {
        return;
      }
      ghost var before := customTabs;
      customTabs := customTabs[i := customTabs[i].(title := Trim(name.value))];
      SameIdsAfterUpdate(before, customTabs, i);
      SaveState();
    }

    /**
     * The tab menu's "delete all links" of tab `tabId`, `ok` being the confirm answer:
     * nothing happens for an unknown id or a refusal; otherwise the first tab with that id
     * loses all its links and nothing else changes.
     */
    method ClearLinks(tabId: string, ok: bool)
      requires Valid()
      modifies this
      ensures Valid()
      ensures var i := FindIndex(old(customTabs), tabId);
        if i == -1 || !ok then unchanged(this)
        else (customTabs == old(customTabs)[i := old(customTabs)[i].(links := [])]
          && activeTabId == old(activeTabId)
          && saves == old(saves) + [Current()])
    {
      var i := FindIndex(customTabs, tabId);
      if i == -1 {
        return;
      }
      if !ok {
        return;
      }
      ghost var before := customTabs;
      customTabs := customTabs[i := customTabs[i].(links := [])];
      SameIdsAfterUpdate(before, customTabs, i);
      SaveState();
    }

    /**
     * The tab menu's delete of tab `tabId`, `ok` being the confirm answer: on a refusal
     * nothing happens; otherwise every tab with that id goes, the rest keep their order, and
     * the active id falls back to the first remaining tab (or null) only if it was `tabId`.
     */
    method DeleteTab(tabId: string, ok: bool)
      requires Valid()
      modifies this
      ensures Valid()
      ensures !ok ==> unchanged(this)
      ensures ok ==>
        customTabs == WithoutId(old(customTabs), tabId)
        && activeTabId == (if old(activeTabId) == Some(tabId) then FirstIdOrNull(customTabs) else old(activeTabId))
        && saves == old(saves) + [Current()]
    {
      if !ok {
        return;
      }
      ghost var before := customTabs;
      customTabs := WithoutId(customTabs, tabId);
      if activeTabId == Some(tabId) {
        activeTabId := FirstIdOrNull(customTabs);
      } else if activeTabId.Some? {
        WithoutIdKeepsOtherIds(before, tabId, activeTabId.value);
      }
      SaveState();
    }

    /**
     * `addLinkToActiveTab` with the two prompt answers: nothing happens without a truthy
     * active id naming a tab, or when either answer is cancelled or empty; otherwise the
     * active tab gets the link (trimmed title, normalized trimmed URL) at its end.
     */
    method AddLinkToActiveTab(title: Option<string>, url: Option<string>)
      requires Valid()
      modifies this
      ensures Valid()
      ensures var i := old(ActiveTabIndex());
        if i == -1 || !Truthy(title) || !Truthy(url) then unchanged(this)
        else (customTabs == old(customTabs)[i := old(customTabs)[i].(links :=
            old(customTabs)[i].links + [Link(Trim(title.value), NormalizeUrl(Trim(url.value)))])]
          && activeTabId == old(activeTabId)
          && saves == old(saves) + [Current()])
    {
      if !Truthy(activeTabId) {
        return;
      }
      var i := FindIndex(customTabs, activeTabId.value);
      if i == -1 {
        return;
      }
      if !Truthy(title) {
        return;
      }
      if !Truthy(url) {
        return;
      }
      var tab := customTabs[i];
      ghost var before := customTabs;
      customTabs := customTabs[i := tab.(links := tab.links + [Link(Trim(title.value), NormalizeUrl(Trim(url.value)))])];
      SameIdsAfterUpdate(before, customTabs, i);
      SaveState();
    }

    /**
     * A link card's edit of link `i` of the active tab with the two prompt answers: nothing
     * happens when either is cancelled or empty; otherwise link `i` is replaced wholesale
     * and the number of links stays the same. A card exists only for a link of the active
     * tab, so `i` is in range.
     */
    method EditLink(i: nat, newTitle: Option<string>, newUrl: Option<string>)
      requires Valid()
      requires ActiveTabIndex() >= 0 && i < |customTabs[ActiveTabIndex()].links|
      modifies this
      ensures Valid()
      ensures var a := old(ActiveTabIndex());
        if !Truthy(newTitle) || !Truthy(newUrl) then unchanged(this)
        else (customTabs == old(customTabs)[a := old(customTabs)[a].(links :=
            old(customTabs)[a].links[i := Link(Trim(newTitle.value), NormalizeUrl(Trim(newUrl.value)))])]
          && |customTabs[a].links| == |old(customTabs)[a].links|
          && activeTabId == old(activeTabId)
          && saves == old(saves) + [Current()])
    {
      if !Truthy(newTitle) {
        return;
      }
      if !Truthy(newUrl) {
        return;
      }
      var a := ActiveTabIndex();
      var tab := customTabs[a];
      ghost var before := customTabs;
      customTabs := customTabs[a := tab.(links := tab.links[i := Link(Trim(newTitle.value), NormalizeUrl(Trim(newUrl.value)))])];
      SameIdsAfterUpdate(before, customTabs, a);
      SaveState();
    }

    /**
     * A link card's remove of link `i` of the active tab, `ok` being the confirm answer: on
     * a refusal nothing happens; otherwise link `i` goes and the later links move up.
     */
    method RemoveLink(i: nat, ok: bool)
      requires Valid()
      requires ActiveTabIndex() >= 0 && i < |customTabs[ActiveTabIndex()].links|
      modifies this
      ensures Valid()
      ensures var a := old(ActiveTabIndex());
        if !ok then unchanged(this)
        else (customTabs == old(customTabs)[a := old(customTabs)[a].(links := RemoveAt(old(customTabs)[a].links, i))]
          && |customTabs[a].links| == |old(customTabs)[a].links| - 1
          && activeTabId == old(activeTabId)
          && saves == old(saves) + [Current()])
    {
      if !ok {
        return;
      }
      var a := ActiveTabIndex();
      var tab := customTabs[a];
      ghost var before := customTabs;
      customTabs := customTabs[a := tab.(links := RemoveAt(tab.links, i))];
      SameIdsAfterUpdate(before, customTabs, a);
      SaveState();
    }
  }

  /** Changing anything but the id of one tab keeps every id at its index. */
  lemma SameIdsAfterUpdate(before: seq<Tab>, after: seq<Tab>, i: nat)
    requires i < |before| && |after| == |before|
    requires after[i].id == before[i].id
    requires forall k :: 0 <= k < |before| && k != i ==> after[k] == before[k]
    ensures forall id :: HasTab(after, id) <==> HasTab(before, id)
    ensures forall id :: FindIndex(after, id) == FindIndex(before, id)
  {
    assert forall k :: 0 <= k < |before| ==> after[k].id == before[k].id;
    forall id ensures HasTab(after, id) <==> HasTab(before, id) {
      if HasTab(after, id) {
        var k :| 0 <= k < |after| && after[k].id == id;
        assert before[k].id == id;
      }
      if HasTab(before, id) {
        var k :| 0 <= k < |before| && before[k].id == id;
        assert after[k].id == id;
      }
    }
  }

  /**
   * Any run of "+" clicks, one per answer, where a click happens only while the button is
   * shown: the page keeps at most MAX_CUSTOM_TABS tabs, and the tabs it had stay in front.
   */
  method CreateWhileShown(page: AppState, names: seq<Option<string>>, ids: seq<string>)
    requires page.Valid() && |page.customTabs| <= MAX_CUSTOM_TABS && |names| == |ids|
    modifies page
    ensures page.Valid() && |page.customTabs| <= MAX_CUSTOM_TABS
    ensures old(page.customTabs) <= page.customTabs
  {
    for k := 0 to |names|
      invariant page.Valid() && |page.customTabs| <= MAX_CUSTOM_TABS
      invariant old(page.customTabs) <= page.customTabs
    {
      if page.AddButtonShown() {
        page.CreateTab(names[k], ids[k]);
      }
    }
  }

  /** A fresh page on which tab `id` named `name` has just been created. */
  method NewPageWithTab(name: string, id: string) returns (page: AppState)
    requires name != "" && id != ""
    ensures fresh(page) && page.Valid()
    ensures page.customTabs == [Tab(id, Trim(name), [])] && page.activeTabId == Some(id)
  {
    page := new AppState();
    page.CreateTab(Some(name), id);
  }

  /**
   * The first half of CreateAddReload: on a fresh page, create tab `id` and add one link to
   * it; the last save then holds exactly that tab, active.
   */
  method CreateAndAdd(name: string, id: string, title: string, url: string) returns (page: AppState)
    requires name != "" && id != "" && title != "" && url != ""
    ensures page.saves != []
    ensures page.saves[|page.saves| - 1] ==
      Snapshot(Some(id), [Tab(id, Trim(name), [Link(Trim(title), NormalizeUrl(Trim(url)))])])
  {
    var link := Link(Trim(title), NormalizeUrl(Trim(url)));
    page := NewPageWithTab(name, id);
    assert page.ActiveTabIndex() == 0;
    page.AddLinkToActiveTab(Some(title), Some(url));
    assert [] + [link] == [link];
  }

  /**
   * Create a tab on an empty page, add a link to it, then load a second page from what
   * storage holds after the last save: the reloaded page has exactly that tab, active, with
   * exactly that link, its title trimmed and its URL trimmed and normalized. What
   * normalizing does to a bare host such as "mail.google.com" is in NormalizeUrlExamples.
   */
  method CreateAddReload(name: string, id: string, title: string, url: string) returns (reloaded: Snapshot)
    requires name != "" && id != "" && title != "" && url != ""
    ensures reloaded.customTabs == [Tab(id, Trim(name), [Link(Trim(title), NormalizeUrl(Trim(url)))])]
    ensures reloaded.activeTabId == Some(id)
  {
    var link := Link(Trim(title), NormalizeUrl(Trim(url)));
    var tab := Tab(id, Trim(name), [link]);
    var page := CreateAndAdd(name, id, title, url);
    var stored := page.saves[|page.saves| - 1];
    var next := new AppState();
    assert HasTab([tab], id) by { assert [tab][0].id == id; }
    ReloadRestoresSnapshot(stored);
    next.LoadState(Persisted(stored));
    reloaded := next.Current();
  }

  /**
   * Adding a link to the active tab, editing the added link and removing it again leaves
   * the active tab with as many links as before.
   */
  method AddEditRemoveKeepsCount(page: AppState, title: string, url: string)
    requires page.Valid() && page.ActiveTabIndex() >= 0 && title != "" && url != ""
    modifies page
    ensures page.Valid()
    ensures var a := old(page.ActiveTabIndex());
      |page.customTabs| == |old(page.customTabs)| && |page.customTabs[a].links| == |old(page.customTabs)[a].links|
  {
    var a := page.ActiveTabIndex();
    var n := |page.customTabs[a].links|;
    ghost var before := page.customTabs;
    page.AddLinkToActiveTab(Some(title), Some(url));
    SameIdsAfterUpdate(before, page.customTabs, a);
    page.EditLink(n, Some(title), Some(url));
    page.RemoveLink(n, true);
  }
}
