/**
 * The drag-reorder controller of tabs-dnd.js: `lpInitTabsDnD` attaches four handlers to the
 * tab row once, keeping its state in two container fields — `__lpDndInited` (attached) and
 * `__lpDragId` (null while idle, the dragged tab's id while dragging) — plus the set of tab
 * elements carrying the "drop-hint" class. A drop moves the dragged tab onto the target's
 * place in the page state and saves it.
 *
 * Each handler is a method. What the browser reports about an event is a parameter: whether
 * it began on the burger button, the `data-tab-id` of the nearest tab element (None when
 * there is none), and the "text/plain" drag payload ("" when the platform gives none).
 */
module TabsDnD {
  import opened Wrappers
  import opened TabModel
  import NewTab

  /**
   * `containerEl.__lpDragId || e.dataTransfer.getData("text/plain")`: the controller's own
   * drag id when it is truthy, the payload otherwise.
   */
  function SourceId(dragId: Option<string>, payload: string): (r: string)
    ensures NewTab.Truthy(dragId) ==> r == dragId.value
    ensures !NewTab.Truthy(dragId) ==> r == payload
    ensures r == "" <==> !NewTab.Truthy(dragId) && payload == ""
  {
    if NewTab.Truthy(dragId) then dragId.value else payload
  }

  /**
   * The two indices the drop handler splices with, or None when it returns before touching
   * the list: no target element, a falsy source or target id, source and target equal, or
   * either id not in the list. When present they are the first indices holding the two ids,
   * and they differ.
   */
  function DropIndices(tabs: seq<Tab>, fromId: string, toId: Option<string>): (r: Option<(nat, nat)>)
    ensures r.None? <==>
      toId.None? || fromId == "" || toId.value == "" || fromId == toId.value
      || !HasTab(tabs, fromId) || !HasTab(tabs, toId.value)
    ensures r.Some? ==>
      r.value.0 < |tabs| && r.value.1 < |tabs| && r.value.0 != r.value.1
      && r.value.0 == FindIndex(tabs, fromId) && r.value.1 == FindIndex(tabs, toId.value)
      && tabs[r.value.0].id == fromId && tabs[r.value.1].id == toId.value
  {
    if toId.None? || fromId == "" || toId.value == "" || fromId == toId.value then None
    else
      var fromIndex := FindIndex(tabs, fromId);
      var toIndex := FindIndex(tabs, toId.value);
      if fromIndex == -1 || toIndex == -1 then None else Some((fromIndex, toIndex))
  }

  /** The tab row with the controller's fields, bound to the page state `getState` returns. */
  class DragController {
    const app: NewTab.AppState
    /** `__lpDndInited` */
    var inited: bool
    /** `__lpDragId`: None while idle, Some(id) while dragging tab `id`. */
    var dragId: Option<string>
    /** Ids of the tab elements that carry the "drop-hint" class. */
    var hints: set<string>
    /** How many times the handlers have been added to the container. */
    ghost var handlerSets: nat

    /** Handlers are attached at most once, at most one tab is hinted, the page state is sound. */
    ghost predicate Valid()
      reads this, app
    {
      handlerSets == (if inited then 1 else 0) && |hints| <= 1 && app.Valid()
    }

    /** A tab row that has not been attached to yet. */
    constructor (app: NewTab.AppState)
      requires app.Valid()
      ensures Valid() && this.app == app
      ensures !inited && dragId == None && hints == {} && handlerSets == 0
    {
      this.app := app;
      inited := false;
      dragId := None;
      hints := {};
      handlerSets := 0;
    }

    /**
     * `lpInitTabsDnD`: on a row already attached to, nothing at all happens, so the handlers
     * are never added twice and one gesture leads to at most one reorder; otherwise the
     * handlers are added once and the controller starts idle.
     */
    method Attach()
      requires Valid()
      modifies this
      ensures Valid() && inited && handlerSets == 1
      ensures old(inited) ==> unchanged(this)
      ensures !old(inited) ==> dragId == None && hints == old(hints)
    {
      if inited {
        return;
      }
      inited := true;
      dragId := None;
      handlerSets := handlerSets + 1;
    }

    /**
     * The "dragstart" handler: ignored when the drag began on a burger or off any tab
     * element; otherwise the controller is dragging that element's tab.
     */
    method DragStart(fromBurger: bool, tabId: Option<string>)
      requires Valid() && inited
      modifies this
      ensures Valid()
      ensures fromBurger || tabId.None? ==> unchanged(this)
      ensures !fromBurger && tabId.Some? ==>
        dragId == tabId && hints == old(hints) && inited && handlerSets == old(handlerSets)
    {
      if fromBurger {
        return;
      }
      if tabId.None? {
        return;
      }
      dragId := Some(tabId.value);
    }

    /** `clearDropHints`: no tab element keeps the "drop-hint" class. */
    method ClearDropHints()
      requires Valid()
      modifies this
      ensures Valid()
      ensures hints == {}
      ensures inited == old(inited) && dragId == old(dragId) && handlerSets == old(handlerSets)
    {
      hints := {};
    }

    /** The "dragend" handler: back to idle, with no hint left, whatever happened before. */
    method DragEnd()
      requires Valid() && inited
      modifies this
      ensures Valid()
      ensures dragId == None && hints == {}
      ensures inited && handlerSets == old(handlerSets)
    {
      dragId := None;
      ClearDropHints();
    }

    /**
     * The "dragover" handler over the tab element `overId`: when the source id is truthy and
     * differs from the hovered one, every earlier hint goes and that tab alone is hinted;
     * otherwise nothing changes.
     */
    method DragOver(overId: Option<string>, payload: string)
      requires Valid() && inited
      modifies this
      ensures Valid()
      ensures var fromId := SourceId(old(dragId), payload);
        if overId.None? || fromId == "" || overId.value == "" || fromId == overId.value then unchanged(this)
        else (hints == {overId.value} && dragId == old(dragId) && inited && handlerSets == old(handlerSets))
    {
      if overId.None? {
        return;
      }
      var over := overId.value;
      var fromId := SourceId(dragId, payload);
      if fromId == "" || over == "" || fromId == over {
        return;
      }
      ClearDropHints();
      hints := hints + {over};
    }

    /**
     * The "drop" handler on the tab element `dropId`. When DropIndices finds nothing to do,
     * nothing changes. Otherwise the page's tab list becomes Move of the old one (the same
     * tabs, the dragged one at the target's old index, the others in their old order), the
     * active id stays, the controller is idle with no hint, and the page is saved exactly once.
     */
    method Drop(dropId: Option<string>, payload: string)
      requires Valid() && inited
      modifies this, app
      ensures Valid()
      ensures var plan := DropIndices(old(app.customTabs), SourceId(old(dragId), payload), dropId);
        if plan.None? then unchanged(this) && unchanged(app)
        else (app.customTabs == Move(old(app.customTabs), plan.value.0, plan.value.1)
          && app.activeTabId == old(app.activeTabId)
          && app.saves == old(app.saves) + [app.Current()]
          && dragId == None && hints == {} && inited && handlerSets == old(handlerSets))
    {
      ghost var plan := DropIndices(app.customTabs, SourceId(dragId, payload), dropId);
      if dropId.None? {
        return;
      }
      var toId := dropId.value;
      var fromId := SourceId(dragId, payload);
      if fromId == "" || toId == "" || fromId == toId {
        return;
      }
      var s := app;
      var fromIndex := FindIndex(s.customTabs, fromId);
      var toIndex := FindIndex(s.customTabs, toId);
      if fromIndex == -1 || toIndex == -1 {
        return;
      }
      assert plan == Some((fromIndex, toIndex));
      var before := s.customTabs;
      // Both splices, out of the list and back in at the target's index.
      var after := Move(before, fromIndex, toIndex);
      if s.activeTabId.Some? {
        MoveKeepsIds(before, fromIndex, toIndex, s.activeTabId.value);
      }
      s.customTabs := after;
      dragId := None;
      ClearDropHints();
      s.SaveState();
    }
  }

  /**
   * One whole gesture on an attached row — drag tab `fromId` (reported on start, the
   * platform giving no payload later), hover and drop on tab `toId`, end —
   * reorders exactly as Move says, saves once, and leaves the controller idle.
   */
  method DragGesture(c: DragController, fromId: string, toId: string)
    requires c.Valid() && c.inited
    requires fromId != "" && toId != "" && fromId != toId
    requires HasTab(c.app.customTabs, fromId) && HasTab(c.app.customTabs, toId)
    modifies c, c.app
    ensures c.Valid() && c.dragId == None && c.hints == {}
    ensures c.app.customTabs ==
      Move(old(c.app.customTabs), FindIndex(old(c.app.customTabs), fromId), FindIndex(old(c.app.customTabs), toId))
    ensures |c.app.saves| == |old(c.app.saves)| + 1
  {
    c.DragStart(false, Some(fromId));
    c.DragOver(Some(toId), "");
    c.Drop(Some(toId), "");
    c.DragEnd();
  }
}
