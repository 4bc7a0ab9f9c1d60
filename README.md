# LaunchPad new-tab page: tab/link state and drag-reorder, in Dafny

This project models the core of a browser new-tab page. The page shows up to five
user-defined tabs. Each tab holds an ordered list of link cards. The state is kept in the
extension's local storage. Two parts of the page are modelled:

- **The page state of `newtab.js`**. This is the module-level
  `state = {activeTabId, customTabs}` and the handlers that change it: `loadState`,
  `saveState`, `onCreateTab`, and the tab menu's rename, delete-all-links and delete. It also
  covers `addLinkToActiveTab` and the link cards' edit and remove, plus the helpers
  `normalizeUrl` and `isProbablyUrl`. It is the class `NewTab.AppState` (file `newtab.dfy`).
  Tabs and links are values (`TabModel.Tab`, `TabModel.Link`). The array built-ins the
  handlers use (`findIndex`/`find`, `some`, `filter`, `splice`) are functions in `TabModel`.
  `String.prototype.trim` is `JsText.Trim`. The URL helpers are in `Urls`.
- **The drag-reorder controller of `tabs-dnd.js`**. `lpInitTabsDnD` attaches four handlers to
  the tab row once. It keeps its state in `__lpDndInited` and `__lpDragId` and marks the
  hovered tab with a "drop-hint" class. This is the class `TabsDnD.DragController`. It holds
  a reference to the page's `AppState`, which stands for `getState`. A drop performs the
  remove-then-insert splice on the page's tab list and saves the page.

Interactive input is passed in as parameters. A `prompt` answer is an `Option<string>`, with
`None` for a cancelled dialog (JavaScript `null`). A `confirm` answer is a `bool`. The id
that `makeId()` would build from the clock is also a parameter. `saveState` appends a
`Snapshot` of both fields to `AppState.saves`. The last snapshot is what storage holds, and
`Persisted` says what reading it back yields. What a browser event carries comes in
as parameters, different for each handler. `DragStart` takes whether the drag began on the
burger button and the `data-tab-id` of the nearest tab element. `DragOver` and `Drop` take
that tab id and the drag payload string. `DragEnd` takes nothing.

JavaScript truthiness of a `string | null` is `NewTab.Truthy`: both `null` and `""` are
falsy. The model follows this wherever the code tests `!x` or `x || y`.

The model follows the code exactly, including these behaviours that are easy to miss:

- `onCreateTab` rejects only a cancelled or empty answer (newtab.js:282). A name of blanks
  is accepted and stored with the title `""`. The handler does not refuse a sixth tab. Only
  `renderTabs` hides the "+" button at five tabs (newtab.js:159). `CreateTab` therefore
  promises at most five tabs only when the button was shown.
- Rename and every link handler test the answer before trimming it. So blank answers are
  accepted there too, and a blank URL becomes `"https://"`.
- `tabs[0]?.id || null` yields `null` when the first tab's id is the empty string
  (newtab.js:29, newtab.js:255). An empty list is not the only case in which the active id
  is null. `FirstIdOrNull` states this exactly.
- The saved active id is kept on load only when it is a non-empty string
  (newtab.js:21-24).
- Load silently drops every stored tab beyond the fifth (newtab.js:16-18). The next save
  then makes the loss permanent.

## Model

| member | source | states |
|---|---|---|
| JsText.Trim | newtab.js:219 | `name.trim()`: what it keeps is one contiguous piece of the input and everything cut away on either side is white space; the result neither starts nor ends with a trimmable character, and it is empty exactly when the input is all white space or empty |
| JsText.TrimKeepsTrimmed | newtab.js:383 | a string with no white space at either end is its own trim |
| JsText.TrimIdempotent | newtab.js:478 | trimming twice is trimming once |
| Urls.NormalizeUrl | newtab.js:45-48 | the result always carries an http(s) scheme; it equals the input exactly when the input already has the scheme in any letter case, and is otherwise "https://" plus the input |
| Urls.NormalizeUrlIdempotent | newtab.js:45-48 | normalizing twice equals normalizing once |
| Urls.NormalizedIsProbablyUrl | newtab.js:41-48 | every normalized URL passes the search box's URL heuristic |
| Urls.IsProbablyUrlExamples | newtab.js:41-43 | "a.b" and "HTTP://localhost" are probably URLs; "weather" is not |
| Urls.NormalizeUrlExamples | newtab.js:45-48 | "example.com" and "mail.google.com" get "https://" in front; "http://x.com" and "HttpS://Mail.example" stay unchanged |
| Urls.HasHttpScheme | newtab.js:42 | the scheme pattern read piece by piece: "http" in any letter case, then "://" directly or after an `s` of either case |
| Urls.IsProbablyUrl | newtab.js:41-43 | true exactly when the scheme test passes or some character is a dot; whatever it rejects would get "https://" from `normalizeUrl` |
| TabModel.HasTab | newtab.js:24 | `some` by id: true exactly when some tab of the list, wherever it stands, has the id; never on an empty list |
| TabModel.FindIndex | tabs-dnd.js:63-64 | `findIndex` by id: the first index holding the id, and -1 exactly when no tab has it |
| TabModel.WithoutId | newtab.js:252 | `filter` by id: a tab is in the result iff it is in the input with a different id; with no such id the list is unchanged |
| TabModel.WithoutIdAppend | newtab.js:252 | the filter distributes over concatenation, so the surviving tabs keep their order |
| TabModel.WithoutIdKeepsOtherIds | newtab.js:252 | every other id is present after the filter iff it was present before |
| TabModel.WithoutIdRemovesId | newtab.js:252 | no tab with the deleted id is left |
| TabModel.RemoveAt | newtab.js:394 | `splice(i, 1)`: one element shorter, the earlier elements in place, the later ones shifted left, the removed element accounted for in the multiset |
| TabModel.InsertAt | tabs-dnd.js:68 | `splice(i, 0, x)`: one element longer, `x` at `i`, the later elements shifted right, the multiset grows by `x` |
| TabModel.Move | tabs-dnd.js:63-68 | the drop's remove-then-insert: the same length and the same multiset of tabs, the dragged tab at the target's original index, and the other tabs in their old relative order |
| TabModel.MovePositions | tabs-dnd.js:67-68 | outside the span between source and target no tab moves; inside it the tabs shift by one position towards the source's old place |
| TabModel.MoveUndo | tabs-dnd.js:67-68 | dragging the moved tab back onto its old index restores the list |
| TabModel.MoveKeepsIds | tabs-dnd.js:67-68 | a reorder neither adds nor loses any id |
| NewTab.FirstIdOrNull | newtab.js:29 | the fallback `customTabs[0]?.id` or null: either the id of the first tab, or null exactly when there is no tab or the first id is "" |
| NewTab.LoadedTabs | newtab.js:15-18 | a stored value that is not an array loads as no tabs; otherwise the stored list is cut to a prefix of at most 5 tabs, kept whole when it has 5 or fewer, and cut to exactly 5 when longer |
| NewTab.ResolveActive | newtab.js:21-30 | the loaded active id equals the saved one exactly when that is a non-empty string naming a loaded tab, and is otherwise the first tab's id or null; it is always null or a loaded tab's id, and null when no tab is loaded |
| NewTab.ReloadRestoresSnapshot | newtab.js:13-38 | saving a snapshot that load would produce itself and loading it back returns that snapshot unchanged |
| NewTab.LoadDropsActiveBeyondCap | newtab.js:15-30 | with more than 5 stored tabs and unique ids, a saved active id that names a tab beyond the fifth loads as the first tab's id |
| NewTab.AppState.ActiveTabIndex | newtab.js:466-469 | the tab the link handlers edit: -1 exactly when the active id is falsy or names no tab; otherwise the first index whose tab has the active id |
| NewTab.CreateWhileShown | newtab.js:159-164 | clicking "+" only while the button is shown, with any answers and ids, never leaves more than 5 tabs and keeps the earlier tabs in front; each click relies on `CreateTab`'s promise that a create made while "+" was shown stays within the cap |
| NewTab.AppState.constructor | newtab.js:7-10 | the initial state: no active id, no tabs, nothing saved yet |
| NewTab.AppState.SaveState | newtab.js:33-38 | records exactly one snapshot of both fields and changes neither field |
| NewTab.AppState.LoadState | newtab.js:13-31 | the tabs become `LoadedTabs` of the stored value and the active id becomes `ResolveActive`; the active-id invariant holds afterwards and nothing is saved |
| NewTab.AppState.Init | newtab.js:591-593 | load, then exactly one save of the loaded state |
| NewTab.AppState.CreateTab | newtab.js:280-291 | a cancelled or empty name changes nothing; otherwise exactly one tab `{id, trim(name), []}` is appended after the untouched old tabs, it becomes active, one save follows; at most 5 tabs when the "+" button was shown |
| NewTab.AppState.RenameTab | newtab.js:212-219 | an unknown id or a cancelled/empty name changes nothing; otherwise only the first matching tab's title becomes the trimmed name, its links and every other tab stay, one save follows |
| NewTab.AppState.ClearLinks | newtab.js:227-237 | an unknown id or a refusal changes nothing; otherwise only the first matching tab's links become empty, one save follows |
| NewTab.AppState.DeleteTab | newtab.js:248-256 | a refusal changes nothing; otherwise the list becomes the filter by id, the active id falls back to the first remaining tab or null only if it was the deleted id, one save follows; the active id stays valid |
| NewTab.AppState.AddLinkToActiveTab | newtab.js:466-478 | no truthy active tab, or a cancelled/empty title or URL, changes nothing; otherwise `{trim(title), normalizeUrl(trim(url))}` is appended to the active tab's links with everything else unchanged, one save follows |
| NewTab.AppState.EditLink | newtab.js:375-385 | a cancelled/empty answer changes nothing; otherwise link i of the active tab is replaced wholesale, the link count kept, one save follows |
| NewTab.AppState.RemoveLink | newtab.js:390-394 | a refusal changes nothing; otherwise link i of the active tab is spliced out and the later links shift up, one fewer link, one save follows |
| NewTab.NewPageWithTab | newtab.js:280-291 | creating a tab on the initial empty state leaves exactly that tab, named by the trimmed name, with no links, and active |
| NewTab.CreateAndAdd | newtab.js:466-478 | adding a link to a just-created tab makes the last save hold exactly that tab, active, with the one trimmed and normalized link |
| NewTab.CreateAddReload | newtab.js:13-38 | creating a tab (lines 280-291), adding a link to it (lines 466-478) and loading from the last save gives back exactly that active tab with that one link, title trimmed and URL normalized |
| NewTab.AddEditRemoveKeepsCount | newtab.js:375-394 | adding a link (lines 466-478), editing it and removing it, each followed by a save (lines 33-38), leaves the active tab's link count as it was |
| TabsDnD.SourceId | tabs-dnd.js:57 | the dragged id (read the same way on dragover, line 42) is the controller's own drag id when truthy and the payload otherwise; it is empty exactly when the drag id is falsy and the payload empty |
| TabsDnD.DropIndices | tabs-dnd.js:53-65 | the drop aborts exactly when there is no target, the source or target id is falsy, they are equal, or either is not in the list; otherwise gives the two distinct first indices holding the two ids |
| TabsDnD.DragController.constructor | tabs-dnd.js:4 | a row not yet attached to: not attached, idle, nothing hinted |
| TabsDnD.DragController.Attach | tabs-dnd.js:4-9 | on an attached row nothing changes at all; otherwise the handlers are added once and the controller starts idle; handlers are attached exactly once afterwards |
| TabsDnD.DragController.DragStart | tabs-dnd.js:11-25 | a drag from the burger or outside any tab element is ignored; otherwise the controller is dragging that tab's id |
| TabsDnD.DragController.ClearDropHints | tabs-dnd.js:77-79 | no tab keeps the hint; nothing else changes |
| TabsDnD.DragController.DragEnd | tabs-dnd.js:27-33 | always back to idle (drag id null) with no hint |
| TabsDnD.DragController.DragOver | tabs-dnd.js:35-48 | with a truthy source id (drag id, else payload) different from the hovered tab, exactly that tab is hinted; otherwise nothing changes; never more than one hint |
| TabsDnD.DragController.Drop | tabs-dnd.js:50-74 | when DropIndices aborts nothing changes; otherwise the tab list becomes `Move` at those indices, the active id stays valid, the controller is idle with no hint, and exactly one save follows |
| TabsDnD.DragGesture | tabs-dnd.js:11-74 | one whole gesture dragging one present tab onto another reorders as `Move` says, saves exactly once and ends idle without a hint |

## Left out

- `background.js` is not part of this model. Its network fetch, data-URL encoding and message listener are I/O plumbing.
- `fetchIconDataUrl` (cross-process message passing), `dominantColorFromDataUrl` (image decoding, canvas pixels, floating-point scaling) and `faviconUrl`/`getDomain` (the platform URL parser) are not modelled. They only decorate cards.
- DOM rendering and menu construction are not modelled: `renderTabs`, `renderGrid`'s card building, `makeTabButton`, `makeAddCard`, `makeLinkCard`, `toggleMenu`, `toggleLinkMenu` and the `closeAll*` helpers. From this layer the model keeps only the "+" button's visibility rule, as `AddButtonShown`, which `CreateWhileShown` uses.
- The tab button's click handler (newtab.js:172-177), which sets the active id to the clicked tab, is view glue and is not modelled.
- The search box's keydown handler navigates with `location.href`. It is not modelled. Its classifier, `isProbablyUrl`, is modelled as `Urls.IsProbablyUrl`.
- `saveState` and `loadState` are asynchronous storage calls. They are modelled as synchronous steps. A storage failure is not modelled.
- `makeId` reads the clock, so the id is a parameter. The code does not enforce unique ids, and the model does not claim it.
- Stored array elements are taken to be tab records. A stored list holding values of other shapes is not modelled.
- Tabs and links are modelled as values. The handlers' in-place writes (`tab.title = …`, `tab.links = []`, `tab.links.push`, `tab.links[i] = …`) become an update of the list at the tab's index. Object identity and aliasing of tab objects are not modelled.
- The link card closures capture the tab and index at render time, and the grid is re-rendered after every change. So `EditLink` and `RemoveLink` require that there is a truthy active tab and that the index is in range. Stale closures are not modelled.
- The drag handlers are methods that require an attached row, because the handlers only exist after `lpInitTabsDnD`. The "dragging" CSS class, `effectAllowed` and the writing of the drag payload are visual or platform details. They are not modelled. The payload a handler reads is a parameter.
- JavaScript strings are UTF-16. The model uses Unicode scalar values. This matters to none of the operations modelled.
- `Urls.IsProbablyUrl`'s regular expression is modelled for ASCII letter case only. This is how a regular expression with the `i` flag and without the `u` flag behaves for the letters of "https".
