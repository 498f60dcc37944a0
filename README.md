# Tabbed layout container: tab-set state machine and layout transfer

This project models, in Dafny, the local logic of a desktop "tabbed layout"
UI built on the OpenFin platform. Each tab hosts one dockable layout. The
layout engine, windows and views belong to the platform runtime, so the
logic that lives in the repository is small:

- the **tab-set state machine** of `LayoutContainer` (with a close button on
  every tab) and of its earlier variant `TabsContainer` (no close): an ordered
  list of `{layoutName, layout}` entries and the index of the active tab,
  changed by the platform's initial snapshot, by the platform's request to
  show a layout, by a tab-header click and by a tab close;
- the **layout transfer protocol** of `move-layout.ts`: tearing a layout out
  into a new window, and moving a layout of another window of the same
  application into this one.

Modules:

- `Wrappers` (`wrappers.dfy`): `Option` and `Result`.
- `TabSet` (`tab_set.dfy`): the values both containers compute. A layout
  configuration is the opaque type `Config`. `FindIndex` is `findIndex` on the
  name, `RemoveNamed` is the `filter` of a close, `TabChange` is
  `Math.min(index, length - 1)`, `CloseActive` is the active-index repair,
  `ObjectKeys`/`EntriesOf` turn the snapshot's `layouts` object into the list,
  `ActiveFlags` is the `active` prop handed to each rendered layout.
  `WellFormed` is the intended shape of the state: unique names, and an
  active index inside the list (0 when it is empty).
- `LayoutContainer` (`layout_container.dfy`) and `TabsContainer`
  (`tabs_container.dfy`): one class per component. The two React state cells
  are fields; each handler is a method that assigns them, proved against the
  `TabSet` functions.
- `MoveLayout` (`move_layout.dfy`): `TransferLayout` and `TearoutLayout`. The
  platform is not modelled: each method returns the list of requests it
  sends, in the order sent, and reads the platform's answers from a
  `Platform` value (a layout with no config or no view list rejects that
  request, a listed view can reject its attach, window creation can be
  rejected).

Three rules of the code shape the state machine:

- the snapshot handler replaces the list and does not touch
  `currentActiveTab`, so after a snapshot with fewer layouts the index can lie
  outside the list (`IsSnapshotOf` describes the list; nothing is said about
  the index);
- a tab-header click clamps the index only from above (`min(index, len-1)`),
  so with no tabs the index becomes -1 (`TabChange`, `TabChangeWellFormed`);
- a close repairs the index by `active < index ? active : max(0, active - 1)`
  (`CloseActive`, `CloseTab`).

## Model

| member | source | states |
|---|---|---|
| `TabSet.ObjectKeys` | app/components/LayoutContainer.tsx:28 | `Object.keys(layouts)` lists every key of the snapshot exactly once; the order is left free because the platform builds the object and its key creation order is unknown |
| `TabSet.EntriesOf` | app/components/LayoutContainer.tsx:28-31 | the `.map` over the keys: as many entries as keys, position i holding the i-th key and `layouts[key]` |
| `TabSet.SnapshotEntries` | app/components/LayoutContainer.tsx:25-33 | the list built from a snapshot has one entry per key, carrying that key's config, no name twice, and as many entries as keys |
| `TabSet.IsTruthy` | app/components/LayoutContainer.tsx:38 | the truth test `if (id.layoutName)`: false exactly for an absent name and for the empty string |
| `TabSet.FindIndex` | app/components/LayoutContainer.tsx:39-41 | `findIndex` on the name: -1 exactly when no entry has the name, otherwise an in-range position holding the name with no earlier entry holding it |
| `TabSet.ShowLayout` | app/components/LayoutContainer.tsx:37-46 | with a truthy name present in the list, the new active index is the first position holding that name, as `findIndex` returns; with an absent or empty name, or a name not in the list, the index is unchanged |
| `TabSet.ShowLayoutWellFormed` | app/components/LayoutContainer.tsx:37-46 | showing a layout keeps unique names and an in-range active index |
| `TabSet.TabChange` | app/components/LayoutContainer.tsx:54-58 | the new index is the minimum of the clicked index and `len-1`: never above either, equal to one of them, an in-range index kept as is, -1 with no tabs |
| `TabSet.TabChangeWellFormed` | app/components/LayoutContainer.tsx:54-58 | a click on a tab keeps the state well formed exactly when there is at least one tab |
| `TabSet.CloseActive` | app/components/LayoutContainer.tsx:69-73 | the index repair on close: unchanged when the active tab is left of the closed one, otherwise one less, but 0 when that would go below 0 |
| `TabSet.RemoveNamed` | app/components/LayoutContainer.tsx:76 | the close filter never lengthens the list |
| `TabSet.RemoveNamedMembers` | app/components/LayoutContainer.tsx:76 | an entry survives the close exactly when it was in the list and carries another name |
| `TabSet.RemoveNamedAppend` | app/components/LayoutContainer.tsx:76 | the filter distributes over concatenation, so the entries that stay keep their relative order |
| `TabSet.RemoveNamedAbsent` | app/components/LayoutContainer.tsx:76 | closing a name no entry carries leaves the list unchanged |
| `TabSet.RemoveNamedAt` | app/components/LayoutContainer.tsx:60-77 | with unique names, closing the name found at `index` removes exactly that position |
| `TabSet.RemoveAtUnique` | app/components/LayoutContainer.tsx:76 | removing one position keeps names unique and shifts every later entry one to the left |
| `TabSet.CloseTab` | app/components/LayoutContainer.tsx:60-77 | closing the tab at `index` of a well-formed state leaves a well-formed state with the active index in `[0, max(0, len'-1)]`; when the closed tab was not the active one, the same tab is still active |
| `TabSet.ActiveFlags` | app/components/LayoutContainer.tsx:110 | the `active` prop of each rendered layout: one flag per entry, flag i true exactly when `currentActiveTab === i`, so no two are true |
| `TabSet.ActiveFlagCount` | app/components/LayoutContainer.tsx:108-114 | the number of rendered layouts with `active` true is 1 when the active index is a position of the list and 0 otherwise |
| `LayoutContainer.LayoutContainer.constructor` | app/components/LayoutContainer.tsx:17-18 | the state starts as an empty list with active index 0 |
| `LayoutContainer.LayoutContainer.ApplyLayoutSnapshot` | app/components/LayoutContainer.tsx:25-33 | the list is replaced by one entry per snapshot key with its config and unique names; the active index is unchanged |
| `LayoutContainer.LayoutContainer.ShowLayout` | app/components/LayoutContainer.tsx:37-46 | the list is unchanged, the active index becomes `TabSet.ShowLayout` of the old state, and a well-formed state stays well formed |
| `LayoutContainer.LayoutContainer.HandleTabChange` | app/components/LayoutContainer.tsx:54-58 | the list is unchanged and the active index becomes `min(index, len-1)`; from a well-formed state the result is well formed exactly when the list is non-empty |
| `LayoutContainer.LayoutContainer.HandleTabClose` | app/components/LayoutContainer.tsx:60-77 | the list loses the entries named `layoutName` and the index is repaired; with the wiring of the tab strip (name at `index`) in a well-formed state, exactly that position goes, the state stays well formed and a tab that was active and not closed stays active |
| `LayoutContainer.LayoutContainer.RenderedActive` | app/components/LayoutContainer.tsx:108-114 | flag `i` is true exactly when `currentActiveTab == i`; at most one flag is true, and exactly one when the index is in range |
| `TabsContainer.TabsContainer.constructor` | app/TabsContainer.tsx:19-20 | the state starts as an empty list with active index 0 |
| `TabsContainer.TabsContainer.ApplyLayoutSnapshot` | app/TabsContainer.tsx:27-35 | the list is replaced by one entry per snapshot key with its config and unique names; the active index is not touched |
| `TabsContainer.TabsContainer.ShowLayout` | app/TabsContainer.tsx:39-48 | the list is unchanged; the active index moves to the named layout when the name is truthy and present, otherwise stays; well-formedness is kept |
| `TabsContainer.TabsContainer.HandleTabChange` | app/TabsContainer.tsx:55-58 | the list is unchanged and the active index becomes `min(index, len-1)`, at most `len-1` |
| `TabsContainer.TabsContainer.RenderedActive` | app/TabsContainer.tsx:76-82 | at most one rendered layout container is active, and exactly one when `0 <= currentActiveTab < len` |
| `MoveLayout.TransferForbidden` | app/components/move-layout.ts:34-37 | the transfer guard: a transfer is allowed exactly when the layout is of the caller's application and in another window than the caller's |
| `MoveLayout.ProviderIdentity` | app/components/move-layout.ts:44 | the attach target is the provider window `{uuid: me.uuid, name: me.uuid}` |
| `MoveLayout.AttachAll` | app/components/move-layout.ts:50-52 | one attach request per view, in list order, all to the given target; the combined promise fails exactly when some attach is rejected |
| `MoveLayout.AttachedViewsOfAttaches` | app/components/move-layout.ts:50-52 | the attach requests name every view exactly as often as the view list does |
| `MoveLayout.TransferRequestsShape` | app/components/move-layout.ts:41-52 | a transfer that reaches the attaches sends the config read first, the views listing second, and after them exactly one attach per view, in list order, to the target, and nothing else |
| `MoveLayout.TransferLayout` | app/components/move-layout.ts:29-55 | a transfer of a layout that is already in the caller's window (`layoutIdentity.name == me.name`), or of a layout of another application, fails with no request sent; otherwise the config is read first, the views are listed second, and the rest of the log is exactly one attach per listed view, in list order, to `{uuid: me.uuid, name: me.uuid}`, with nothing else sent; it succeeds exactly when no request is rejected and then returns the config that was read |
| `MoveLayout.TearoutSnapshot` | app/components/move-layout.ts:10-16 | the tear-out snapshot holds exactly one layout, keyed by the layout's name, with the fetched config |
| `MoveLayout.TearoutLayout` | app/components/move-layout.ts:7-22 | the config is read first; if it was read, exactly one `createWindow` follows, with reason `"tearout"` and a snapshot holding only that layout and its config; it succeeds exactly when neither request is rejected |

## Left out

- Adding a tab, reordering or shuffling tabs, and removal notified by the platform: none of these appears in the code of the two containers, so they are not modelled.
- Rendering: JSX, MUI components, styles, `ev.stopPropagation()`, `app/page.tsx`, and the `Layout` component of `app/components/Layout.tsx` (which only calls the platform's `Layout.create` and `Layout.destroy` from a React effect). Only the `active` flag rule of the render is modelled.
- `app/components/types.ts`: the style constants and `DEFAULT_LAYOUT` are not logic; a layout configuration is the opaque type `Config`.
- React hook semantics: state-setter batching and effect lifecycles are not modelled; each handler assigns both fields at once.
- LayoutContainer.LayoutContainer.ShowLayout: reads the current list. In the code the handler is a field of the layout-manager class created once, on the first render (`fin.Platform.Layout.init` runs in an effect with no dependencies), so it reads the list captured then, which is the initial `useState([])` value; as written `findIndex` therefore always returns -1 and `showLayout` never changes the active tab. The model does not reproduce that stale capture.
- TabsContainer.TabsContainer.ShowLayout: the same stale capture applies; the captured list is always empty, so as written the handler never changes the active tab. The model reads the current list instead.
- `fin.Platform.Layout.init` and the registration of the overridden layout manager are not modelled; the handlers are called directly.
- The OpenFin SDK calls (`getConfig`, `getCurrentViews`, `View.attach`, `createWindow`) are recorded as requests only; their effects on windows and views are not modelled. `wrapSync` and `getCurrentSync` are local and send no request, so they are not recorded.
- Concurrency of `Promise.all`: the attach requests are recorded in the order `map` issues them; their completion order and a partial failure (some views moved, some not) are not modelled. Any rejected request fails the whole call.
- Error values: the thrown `Error("Cannot transfer this layout")` is `CannotTransfer`, and every rejection by the platform is `RequestFailed`, without its reason.
