# Tab store model

A Dafny model of the tab store of an administrative web console
(`src/stores/tab.ts`). The store mirrors the routes the user has opened as a
row of closable tabs, IDE-style. Its state is an ordered list of tabs plus the
active path. Its operations open a tab, close one tab, close tabs relative to
an anchor tab (the others, those to its left, those to its right), and close
all tabs except the home tab.

The model is purely functional:

- `Tab` keeps the two fields of a normalized route that the store reads: `path`
  and `meta.withoutTab`.
- `TabState` is `tabs: seq<Tab>` plus `current: string`.
- Each close operation returns a `Step`: the new state plus `nav: Option<string>`.
  `nav` is the path the store hands to `router.push`. Navigation never changes
  `current` by itself; only `SetCurrentTab` does.
- `closeTab` can throw in the source: it reads `.path` of a neighbour that is
  `undefined`. The model returns `Failure(NoNeighbour)` for that case, and the
  state stays as it was.
- JavaScript indexing outside the list (`tabs[index + 1]` is `undefined`) is
  `At`. `findIndex`, `some` and `find` are `GetTabIndex`, `HasExistTab` and
  `FindRoute`. `filter` is `Seqs.Filter`.
- `initTab` looks up a route in the router's registry, using a path configured
  in the environment. Both the registry (`seq<Tab>`) and the configured path are
  parameters.

Files:

- `wrappers.dfy`: `Option` and `Result`.
- `seqs.dfy`: order-preserving `Filter`, the subsequence relation `SubSeq`, and
  lemmas about them.
- `tab_store.dfy`: the data model and every operation of the store.
- `tab_properties.dfy`: lemmas that relate operations to each other. It also
  defines `Apply`/`Run`, the store's public calls as a state machine.

Behaviours of the code a reader might not expect:

- Closing the active tab in an empty list, or in a list holding only that tab,
  throws. It does not degrade gracefully.
- `closeRightTabs` at a path with no tab (`findIndex` gives -1) treats the
  first tab as "a tab to the right". It keeps the empty prefix, so every tab is
  closed (`CloseRightTabsUnknownPathEmpties`).
- `closeLeftTabs` keeps whatever tab is first, home or not. It also does
  nothing when the tab just left of the anchor is the home tab, even if other
  tabs lie further left. Its navigation test searches `tabs[..i]`, and that
  prefix includes the first tab, which is kept.
- `closeAllTabs` keeps every tab at `/home`, not one home tab. It filters
  first and navigates afterwards. The home tab that `initTab` opens is found by
  a configured path, while the closes use the literal `/home`; when no tab is at
  `/home`, closing all empties the list (`CloseAllTabsWithoutHomeEmpties`).

## Model

| member | source | states |
|---|---|---|
| `TabStore.SetCurrentTab` | src/stores/tab.ts:36-38 | the active path becomes the argument and the tab list is untouched |
| `TabStore.HasExistTab` | src/stores/tab.ts:41-46 | true exactly when some tab in the list has the given path |
| `TabStore.GetTabIndex` | src/stores/tab.ts:49-51 | -1 exactly when no tab has the path; otherwise the index of the first tab with that path |
| `TabStore.IsTabReturn` | src/stores/tab.ts:54-56 | the small-list guard holds only for one or two tabs; with two tabs exactly when the anchor is not `/home`, otherwise exactly when one tab is open |
| `TabStore.FindRoute` | src/stores/tab.ts:60 | None exactly when no registered route has the path; otherwise the first registered route with that path |
| `TabStore.InitTab` | src/stores/tab.ts:59-63 | when the registry has a route at the configured home path, the first such route is appended after the unchanged old tabs; otherwise the state is unchanged |
| `TabStore.AddTab` | src/stores/tab.ts:66-73 | unchanged for a `withoutTab` route or an already open path; otherwise exactly the route is appended and earlier tabs are unchanged |
| `TabStore.CloseTab` | src/stores/tab.ts:76-100 | throws exactly when the active path is closed and no other tab exists; otherwise removes every tab at the path and keeps all others in order with their multiplicities; navigates only when the path is active, to the next tab or else the previous one |
| `TabStore.CloseOtherTabs` | src/stores/tab.ts:103-121 | a no-op under the small-list guard; otherwise keeps exactly the tabs at the anchor or `/home`, in order, and navigates to the anchor exactly when it was not active |
| `TabStore.CloseLeftTabs` | src/stores/tab.ts:124-142 | a no-op under the small-list guard; outside it, when the tab left of the anchor exists and is not home, the result is the first tab followed by the anchor and everything after it; navigates to the anchor exactly when it is not active and the active path was left of it; otherwise a no-op |
| `TabStore.CloseRightTabs` | src/stores/tab.ts:145-161 | a no-op under the small-list guard; outside it, when a tab right of the anchor exists, the result is the prefix ending at the anchor; navigates to the anchor exactly when it was not active; otherwise a no-op |
| `TabStore.CloseAllTabs` | src/stores/tab.ts:164-173 | a no-op with exactly one tab; otherwise keeps exactly the tabs at `/home`, in order, and navigates to `/home` |
| `Seqs.Filter` | src/stores/tab.ts:96-98 | the result is a subsequence of the input holding every element that passes the test, with its multiplicity, and no other |
| `TabProperties.AddTabIdempotent` | src/stores/tab.ts:66-73 | adding the same route twice gives the same state as adding it once |
| `TabProperties.AddTabOpensPath` | src/stores/tab.ts:66-73 | after adding a route not flagged `withoutTab`, a tab at its path is open |
| `TabProperties.AddTabKeepsDistinctPaths` | src/stores/tab.ts:66-73 | adding a route never creates two tabs with one path |
| `TabProperties.AddThenCloseRestores` | src/stores/tab.ts:76-100 | closing a freshly added, inactive tab gives back the exact state before it was added, with no navigation |
| `TabProperties.InitTabDistinctPaths` | src/stores/tab.ts:59-63 | on a list with distinct paths, the result keeps them distinct exactly when the home route is not both registered and already open |
| `TabProperties.SubSeqKeepsDistinctPaths` | src/stores/tab.ts:95-99 | keeping a subsequence of tabs never creates two tabs with one path |
| `TabProperties.CloseLeftTabsIsSubSeq` | src/stores/tab.ts:132-141 | the tabs after closing to the left are a subsequence of the tabs before |
| `TabProperties.CloseRightTabsIsSubSeq` | src/stores/tab.ts:153-160 | the tabs after closing to the right are a subsequence of the tabs before |
| `TabProperties.ApplyKeepsDistinctPaths` | src/stores/tab.ts:175-185 | each exported call except `initTab` preserves pairwise distinct tab paths |
| `TabProperties.RunKeepsDistinctPaths` | src/stores/tab.ts:175-185 | any sequence of exported calls except `initTab` preserves pairwise distinct tab paths |
| `TabProperties.StartupKeepsDistinctPaths` | src/stores/tab.ts:28-31 | from the reset state, one `initTab` followed by any sequence of the other calls never opens two tabs at one path |
| `TabProperties.CloseTabKeepsShownTab` | src/stores/tab.ts:76-100 | on distinct paths with the active path open, the page shown after a successful close is still an open tab |
| `TabProperties.CloseOtherTabsKeepsShownTab` | src/stores/tab.ts:103-121 | with the anchor and the active path open, the page shown afterwards is still an open tab |
| `TabProperties.CloseLeftTabsKeepsShownTab` | src/stores/tab.ts:124-142 | with the active path open, the page shown afterwards is still an open tab |
| `TabProperties.CloseRightTabsKeepsShownTab` | src/stores/tab.ts:145-161 | with the anchor and the active path open, the page shown afterwards is still an open tab |
| `TabProperties.CloseAllTabsKeepsShownTab` | src/stores/tab.ts:164-173 | with a home tab and the active path open, the page shown afterwards is still an open tab |
| `TabProperties.CloseOtherTabsIdempotent` | src/stores/tab.ts:103-121 | closing the others a second time leaves the tabs as they are |
| `TabProperties.CloseLeftTabsIdempotent` | src/stores/tab.ts:124-142 | closing to the left a second time leaves the tabs as they are |
| `TabProperties.CloseRightTabsIdempotent` | src/stores/tab.ts:145-161 | closing to the right a second time leaves the tabs as they are |
| `TabProperties.CloseAllTabsIdempotent` | src/stores/tab.ts:164-173 | closing all a second time leaves the tabs as they are |
| `TabProperties.CloseRightTabsUnknownPathEmpties` | src/stores/tab.ts:149-159 | outside the guard, closing right of a path with no tab closes every tab |
| `TabProperties.CloseAllTabsWithoutHomeEmpties` | src/stores/tab.ts:164-173 | with no tab at `/home` and not exactly one tab, closing all empties the list and still navigates to `/home`, a page with no tab |
| `TabProperties.CloseTabFailsOnlyWithoutNeighbour` | src/stores/tab.ts:80-88 | closing the active path succeeds whenever some tab with another path is open |

## Left out

- `src/api/index.ts`: two HTTP calls passed through to a request wrapper that is not part of this model; there is no logic to verify.
- Reactivity (`defineStore`, `useReset`, `toRef`, `toRefs`): the state is a plain immutable value, and a reset is the constant `Initial`.
- `router.push`: it is asynchronous and may fail. It is returned as `nav`. `closeTab`, `closeOtherTabs`, `closeLeftTabs` and `closeRightTabs` await it before changing the tab list, and the model takes that navigation to settle; `closeAllTabs` changes the list first and navigates afterwards. A rejected navigation, which the source does not handle, is not modelled.
- The router's own update of the active path after navigating lives outside the store and is not part of this model, so `current` changes only through `SetCurrentTab`.
- Route fields other than `path` and `meta.withoutTab`: the store never reads them.
- `import.meta.env.VITE_HOME_PATH` and `router.getRoutes()`: both are parameters of `InitTab`.
- The thrown `TypeError` of `closeTab` is modelled as a `Failure` value with the state unchanged; the error's message is not modelled.
