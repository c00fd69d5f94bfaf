# Lazy tab container, modelled in Dafny

A model of `LazyTabContainer` and its `Visibility` gate from the ComposeLazyTab
library. The container shows one of `n` tab panes at a time and mounts the
others lazily:

- **Required set.** The selected index must be loaded. With `preloadAdjacent`
  its in-range neighbours must be loaded too.
- **Load and evict.** A persistent set of loaded indices gains every required
  index. With `persistTabs == false` it also loses every index that is not
  required.
- **Render.** Each loaded index of the tab list is drawn through the gate. The
  gate is told to show only the selected index. Hidden panes stay mounted, but
  they are transparent, stacked below the visible pane and cannot be clicked.

The two reactive effects of the container are modelled as one synchronous step,
`TabMount.Reconcile`. The lemmas show that their order does not matter.

Files and modules:

- `visibility_gate.dfy`, module `VisibilityGate`: the gate as a pure function
  from the visibility flag to stacking priority, alpha and clickability.
- `tab_mount.dfy`, module `TabMount`: the required set, the reconciliation step
  and the two effects written element by element.
- `tab_render.dfy`, module `TabRender`: the render pass over the tab list, and
  the exactly-one-visible property.
- `tab_history.dfy`, module `TabHistory`: sessions made of successive
  selections. Covers growth, eviction, idempotence, the size bound and concrete
  scenarios.

The loaded tabs are held in a `mutableStateMapOf<Int, Boolean>` whose only
stored value is `true`. The render pass tests `loadedTabs[index] == true`, so
the map is modelled as a `set<nat>` of its keys. Tab contents are opaque, and
only their number `n` enters the model.

The container has no error path for an out-of-range index or an empty tab
list, so `sel < n` (hence `n >= 1`) is a precondition of the required-set
computation and of reconciliation. The render pass needs no
precondition. For a selection without a pane, `TabRender.VisibleCountIsSelected`
shows that no pane is visible.

## Model

| member | source | states |
|---|---|---|
| TabMount.Required | library/src/main/java/com/vinsonguo/composetablazy/Components.kt:38-48 | The required set always contains the selection. Every element is a tab index. It has at most 3 elements. It is exactly `{sel}` without preloading, and `{0}` for a single tab. The ends give `{0,1}` and `{n-2,n-1}`. An interior selection gives itself and its two neighbours. |
| TabMount.RequiredIsWindow | library/src/main/java/com/vinsonguo/composetablazy/Components.kt:40-46 | The required set equals, in both directions, the set of tab indices within distance 1 (with preloading) or 0 (without) of the selection. |
| TabMount.Reconcile | library/src/main/java/com/vinsonguo/composetablazy/Components.kt:50-61 | After one step every required index is loaded, and nothing but the old entries and the required ones is loaded. With persistence nothing is lost. Without it the set is exactly the required set. The selection is always loaded. A set of valid tab indices stays one. |
| TabMount.EffectOrderIrrelevant | library/src/main/java/com/vinsonguo/composetablazy/Components.kt:50-61 | Without persistence, evict-then-load gives the same set as load-then-evict, and both give exactly the required set. |
| TabMount.ReconcileIdempotent | library/src/main/java/com/vinsonguo/composetablazy/Components.kt:50-61 | Reconciling a second time with the same inputs leaves the loaded set unchanged. |
| TabMount.LoadEffect | library/src/main/java/com/vinsonguo/composetablazy/Components.kt:50-54 | Inserting the required indices one at a time loads all of them, keeps every existing entry and adds nothing else. |
| TabMount.EvictEffect | library/src/main/java/com/vinsonguo/composetablazy/Components.kt:56-61 | Filtering the loaded keys that are not required, then removing them one at a time, leaves exactly the loaded indices that are required. |
| TabMount.RunEffects | library/src/main/java/com/vinsonguo/composetablazy/Components.kt:49-61 | Running the load effect and then, without persistence, the evict effect produces the reconciliation step's set. |
| TabMount.WithinTabsBound | library/src/main/java/com/vinsonguo/composetablazy/Components.kt:36 | A loaded set of valid tab indices never has more entries than there are tabs. |
| TabRender.RenderFrom | library/src/main/java/com/vinsonguo/composetablazy/Components.kt:64-69 | The panes from a given tab onwards are in strictly ascending tab order. They are exactly the loaded indices in range, and a pane is visible exactly when it is the selected tab. |
| TabRender.Render | library/src/main/java/com/vinsonguo/composetablazy/Components.kt:63-70 | Only loaded indices of the tab list get a pane, and every one of them gets exactly one, in tab order. The visibility flag of a pane is true exactly for the selected tab. |
| TabRender.IndicesAbove | library/src/main/java/com/vinsonguo/composetablazy/Components.kt:64 | In tab order, an index below every pane's index has no pane. |
| TabRender.VisibleCountIsSelected | library/src/main/java/com/vinsonguo/composetablazy/Components.kt:64-67 | In any ordered pane list where only the selection is flagged visible, the number of visible panes is 1 if the selection has a pane and 0 otherwise. |
| TabRender.ExactlyOneVisible | library/src/main/java/com/vinsonguo/composetablazy/Components.kt:63-70 | After a reconciliation step exactly one rendered pane is visible, and it is the selected tab's. |
| TabRender.FirstPassVisibleCount | library/src/main/java/com/vinsonguo/composetablazy/Components.kt:63-70 | A render pass over the loaded set as it stands, before the effects have run, shows one pane if the selection is loaded and in range, and none otherwise. |
| TabRender.SelectedPaneOnTop | library/src/main/java/com/vinsonguo/composetablazy/Components.kt:64-67 | After a reconciliation step the selected pane is stacked strictly above every other pane. It is the only opaque pane; every other pane is transparent and not clickable. |
| VisibilityGate.Gate | library/src/main/java/com/vinsonguo/composetablazy/Components.kt:90-108 | Clicks are enabled if and only if the pane is visible. Alpha is 1 exactly when visible and 0 exactly when hidden. A visible pane is stacked above the hidden priority, and a hidden one below the visible priority. |
| VisibilityGate.PerceivedIffVisible | library/src/main/java/com/vinsonguo/composetablazy/Components.kt:98-106 | A gated pane can be seen and clicked exactly when it was asked to be visible. |
| VisibilityGate.VisibleStacksAboveHidden | library/src/main/java/com/vinsonguo/composetablazy/Components.kt:93-94 | Visible content gets a strictly higher stacking priority (100) than hidden content (0). |
| TabHistory.Run | library/src/main/java/com/vinsonguo/composetablazy/Components.kt:36-61 | Over a session of valid selections, valid tab indices stay valid. With persistence the set never loses an entry. The last selection is always loaded. Without persistence the set ends as exactly the last selection's required set. |
| TabHistory.RunAppend | library/src/main/java/com/vinsonguo/composetablazy/Components.kt:36 | The loaded set persists across selections: a session split anywhere gives the same result as the whole session. |
| TabHistory.PersistNeverShrinks | library/src/main/java/com/vinsonguo/composetablazy/Components.kt:50-54 | With persistence, the loaded set after any prefix of a session is contained in the set after any longer prefix. |
| TabHistory.PersistLoadsEverythingRequired | library/src/main/java/com/vinsonguo/composetablazy/Components.kt:36-54 | With persistence, the loaded set after a session is the initial set plus every index that any selection required. |
| TabHistory.RunSizeBound | library/src/main/java/com/vinsonguo/composetablazy/Components.kt:36-61 | Starting from valid tab indices, the loaded set never holds more entries than there are tabs. |
| TabHistory.ReselectIsIdle | library/src/main/java/com/vinsonguo/composetablazy/Components.kt:50-61 | Selecting the current tab again leaves the loaded set unchanged. |
| TabHistory.ScenarioPersistentSwitch | library/src/main/java/com/vinsonguo/composetablazy/Components.kt:50-54 | With three tabs, no preloading and persistence, selecting 0, 1, 2 loads {0}, then {0,1}, then {0,1,2}. |
| TabHistory.ScenarioEvictingSwitch | library/src/main/java/com/vinsonguo/composetablazy/Components.kt:56-61 | With three tabs, no preloading and no persistence, selecting 0, 1, 2 leaves {0}, then {1}, then {2}. |
| TabHistory.ScenarioPreloadJump | library/src/main/java/com/vinsonguo/composetablazy/Components.kt:42-45 | Preloading follows only the selections made. Jumping from tab 0 to tab 2 of five loads {0,1}, then {0,1,2,3}, and never tab 4. |

## Left out

- Compose runtime mechanics are not modelled: `remember`, `derivedStateOf`, the
  scheduling of the two `LaunchedEffect`s and recomposition. The effects are one
  synchronous step, and `TabMount.EffectOrderIrrelevant` shows that their order
  does not change the result.
- TabRender.ExactlyOneVisible: holds only once the effects have run. The
  composition that follows a selection change renders from the loaded set as it
  was before the change, because the effects only update it after that
  composition. On that pass a tab that is not yet loaded has no pane, so no pane
  is visible, and without persistence the previous tab is still mounted.
  `TabRender.FirstPassVisibleCount` states what that pass shows.
- The tab count is fixed for a session. The required set is keyed only on the
  selection and the preload flag, so a changed tab count mid-session is not
  modelled.
- The gate's `zIndex` and alpha are floating-point constants (100 and 0, 1 and
  0). They are modelled as exact `real` constants with the same values.
- Drawing, hit-testing, `fillMaxSize`, the no-ripple `MutableInteractionSource`
  and the click handler itself are left out. The gate is modelled only by what
  it sets.
- Content panes are opaque. Their internal state and lifecycle are not
  modelled; only their membership in the loaded set is.
- The out-of-range selection and the empty tab list are not error paths. The
  code has no check for them, so they are preconditions.
- The demo application (activity, scaffold, navigation bar, and the delayed
  loading of its sample content) is not part of this model.
