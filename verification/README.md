# NUS achievement tree: a Dafny model of its progress engine

The application shows a skill tree of university achievements. A fixed
catalog of achievements forms a single-rooted tree through `parentId` links.
A session's progress is the list of unlocked ids plus the XP earned. Clicking
an achievement asks to unlock it. The request is accepted only when the node's
parent is already unlocked. The screen lays the tree out in columns by depth
and dims the nodes that are not yet reachable. A profile panel shows the
level, the within-level progress bar and a per-category completion chart.

This project models that core as pure functions over immutable datatypes and
proves what the code promises about it:

- `types.dfy` (module `Types`): the achievement record, the two enumerations,
  the progress value, and the truthiness rule for parent links.
- `tree.dfy` (module `Tree`): lookup by id, the parent-walking depth
  (`getDepth`), the depth columns of the layout, and the visibility predicate
  `canSee`.
- `progress.dfy` (module `Progress`): the unlock transition (`handleUnlock`),
  the session invariant it keeps, and sequences of requests.
- `stats.dfy` (module `Stats`): the per-category chart data, the level and the
  progress-bar width.
- `catalog.dfy` (module `Catalog`): the shipped catalog as a literal, and its
  integrity facts: unique ids, a single root, parents declared before their
  children, the depth of every node, and the five-column layout.

### How the code was read

- **Parent links are read by truthiness.** Both the unlock check and the
  visibility rule write `achievement.parentId && …` or `parentId ? … : true`.
  An empty-string parent therefore counts as no parent. `Types.ParentLink` is
  that reading, and every rule goes through it.
- **Two depth functions.** `Tree.GetDepth` is the walk as written: an
  accumulator, no guard against revisiting a node, and a `fuel` bound standing
  in for the call stack. `Tree.Depth` is a reference definition over
  catalogs whose resolvable parents sit at earlier indices (`ParentsPrecede`).
  `Tree.GetDepthTerminates` equates the two on such catalogs.
- **No cycle guard.** `getDepth` has no guard against revisiting a node, and
  the model follows the code: `Tree.CycleNeverBottomsOut` shows that on a
  two-node cycle the walk never returns, however many calls it is allowed. A
  `parentId` that names no entry is not reported either; the code gives that
  node depth 1.
- **Empty catalog.** For an empty catalog `Math.max()` of no arguments is
  minus infinity, so the layout loop runs zero times. `Tree.Columns` returns
  no columns then.
- **Arithmetic.** XP values are JavaScript numbers, modelled as unbounded
  integers. `Math.floor(totalXp / 100)` is Dafny's `/` because the divisor is
  positive. JavaScript's `%` truncates toward zero, so `Stats.JsRemainder100`
  writes out the sign rule.
- **Rejection as a value.** The source reports a rejected request with
  `alert` and returns nothing. `Progress.Unlock` returns an `Outcome` instead.
  `ParentLocked` is the only outcome the user is told about.

## Model

| member | source | states |
|---|---|---|
| Types.ParentLink | App.tsx:28 | A parent link exists exactly when `parentId` is present and non-empty, and it is that id |
| Tree.FindIndex | App.tsx:23 | Returns the index of the first entry with the id, and no earlier entry has it; no index exactly when no entry has the id |
| Tree.Find | App.tsx:48 | The entry found is the catalog entry at the first index holding the id, so it carries that id; nothing is found exactly when no entry has the id |
| Tree.FindIndexOfDistinct | App.tsx:23 | With pairwise distinct ids, the search for entry `i`'s id finds index `i` |
| Tree.DepthAt | App.tsx:47-51 | Depth is 0 exactly when the entry has no parent link, and never exceeds the entry's index plus one |
| Tree.DepthRecurrence | App.tsx:47-51 | Unknown ids and parentless entries have depth 0; any other entry sits one level below its parent id |
| Tree.GetDepthWithinBudget | App.tsx:47-51 | Given as many calls as the entry's index plus two, the accumulator walk returns the start value plus the reference depth |
| Tree.GetDepthTerminates | App.tsx:47-51 | When parents precede children, the walk from 0 bottoms out within catalog size plus one calls, at the reference depth |
| Tree.CyclicCatalogIsIllFormed | App.tsx:47-51 | A catalog whose two entries are each other's parent breaks the parents-precede condition |
| Tree.CycleNeverBottomsOut | App.tsx:47-51 | On that cyclic catalog the walk from either id never returns a depth, for any number of calls |
| Tree.NodesWithDepth | App.tsx:53 | Yields one node per catalog entry, in catalog order, carrying that entry |
| Tree.NodeDepthsAreWalked | App.tsx:53 | The depth paired with each entry is what the parent walk computes for its id |
| Tree.MaxDepth | App.tsx:54 | The result bounds every node's depth and is reached by some node |
| Tree.MaxDepthIs | App.tsx:54 | A depth that some node has and that bounds all nodes is the maximum |
| Tree.ColumnHoldsDepth | App.tsx:58 | Column `k` contains a node exactly when the node has depth `k` |
| Tree.Columns | App.tsx:54-59 | No nodes give no columns; otherwise there are max depth plus one columns; every node's depth indexes a column, and column `k` is the depth-`k` filter |
| Tree.ColumnsHoldDepths | App.tsx:56-59 | Every node lies in a column, and a node is in column `k` exactly when its depth is `k` |
| Tree.ColumnOfAbsentDepth | App.tsx:58 | A depth that no node has gives an empty column |
| Tree.ColumnOfUniqueDepth | App.tsx:58 | A depth that only node `i` has gives a column holding node `i` alone |
| Tree.ColumnKeepsOrder | App.tsx:58 | Each column is a subsequence of the nodes, so it keeps catalog order |
| Tree.ColumnsKeepOrder | App.tsx:56-59 | Every column of the layout keeps catalog order |
| Tree.ColumnsPartition | App.tsx:53-59 | The columns together hold exactly as many slots as there are nodes; with `ColumnsHoldDepths`, each node appears exactly once |
| Tree.VisibilityFacts | App.tsx:66-68 | A parentless node is always visible; an unlocked node is visible; a node is hidden exactly when it and its parent are locked |
| Progress.Unlock | App.tsx:22-40 | A request that is not accepted leaves progress as it was; an accepted one requires a new id and produces exactly the old list plus that id, with its XP added |
| Progress.UnlockOutcomes | App.tsx:23-36 | Unknown id exactly when no entry has it; already unlocked exactly when it is known and listed; rejected exactly when it is known, new and hidden; accepted exactly when it is known, new and its parent unlocked |
| Progress.UnlockPreservesValid | App.tsx:26-36 | From a valid progress any request leaves a valid progress: no duplicates, only known ids, parent-closed, XP total equal to the sum |
| Progress.AppendKeepsValid | App.tsx:33-36 | Appending a known new id whose parent is unlocked, with its XP added, keeps the invariant |
| Progress.ParentStaysUnlocked | App.tsx:28 | Unlocking more ids never locks a parent again |
| Progress.RunPreservesValid | App.tsx:22-40 | Any series of requests from a valid progress keeps the invariant |
| Progress.RunOnlyGrows | App.tsx:33-36 | Earlier unlocks stay, as a prefix in their order; with non-negative rewards the XP total never drops |
| Progress.UnlockAccepted | App.tsx:26-36 | A known new id whose parent is unlocked is appended, with its XP added |
| Progress.RunInTreeOrder | App.tsx:22-40 | Requests that follow the tree order are all accepted: their ids are appended in order and their XP summed |
| Progress.XpSumOfCatalogIds | App.tsx:35 | With distinct ids, the XP of the first `n` catalog ids is the XP of the first `n` entries |
| Progress.NextInCatalogOrderAccepted | App.tsx:26-28 | After the first `i` catalog ids, entry `i` is new and its parent (declared earlier) is unlocked |
| Progress.CatalogSuffixInTreeOrder | App.tsx:26-28 | After the first `k` catalog ids, the remaining ids follow the tree order |
| Progress.CatalogOrderUnlocksAll | App.tsx:22-40 | Starting from the first entry and requesting the rest in catalog order unlocks every id and earns all the catalog's XP |
| Progress.UnlockIdempotent | App.tsx:26 | Repeating a request changes nothing, and a repeat of an accepted request is reported as already unlocked, not rejected |
| Progress.VisibleIffNotRejected | App.tsx:66-68 | For a catalog entry, the request is rejected exactly when the node is hidden, and a visible locked node is always unlocked by it |
| Progress.ExampleSession | App.tsx:22-40 | The scenario root, A, B: B is refused at first, then A and B succeed with 10 and 60 XP, and A again is a no-op |
| Stats.CountUnlockedInCategory | components/StatsDashboard.tsx:15 | The unlocked count never exceeds the category total, and is 0 exactly when no entry of the category is unlocked |
| Stats.AllStats | components/StatsDashboard.tsx:13-20 | One entry per category in enumeration order, each with its unlocked count at most its total |
| Stats.KeepPositive | components/StatsDashboard.tsx:21 | Keeps exactly the entries with a positive count, in their original order |
| Stats.ChartEntriesBounded | components/StatsDashboard.tsx:13-21 | Every chart entry has `0 < value <= total`, and the chart keeps enumeration order |
| Stats.CategoryShownIff | components/StatsDashboard.tsx:21 | A category appears in the chart exactly when at least one of its entries is unlocked |
| Stats.CategoryCountsCover | components/StatsDashboard.tsx:14 | The four category totals add up to the catalog size |
| Stats.TotalsCoverCatalog | components/StatsDashboard.tsx:13-14 | Before filtering, the totals of all chart entries add up to the catalog size |
| Stats.DroppingZerosKeepsSum | components/StatsDashboard.tsx:21 | Dropping the zero entries keeps the sum of the counts |
| Stats.CategoryValuesCover | components/StatsDashboard.tsx:15 | The four per-category unlocked counts add up to the number of unlocked catalog entries |
| Stats.CountUnlockedOfKnown | components/StatsDashboard.tsx:81 | With distinct catalog ids, distinct and known unlocked ids are counted once each |
| Stats.ChartAddsUpToUnlockedCount | components/StatsDashboard.tsx:81 | In every valid progress, the chart's counts add up to the unlocked count the panel prints |
| Stats.Level | components/StatsDashboard.tsx:25 | `(level - 1) * 100 <= totalXp < level * 100`, and the level is at least 1 for non-negative XP |
| Stats.JsRemainder100 | components/StatsDashboard.tsx:43 | The remainder has the sign of the dividend, lies strictly within 100 of 0, and differs from it by a multiple of 100 |
| Stats.LevelBarWidth | components/StatsDashboard.tsx:43 | For non-negative XP the width lies in `[0, 100)`, and together with the level it reconstructs the XP |
| Stats.LevelMonotone | components/StatsDashboard.tsx:25 | More XP never gives a lower level |
| Stats.LevelAndBarDetermineXp | components/StatsDashboard.tsx:25 | Two non-negative totals with the same level and bar width are equal |
| Stats.LevelExamples | components/StatsDashboard.tsx:25 | 0 and 99 XP give level 1, 100 gives 2, 250 gives 3 with the bar at 50 |
| Stats.LevelNeverDropsOnUnlock | components/StatsDashboard.tsx:25 | With non-negative rewards, no unlock request lowers the level |
| Catalog.TablesAgree | constants.ts:3-131 | The parent-index table points earlier, and each depth is its parent's depth plus one |
| Catalog.IdTableDistinct | constants.ts:3-131 | The tabulated ids are pairwise distinct |
| Catalog.AchievementIds | constants.ts:3-131 | The catalog has eleven entries, with the tabulated ids in order |
| Catalog.AchievementParents | constants.ts:3-131 | The first entry has no parent link, and every other entry's parent link is the id at its tabulated earlier index |
| Catalog.AchievementsShaped | constants.ts:3-131 | The shipped catalog has the tabulated shape |
| Catalog.IdsAreDistinct | constants.ts:3-131 | No two catalog entries share an id |
| Catalog.SingleRoot | constants.ts:5-14 | Only the first entry lacks a parent, and it is `nus_start` of kind Root |
| Catalog.ParentsResolveEarlier | constants.ts:17-131 | Every non-root entry's parent resolves to the tabulated index, strictly earlier, so parents precede children |
| Catalog.RewardsNonNegative | constants.ts:3-131 | Every reward is non-negative, and the root's is 0 |
| Catalog.CompletionRatesArePercentages | constants.ts:3-131 | Every global completion rate lies in `[0, 100]` |
| Catalog.InitialProgressValid | constants.ts:5-14 | The starting progress (only `nus_start`, 0 XP) satisfies the invariant on the shipped catalog |
| Catalog.SessionsStayValid | App.tsx:12-40 | Whatever requests a session makes from the starting progress, the progress keeps the invariant |
| Catalog.DepthsAsTabulated | constants.ts:3-131 | Every entry's depth is the tabulated one |
| Catalog.DeepestNodes | constants.ts:40-130 | `marathon` has depth 4, `deans_list` and `networker` depth 3, no entry is deeper than 4, and only `marathon` reaches 4 |
| Catalog.FiveColumns | constants.ts:86-95 | The shipped layout has maximum depth 4 and five columns, and the last holds `marathon` alone |
| Catalog.CatalogXpTotal | constants.ts:3-131 | The catalog's rewards add up to 695 XP |
| Catalog.WholeTreeUnlockable | App.tsx:22-40 | From the starting progress, requesting the other ids in catalog order unlocks all eleven and earns 695 XP: level 7 with the bar at 95 |

## Left out

- JSX rendering, class strings, the zoom `scale` state and the connector lines: presentation only.
- The tip and lore fetches and their mounted-flag guard: asynchronous calls to a text-generation service outside this model.
- services/authService.ts (local storage, JSON, simulated delay, clock): I/O plumbing. Its progress shape also differs from the one the tree screen uses.
- The icon, modal and button components, and the pie-chart rendering with its colour cycling: styling only.
- `alert` and `setSelectedAchievement`: side effects on the view. The rejection is the `ParentLocked` outcome instead.
- Progress.Run: requests are applied one after another, each seeing the progress the previous one produced. The source checks against the `progress` captured at render time but appends to the latest state (`prev`). Two requests handled before a re-render could therefore be checked against stale progress. React's batching is not modelled.
- Tree.GetDepth: the source recursion has no bound. The `fuel` parameter stands in for the call stack, and `None` means the walk had not returned when the fuel ran out, which is the source's non-termination.
- Stats.AllStats: `Object.values(Category)` comes from types.ts, which is not part of this model. The enumeration order is taken to be General, Academic, Exploration, Social, the order in which the catalog first uses the categories.
- Types.Achievement: XP, totals and completion rates are JavaScript numbers. They are modelled as unbounded integers, so fractional values and precision loss above 2^53 are not modelled.
