# Sortable file explorer — ordering, selection and drop planning

This project models the core of `main.js`, an Obsidian plugin that replaces the
file explorer with a tree whose rows can be dragged into any order. The model
covers these parts:

- **Sort engine.** Siblings are ordered by the rank stored in `sortOrder`. An
  unranked item comes after every ranked one. Within one rank, folders come
  before files and then names compare.
- **Reorder.** `reorderItems` splices the dragged item before or after the
  target, then writes dense ranks `0..n-1` for that sibling group.
- **Settings propagation.** When files are renamed, moved or deleted, the
  `sortOrder` and `collapsedFolders` maps are re-keyed or pruned.
- **Selection.** The selection is a set of paths plus an anchor. Clicks,
  shift-clicks, toggle-clicks, right-clicks and the arrow, Home, End, Escape
  and select-all keys update it.
- **Drop planning.** The model decides where a drop lands: at the root,
  un-indented to an ancestor, into a folder, or beside a row. It then gives the
  path each dragged item has after its move, and the chain of reorder calls
  that puts the group next to the target.
- **Drag-over throttle.** Drag-over work is throttled to one animation frame.
- **Small helpers.** These are:
  - the title line the editor highlights;
  - the `#RRGGBB` outline colour parse;
  - the end of the text selected when a rename starts;
  - the loops that pick a free name for a new base file, a duplicate or a new
    folder.

The vault is modelled as values:
- A set of paths, or a map `path -> Folder | File`.
- The rendered rows as a sequence of paths in visual order. As in `getVisibleItemElements`, this includes the rows inside collapsed folders.
- The vault root's path as the empty string. The host's own root path may be `/`; "## Left out" says what that changes.

Pixel geometry is integer, scaled so that the source's fractional thresholds
(`0.3 * h`, `h / 2`) become integer comparisons.

Module layout:
- `strings.dfy`: `Strings`
- `paths.dfy`: `Paths`
- `sort.dfy`: `SortEngine`
- `reorder.dfy`: `Reorder`
- `settings.dfy`: `OrderStore`
- `selection.dfy`: `SelectionModel`
- `group.dfy`: `GroupReorder`
- `drop.dfy`: `DropPlan`
- `throttle.dfy`: `DragThrottle`
- `helpers.dfy`: `ViewHelpers`
- `names.dfy`: `UniqueNames`

The parts that change state in place are classes:
- `OrderStore.Settings`: the two settings maps and the last saved snapshot;
- `SelectionModel.Selection`: the selected paths and the anchor;
- `DragThrottle.Throttle`: the pending frame, the queued job and the drag flag.

Each loop of the source is a method, proved equal to a specification function.
The properties are proved about those functions.

## Model

| member | source | states |
|---|---|---|
| Paths.GetParentPath | main.js:2483-2486 | With no `/` the parent is `""`. Otherwise the path starts with parent + `/` and no `/` follows. |
| Paths.ParentAndName | main.js:2483-2486 | A path with a `/` is its parent, `/`, then its name. A path without one is its own name. |
| Paths.ChildPathParts | main.js:2416-2417 | The path built for a name in a folder has that folder as parent and that name as name. |
| Paths.IsUnderTransitive | main.js:2758 | The "key is `p` or starts with `p/`" test is transitive. |
| Paths.GetParentFolderAtDepth | main.js:2476-2481 | Gives `""` for a negative depth, and the parent path at or beyond the last segment. Otherwise gives the first `d+1` segments joined by `/`, a proper prefix of the path followed by `/`. |
| Paths.SplitJoin | main.js:2477-2480 | Splitting a join of `/`-free segments gives the segments back. |
| SortEngine.NameCompare | main.js:2711 | The name order returns -1, 0 or 1, and returns 0 exactly for equal names. |
| SortEngine.NameCompareAntisymmetric | main.js:2711 | Swapping the names negates the result. |
| SortEngine.NameCompareTransitive | main.js:2711 | The name order is transitive. |
| SortEngine.CompareAntisymmetric | main.js:2705-2711 | The comparator is antisymmetric. It ties exactly on equal rank, kind and name. |
| SortEngine.CompareTransitive | main.js:2705-2711 | The comparator is transitive. |
| SortEngine.Insert | main.js:2705-2712 | Inserting into a sorted list adds exactly one element and keeps it sorted. |
| SortEngine.SortItems | main.js:2703-2713 | The result is a permutation of the input, sorted by the comparator. |
| SortEngine.SortedMeansRankThenKindThenName | main.js:2706-2711 | In a sorted list, an item before a ranked item is ranked no higher. Within one rank a file is followed only by files. Within one rank and kind, names ascend. |
| SortEngine.SiblingsHaveDistinctKeys | main.js:2703-2713 | Siblings, whose paths differ under one parent, never tie. |
| SortEngine.SortedUnique | main.js:2703-2713 | Two sorted orderings of the same tie-free items are equal. |
| SortEngine.SortIsDeterministic | main.js:2703-2713 | Without ties, the order shown depends only on the items and not on how the folder lists them. |
| SortEngine.VisibleCounts | main.js:2716-2718 | Filtering drops exactly the `~$` files and keeps every other item as often as it occurs. |
| SortEngine.VisibleOfPermutation | main.js:542 | Filtering two permutations of each other gives permutations of each other. |
| Reorder.IndexOfPath | main.js:2686-2690 | Gives the first index holding the path, or -1 exactly when no item has it. |
| Reorder.WithoutPathMembers | main.js:2689 | Filtering out the source keeps exactly the items with another path. |
| Reorder.ReorderedNoneIff | main.js:2680-2692 | `reorderItems` changes nothing exactly when the source and target parents differ, the source is not a sibling, the target is the source (it is looked up after the source is removed), or the target is not a sibling. |
| Reorder.ReorderedPlacement | main.js:2689-2693 | After a reorder the source stands right before the target (insert before) or right after it. The other siblings keep their relative order. |
| Reorder.ReorderedIsPermutation | main.js:2689-2693 | A reorder permutes the siblings and keeps their paths distinct. |
| Reorder.ReorderNextToNeighbourIsIdentity | main.js:2689-2693 | Moving an item before its successor, or after its predecessor, changes nothing. |
| Reorder.ReorderedAt | main.js:2689-2693 | Gives the reordered sequence as the remaining siblings with the source spliced in at the target's index, or one past it. |
| Reorder.RanksDense | main.js:2695-2696 | The written ranks cover exactly the group's paths, each at its index. |
| Reorder.RanksIncreaseIsSorted | main.js:2703-2713 | Items whose ranks increase along a sequence are sorted in that order and never tie. |
| Reorder.VisibleRanksIncrease | main.js:542 | Increasing ranks still increase after the `~$` files are filtered out. |
| Reorder.MergeRanks | main.js:2698 | After the merge, the group has ranks `0..n-1` and every other key keeps its value. |
| Reorder.ResortIsIdentity | main.js:2703-2713 | Children whose ranks increase along `r` sort into exactly `r`. |
| Reorder.ReorderTakesEffect | main.js:2679-2700 | Sorting the children under the written ranks gives exactly the reordered sequence. The group has ranks `0..n-1` and every other key is unchanged. |
| Reorder.ReorderShowsInView | main.js:542-543 | The shown children sort into the reordered sequence minus the `~$` files, although those files were ranked too. |
| OrderStore.RekeyMovesSubtree | main.js:2774-2776 | A key equal to or under the old path gets the new path in place of that prefix. Every other key is unchanged. |
| OrderStore.RekeyRoundTrip | main.js:2774-2776 | Renaming back restores every key of the renamed subtree. |
| OrderStore.RekeyLeavesOldSubtree | main.js:2774-2776 | When neither path lies under the other, no key of the renamed subtree stays under the old path. |
| OrderStore.RekeyInjective | main.js:2774-2776 | Two keys that rewrite to the same key, neither under the new path, are equal. |
| OrderStore.RenameUnder | main.js:2771-2783 | Gives the rewritten key set, each value taken from a key that rewrites to it, and the value moved wherever no two keys collide. Reports a change exactly when some key was under the old path. |
| OrderStore.NoClashWhenDestinationEmpty | main.js:2771-2783 | When no key lies under the new path, no two keys collide. |
| OrderStore.RekeyByPrefix | main.js:2645-2646 | The folder rename's plain prefix test. |
| OrderStore.RekeyByPrefixHitsSiblings | main.js:2645-2646 | Renaming `Notes` to `Archive/Notes` rewrites the sibling key `Notes2/x.md`, which the boundary-checked rename leaves alone. |
| OrderStore.RekeyByPrefixAgrees | main.js:2645-2646 | When the key is the folder itself or lies under it, the plain prefix test rewrites it like the boundary-checked rename. |
| OrderStore.RenameByPrefix | main.js:2643-2653 | The folder rename's loop gives the prefix-rewritten key set, each value taken from a key that rewrites to it. |
| OrderStore.RemoveUnder | main.js:2756-2763 | The result drops exactly the keys equal to or under `p`. Reports a change exactly when such a key existed. |
| OrderStore.RemoveSubsumes | main.js:2756-2763 | Removing a subtree and then an enclosing one, in either order, equals removing the enclosing one. |
| OrderStore.CleanCollection | main.js:2661-2671 | The result keeps exactly the keys that still exist. Reports a change exactly when one did not. |
| OrderStore.CleanIsIdempotent | main.js:2661-2671 | Cleaning twice equals cleaning once. Cleaning a map whose keys all exist changes nothing. |
| OrderStore.MoveKey | main.js:2628-2635 | A missing key changes nothing. Otherwise the value moves to the new key, the old key is gone and every other key keeps its value. |
| OrderStore.MoveKeyRoundTrip | main.js:2628-2635 | Moving a key and moving it back restores the map when the new key was free. |
| OrderStore.SpliceNextTo | main.js:2680-2693 | The splice loop gives exactly the reorder plan. |
| OrderStore.DenseRanks | main.js:2695-2696 | The ranking loop gives exactly the dense ranks of the group. |
| OrderStore.Settings.constructor | main.js:2723-2724 | Loaded settings are taken as they are. Absent settings become empty maps. |
| OrderStore.Settings.UpdatePathInSettings | main.js:2626-2637 | Both maps move the exact key, and the result is saved. |
| OrderStore.Settings.UpdateFolderPathsInSettings | main.js:2639-2656 | The saved snapshot holds the prefix-rewritten maps. Both maps have the rewritten key set, and every saved value comes from a key that rewrites to its key. The in-memory maps are not changed. |
| OrderStore.Settings.CleanupDeletedPaths | main.js:2658-2677 | With a stale key, the saved snapshot holds the maps without keys that no longer exist. The in-memory maps are not changed. |
| OrderStore.Settings.RemovePathFromSettings | main.js:2754-2767 | Both maps lose exactly the subtree of `path`. The result is saved only if a key was removed. |
| OrderStore.Settings.UpdatePathInAllSettings | main.js:2769-2787 | Both maps are rewritten key by key, with values kept where keys do not collide. The result is saved only if a key was under the old path. |
| OrderStore.Settings.ReorderItems | main.js:2679-2701 | When the plan exists, the group's dense ranks are merged over `sortOrder` and saved. Otherwise nothing changes. |
| SelectionModel.FindRow | main.js:1167 | Gives the first visible row with the path, or -1 exactly when none has it. |
| SelectionModel.AddMembers | main.js:1174 | Adding keeps insertion order and stays duplicate-free. |
| SelectionModel.RemoveMembers | main.js:1178 | Removing deletes exactly that path and stays duplicate-free. |
| SelectionModel.AddAllMembers | main.js:1171-1175 | Adding a range gives the union, keeps the old order as a prefix and stays duplicate-free. |
| SelectionModel.Span | main.js:1171-1172 | Gives the visible rows from the lower index to the higher one, both included. |
| SelectionModel.AddSpan | main.js:1171-1175 | The shift-click loop adds exactly the span of rows. |
| SelectionModel.Cursor | main.js:1885-1887 | Gives the row of the anchor, else of the first selected path, else 0. |
| SelectionModel.CursorAfterSingle | main.js:1892-1898 | After selecting one row, the cursor is on that row. |
| SelectionModel.ShiftClickAddsRange | main.js:1165-1176 | A shift-click adds every row between anchor and click and keeps the earlier selection. It adds nothing else. |
| SelectionModel.ExtendSelectsSpan | main.js:1899-1908 | Extending from an empty selection selects exactly the span. |
| SelectionModel.SpanDistinct | main.js:1171-1175 | The span of distinct rows has no duplicates. |
| SelectionModel.ToggleTwice | main.js:1177-1181 | Toggling a path twice restores the selection. |
| SelectionModel.SetCollapsed | main.js:1193-1198 | Collapsing records the folder as collapsed, and expanding deletes its entry. No other entry changes. |
| SelectionModel.Selection.SelectOnly | main.js:1892-1898 | Only the path is selected, and it becomes the anchor. |
| SelectionModel.AfterModifierClick | main.js:1163-1184 | The selection is never empty afterwards and stays free of duplicates. With shift and an anchor, the anchor stays, every selected path stays, and when both ends are rows exactly the span is added. Otherwise a toggle anchors the path and flips only its membership, unless it was the only selected path, which stays. Without either, an empty selection gets the path and a missing anchor becomes it. |
| SelectionModel.Extended | main.js:1899-1908 | The target path is always selected and nothing is duplicated. When both ends are rows, the selection is exactly the span from the anchor (or current path) to the target, and the anchor stays. Otherwise the target alone is selected and anchored. |
| SelectionModel.Selection.ModifierClick | main.js:1163-1186 | The new selection and anchor are those of `AfterModifierClick`, and the selection stays free of duplicates. |
| SelectionModel.Selection.FolderClick | main.js:1163-1201 | A shift click or a selecting modifier click gives the `AfterModifierClick` outcome and leaves the collapsed map alone. A plain click on the title selects only the folder and toggles its collapsed state. A plain click elsewhere changes nothing. |
| SelectionModel.Selection.FileClick | main.js:1237-1290 | A shift click or a selecting modifier click gives the `AfterModifierClick` outcome and has no other effect. An open-in-new-tab click selects only the file. A click on the active file selects it. A click on another file clears the selection but keeps the anchor. |
| SelectionModel.Selection.ContextMenu | main.js:1483-1488 | A right-click on an unselected path selects only it. A selected path leaves the selection as it is. |
| SelectionModel.Selection.ExtendTo | main.js:1899-1908 | The new selection and anchor are those of `Extended`. |
| SelectionModel.Selection.Key | main.js:1878-2061 | With no rows nothing changes. Escape clears the selection and anchor. Mod+A selects every row and anchors the first. Home and End select only the first or last row. Up and Down select only the next or previous row of the cursor. With shift they give the `Extended` outcome toward that row. When that row's path is empty nothing changes. Left and Right give the `SideKeyMove` outcome: the selection becomes only the chosen row, or the folder is collapsed or expanded in `collapsedFolders` with the selection kept. Only Left and Right touch `collapsedFolders`. Other keys change nothing. |
| SelectionModel.SideKeyMove | main.js:1938-2002 | Left on an expanded folder collapses it and Right on a collapsed folder expands it, always for the cursor row and only when its state differs. Otherwise Left selects the parent folder of the cursor row when that parent is a rendered folder, and Right on an expanded folder selects the row right after it. A row with an empty path does nothing. |
| GroupReorder.RanksAfterShowApply | main.js:2679-2713 | Running `reorderItems` call after call over the same children, with each call sorting by the ranks the previous calls saved, sorts the children into the order `Apply` gives from the order shown before the first call. |
| GroupReorder.GroupBeforeOwnRowScrambles | main.js:2423-2428 | For any four siblings `a, b, c, d` with distinct paths and one parent, dropping `[a, b, c]` before `b` refuses the call for `b` and gives `[a, c, b, d]`: the group is split and out of payload order. |
| GroupReorder.GroupCallsLandTogether | main.js:2422-2428 | With the corrected chain, every dragged group ends up together in payload order, with the other siblings in their old order. The group sits next to the target when the target is not dragged, and where its first item stood when it is. |
| GroupReorder.GroupLandsTogether | main.js:2423-2428 | For a group that does not contain the target, the drop's reorder chain leaves the group together, in payload order, right before or right after the target. Every other sibling keeps its order. A multi-item drop beside one of its own rows is not covered. |
| DropPlan.ItemDropAction | main.js:2308-2404 | A row hands on a drop exactly when it is a root drop. An un-indent moves the first dragged path to its own ancestor at the pointer's depth. Moving into a folder needs a folder row and a pointer inside it. |
| DropPlan.ItemDropIntended | main.js:2364-2372 | An un-indent moves the first dragged path to an ancestor of the hovered row. |
| DropPlan.DragOverHint | main.js:2242-2298 | The highlighted un-indent folder is an ancestor of the hovered row. An indicator line after a row is drawn only on that row itself. |
| DropPlan.IntendedDropMatchesHint | main.js:2242-2298 | With the corrected un-indent, each drop does what the feedback showed: un-indent to the highlighted folder, move into the highlighted folder, or insert at the line. |
| DropPlan.UnindentIgnoresHighlight | main.js:2364-2372 | Dragging `A/B/C/x.md` left over `D/E/F/y.md` highlights `D/E`, but the drop moves the file to `A/B`. |
| DropPlan.AncestorAtDepthOne | main.js:2476-2481 | The depth-one ancestor of `a/b/c/d` is `a/b`. |
| DropPlan.AfterRowIsBeforeNext | main.js:2272-2284 | Dropping after a row gives the same order as dropping before its next sibling, where the line is drawn. |
| DropPlan.NeighboursAfterRemoval | main.js:2689-2690 | Two neighbours stay neighbours once another item is filtered out. |
| DropPlan.ContainerDropAction | main.js:681-813 | Files are imported exactly when present. Otherwise a root drop goes to the root, at the top exactly when the pointer is near the top. An indicator drop reorders at the line's target. Past both, the handler throws. |
| DropPlan.RowDefersToContainer | main.js:2308-2320 | A row hands on a drop exactly when the container imports files at a root spot or moves items to the root. |
| DropPlan.PlanMoves | main.js:2406-2421 | The loop gives exactly the specified `movedPaths`. |
| DropPlan.RelocatedIsChildPath | main.js:2413-2420 | Keeping an item already in the target folder records the same path a move would. |
| DropPlan.AcceptedMembers | main.js:2408-2412 | An item is moved exactly when it was dragged and is not a folder that contains the target folder. |
| DropPlan.MovedPathsPlacement | main.js:2406-2421 | The recorded paths are the accepted items, each relocated, in payload order. |
| DropPlan.MovedPathsInTarget | main.js:2413-2420 | Every recorded path lies in the target folder and keeps its item's name. |
| DropPlan.IntoFolderSources | main.js:2378-2396 | The loop moves the items of `IntoFolderKept`, in that order. |
| DropPlan.IntoFolderKeptMembers | main.js:2382-2386 | The kept items are exactly the dragged ones that are not a folder equal to or above the target. |
| DropPlan.IntoFolderKeptInOrder | main.js:2382-2394 | The kept items follow payload order: the items kept from any prefix of the payload are moved first. |
| DropPlan.RootMovedPathsAtRoot | main.js:733-740 | A root drop records only root paths, at most one per dragged path. |
| DropPlan.ThreadAnchors | main.js:2423-2428 | The reorder loop gives exactly the call chain whose anchor advances only when inserting after. |
| DropPlan.RootDropCalls | main.js:729-760 | A root drop chains the moved items before the first root row near the top, else after the last root row. With no root rows it makes no calls. |
| DragThrottle.Scheduled | main.js:111-116 | Scheduling leaves a frame pending, keeps the drag flag and queues only while a frame is pending. |
| DragThrottle.Fired | main.js:116-123 | A frame clears the frame and queue, and runs a job exactly while dragging. |
| DragThrottle.LatestJobRuns | main.js:94-125 | However many jobs are scheduled before a frame fires, it runs only the last one, and only while dragging. |
| DragThrottle.EndedDragRunsNothing | main.js:119 | After the drag ends, a pending frame runs nothing. |
| DragThrottle.Throttle.constructor | main.js:29-32 | No frame, no queued job, not dragging. |
| DragThrottle.Throttle.Schedule | main.js:111-123 | The new state is the scheduled state. |
| DragThrottle.Throttle.Fire | main.js:116-123 | The new state and the job run are those of a fired frame. |
| DragThrottle.Throttle.Cancel | main.js:128-134 | No frame pending and no job queued. The drag flag is unchanged. |
| DragThrottle.Throttle.StartDrag | main.js:2229 | The drag is active and pending work is untouched. |
| DragThrottle.Throttle.EndDrag | main.js:2235-2236 | The drag ends and pending work is dropped. |
| ViewHelpers.FirstFrom | main.js:397-405 | Gives the first matching line at or after `i`, or the line count. |
| ViewHelpers.BodyStart | main.js:389-395 | Without frontmatter the body starts at line 0. With it, the body starts after the first closing fence, or at the end when the fence is never closed. |
| ViewHelpers.TitleLine | main.js:381-408 | Gives the first heading after the frontmatter, else the first non-blank line after it, else line 0. |
| ViewHelpers.SkipFrontmatter | main.js:387-395 | The frontmatter loop ends at the body start. |
| ViewHelpers.ScanFrom | main.js:397-405 | Each scan loop ends at the first matching line. |
| ViewHelpers.FindTitleLineIndex | main.js:383-408 | Gives the title line as specified. |
| ViewHelpers.ParseHexColor | main.js:195-200 | Gives a colour exactly for `#` followed by six hex digits, and each component is below 256. |
| ViewHelpers.HexColor | main.js:195-200 | A colour's spelling is a valid `#RRGGBB`. |
| ViewHelpers.HexColorRoundTrip | main.js:195-200 | Parsing a colour's spelling gives the colour back. |
| ViewHelpers.ParseThenSpell | main.js:195-200 | Spelling a parsed colour gives the input in lower case. |
| ViewHelpers.RenameSelectionEnd | main.js:1349-1350 | The selection stops before the last dot exactly when that dot is not the first character and at most three characters follow it. Otherwise the whole name is selected. |
| UniqueNames.NewBaseFilePath | main.js:1451-1460 | Gives the first of `Untitled`, `Untitled 1`, … that is not an existing path. |
| UniqueNames.DuplicatePathAsWritten | main.js:1530-1541 | Probes `dir/` + `name copy.ext`, `name copy 2.ext`, … until a probe is free, then creates the name under `dir`. |
| UniqueNames.RootCopyMayCollide | main.js:1536-1541 | At the root, whose path is `""`, the probe never matches. The first copy name is chosen and the create targets an existing `name copy.ext`. |
| UniqueNames.DuplicatePath | main.js:1530-1543 | Gives the first copy name, in counter order, whose path is free, at the root as in any folder. |
| UniqueNames.TrailingDigits | main.js:2132 | Counts the digits that end a string. |
| UniqueNames.ReplaceTrailingNumber | main.js:2132 | Where white space and digits end the name, they are replaced. Otherwise the name is unchanged. |
| UniqueNames.FolderBaseName | main.js:2125 | The trimmed answer, or `New Folder` when the answer is only white space. It is never empty. |
| UniqueNames.NewFolderPath | main.js:2117-2134 | A cancelled prompt or an empty answer creates nothing. Otherwise the result is the first folder candidate, in counter order, that is not an existing path. |
| UniqueNames.NumberedBaseCandidates | main.js:2128-2133 | From `Notes 1` the candidates run `Notes 1`, `Notes 2`, `Notes 1 3`. |

## Left out

- DOM rendering, CSS classes, scrolling, indicator placement and focus handling: these are effects on page elements. The model keeps only the decisions behind them.
- Menus, modals, prompts, Notices, the settings tab, clipboard, bookmarks and search: these are host-application calls. The new-folder name prompt's answer is a parameter.
- Vault I/O: `renameFile`, `createBinary`, `create`, `read`, `trash` and `createFolder`. Each drop is a plan of paths and reorder calls. The vault moves themselves are not performed.
- DropPlan.PlanMoves: it records each path as if its vault move succeeded. The source does the same when a move does not happen: a name collision gets a Notice (main.js:2605-2608, 2618-2621), a missing item is skipped silently (main.js:2602, 2615), and in both cases the loop goes on. A `renameFile` that throws (main.js:2609, 2622) leaves the loop for the catch at main.js:2430, so the remaining items are not moved and no reorder call is made. The model does not capture that abort.
- Native file import (`file.arrayBuffer`, `createBinary`): this is I/O. The model says only that the drop imports.
- Inherited keys: `sortOrder[oldPath] !== undefined` (main.js:2628, 2632) and `order[a.path] ?? Infinity` (main.js:2706-2707) read plain objects, so a path named like an `Object.prototype` member such as `constructor` counts as present there. The model's maps hold only their own keys, so OrderStore.MoveKey, OrderStore.Settings.UpdatePathInSettings and the `SortEngine` rank lookup treat such a path as absent unless it was stored.
- Enter, F2 and Delete: each opens, renames or deletes through the host application. Enter on a folder toggles it as Right or Left would, without a direction; that toggle is not modelled.
- SelectionModel.Selection.FolderClick and SelectionModel.Selection.FileClick: the source ignores a click on a row whose inline rename is active (main.js:1157, 1230). The model has no inline-rename state, so its clicks always act.
- GroupReorder.GroupLandsTogether: it requires that the target is not one of the dragged items, because there the chain breaks the group. A multi-item drag can be dropped beside one of its own rows, since only a one-item drag onto its own row returns early (main.js:2248, 2359). Inserting before such a row refuses the call for the row itself and puts every other item right before it (GroupReorder.GroupBeforeOwnRowScrambles, under "## Findings"). Inserting after one of its own rows is not proved either way.
- Editor polling, title reselection with timers and the inline-title selection: these depend on asynchronous timing and the DOM.
- `debounce`, `saveData` and the plugin's load: saving is an opaque snapshot in the `persisted` field. The load is the constructor's parameter.
- DragThrottle: frame timing is not modelled. A frame fires when `Fire` is called. Errors thrown by a handler are not modelled.
- SortEngine.NameCompare: a code-point lexicographic order replaces the locale-aware `localeCompare`. The proofs use only that it is a total order that is zero exactly on equal names.
- OrderStore.RenameUnder: when two keys rewrite to the same key, the model says only that the survivor's value comes from one of them. The source keeps whichever key JavaScript enumerates last. The same holds for OrderStore.RenameByPrefix, OrderStore.Settings.UpdateFolderPathsInSettings and OrderStore.Settings.UpdatePathInAllSettings: the loops over `Object.entries` at main.js:2643-2653 and main.js:2771-2783 keep the colliding key listed last, and the model's loops run over sets, so they cannot state that order.
- OrderStore.RekeyByPrefix: `String.replace` replaces the first occurrence. That is the prefix, since the key starts with it. `$` replacement patterns in the new path are not modelled.
- OrderStore.Rekey, OrderStore.RenameUnder and OrderStore.Settings.UpdatePathInAllSettings: the new path is inserted literally. `path.replace(oldPath, newPath)` at main.js:2775 would expand `$&`, `$1` and similar patterns in a new path that contains `$`, and that is not modelled.
- Strings are sequences of Unicode scalar values. JavaScript lengths and indices count UTF-16 code units, so the two differ for characters beyond U+FFFF, and UTF-16 lengths are not modelled.
- ViewHelpers.RenameSelectionEnd: the at-most-three-characters extension test counts scalar values. JavaScript counts UTF-16 code units, so an extension with a character beyond U+FFFF is measured differently.
- The view's own `collapsedFolders` reference (main.js:7, 227) is not modelled. A folder click writes that map back over the settings map (main.js:1196-1198). After a rename has replaced the settings map (main.js:2785), and before the view reopens, such a click restores the stale map. The arrow-key toggle (main.js:1921-1922) writes the same stale reference. The model's folder click and key toggle update the settings map directly.
- A foreign `text/plain` drag whose data is not JSON makes `JSON.parse` throw at main.js:2356. The handler catches that and shows a notice, and nothing moves. This path is not modelled. The drop handlers take the parsed list of dragged paths.
- Pixel geometry is integer. `getBoundingClientRect` values are floating-point and their rounding is not modelled.
- The vault root's path is modelled as `""`, and paths never start with `/`. The source allows for a root path of `/` (main.js:1371). With that root, the Duplicate command probes and creates `//x copy.md` (main.js:1536, 1540). The new-folder command at the root builds `//New Folder` (main.js:2088, 2124, 2131). The container's `getRoot().path || ''` gives `/` (main.js:695, 698). What the host does with a path that starts with `/` or `//` is not part of the source.
- UniqueNames.NewFolderPath: at the root the parent path is `""`. With a root path of `/`, the probe would be `//name` and could miss an existing folder `name`. The model does not capture that, so at such a root its free-path promise would not hold.
- The settings maps are assumed present. The source's `|| {}` fallbacks for missing maps are not modelled.
- ViewHelpers.FindTitleLineIndex: the editor is a sequence of lines. The `lineCount`/`lastLine` fallback and the catch-all `return 0` are not modelled.
- After creating a folder, the source moves the selection into it and re-renders. That step is vault I/O and is not modelled. Only the choice of the folder's path is.
- The Cmd+Enter branch after the key switch is not modelled. The `Enter` case returns first, so it is never reached.
- The second root-drop branch of the container (main.js:813-860) is not modelled as a separate action. A root drop is handled at main.js:722, and any other drop that reaches line 813 throws. `DropPlan.ContainerDropAction` shows this.

## Findings

| source | as written | input that shows it | evidently intended | confidence | as-written member | corrected member |
|---|---|---|---|---|---|---|
| main.js:1536 | The Duplicate command probes `dir + "/" + copyName` even at the vault root. With the root's path `""`, the probe is `/x copy.md` but the copy is created at `x copy.md`. With a root path of `/` (main.js:1371), both are `//x copy.md`, and the outcome depends on whether the host normalises `//`. | Duplicate `x.md` at the root while `x copy.md` exists, with the root's path `""`. The probe `/x copy.md` is free, so the loop stops at once and the create targets the existing `x copy.md`. | Probe the path that will be created, so `x copy 2.md` is chosen. | medium, not executed | UniqueNames.DuplicatePathAsWritten, UniqueNames.RootCopyMayCollide | UniqueNames.DuplicatePath |
| main.js:2645-2646 | The folder rename rewrites every key that starts with the old folder path, with no `/` boundary. | Rename folder `Notes` to `Archive/Notes` while `Notes2/x.md` has a rank. The key becomes `Archive/Notes2/x.md`. | Rewrite only the folder itself and the keys under `Notes/`, as `updatePathInAllSettings` does. | high, not executed | OrderStore.RekeyByPrefix, OrderStore.RekeyByPrefixHitsSiblings | OrderStore.Rekey, OrderStore.RekeyByPrefixAgrees |
| main.js:2423-2428 | The drop's reorder chain places each dragged item right before the target. When the target is itself one of the dragged rows, the call for the target is refused, so the group is split around it. Root drops near the top issue the same chain before the first root row (main.js:749-752). | Select `a`, `b` and `c` in `[a, b, c, d]` and drop them on the upper half of `b`. The result is `[a, c, b, d]`. | Keep the group together in payload order, as the comment at main.js:2422 says: close it up behind its first item when the target is dragged. | high, not executed | GroupReorder.GroupBeforeOwnRowScrambles | GroupReorder.GroupCallsLandTogether |
| main.js:2368-2372 | The un-indent drop moves the item to the ancestor, at the pointer's depth, of the dragged item's own path. The drag-over feedback highlights that ancestor of the hovered row instead. | Drag `A/B/C/x.md` over the row `D/E/F/y.md` with the pointer at depth one. `D/E` is highlighted, but the file moves to `A/B`. | Move to the highlighted folder, the ancestor of the hovered row. | medium, not executed | DropPlan.ItemDropAction, DropPlan.UnindentIgnoresHighlight | DropPlan.ItemDropIntended, DropPlan.IntendedDropMatchesHint |

Design notes:
- The reorder is identity when an item is placed before its current successor or after its current predecessor (`Reorder.ReorderNextToNeighbourIsIdentity`). Placing it after its successor moves it down one.
- `reorderItems` ranks the unfiltered children, including hidden `~$` files. The shown ranks may therefore have gaps, but the shown order is still the reordered one (`Reorder.ReorderShowsInView`).
- The folder rename and the cleanup of deleted paths save the new maps but leave the in-memory maps unchanged. The methods' contracts say so.
- The new-folder loop takes the number from the base name each time, not from the last candidate. `Notes 1` therefore gives `Notes 2` and then `Notes 1 3` (`UniqueNames.NumberedBaseCandidates`). Every candidate is still probed until one is free, so the chosen path never exists.
- For the lower half of a row that has a next sibling, the drag-over line is drawn above that sibling. The drop inserts after the row, which gives the same order (`DropPlan.AfterRowIsBeforeNext`).
