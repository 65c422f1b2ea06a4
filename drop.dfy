/** The drop handlers of the tree view as plans: where a drop lands, which
    paths the dragged items have once moved, and which reorder calls
    follow. Pixel geometry is taken as integers relative to the container
    (x) and to the hovered row (y). */
module DropPlan {
  import opened Strings
  import opened Paths
  import opened SortEngine
  import opened Reorder
  import opened GroupReorder

  /** Pointer and row geometry: `relX` is the pointer's distance from the
      container's left edge, `rowLeft` the row's, `relY` the pointer's
      distance below the row's top and `height` the row's height; `overItem`
      says whether a row title lies under the pointer at all. */
  datatype Geometry = Geometry(relX: int, rowLeft: int, relY: int, height: int, overItem: bool)

  /** A root drop: the pointer is at the left edge or over no row. */
  predicate IsRootDrop(g: Geometry) {
    g.relX < 30 || !g.overItem
  }

  /** The un-indent gesture: the pointer is more than one indentation level
      left of the row's own depth and well left of the row. */
  predicate UnindentGesture(g: Geometry) {
    DepthAt(g.relX) < DepthAt(g.rowLeft) - 1 && g.relX < g.rowLeft - 20
  }

  /** `relY > 0.3 * h && relY < h - 0.3 * h`, scaled by ten. */
  predicate InMiddleBand(g: Geometry) {
    10 * g.relY > 3 * g.height && 10 * g.relY < 7 * g.height
  }

  /** `relY < h / 2`, scaled by two. */
  predicate UpperHalf(g: Geometry) {
    2 * g.relY < g.height
  }

  /** What a drop on a row does. */
  datatype ItemDrop =
    | LeaveToContainer                      // a root drop: the container handles it
    | ImportFiles                           // files from outside the app
    | SameItem                              // the only dragged item is the row itself
    | DropError                             // the handler throws and reports an error
    | Unindent(source: string, parent: string)  // move one item up to an ancestor folder
    | IntoFolder                            // move every dragged item into the folder row
    | Beside(insertBefore: bool)            // move to the row's folder, reorder next to it

  /** The row's drop handler as written: the un-indent gesture moves the
      primary dragged item to the ancestor, at the pointer's depth, of the
      primary dragged item itself. */
  function ItemDropAction(g: Geometry, hasFiles: bool, paths: seq<string>, rowPath: string, rowIsFolder: bool): (d: ItemDrop)
    ensures d == LeaveToContainer <==> IsRootDrop(g)
    ensures d.Unindent? ==> paths != [] && d.source == paths[0]
                            && d.parent == GetParentFolderAtDepth(paths[0], DepthAt(g.relX))
    ensures d == IntoFolder ==> rowIsFolder && 0 < g.relY < g.height
  {
    if IsRootDrop(g) then LeaveToContainer
    else if hasFiles then ImportFiles
    else if |paths| == 1 && paths[0] == rowPath then SameItem
    else if UnindentGesture(g) then
      if paths == [] then DropError
      else Unindent(paths[0], GetParentFolderAtDepth(paths[0], DepthAt(g.relX)))
    else if rowIsFolder && InMiddleBand(g) then IntoFolder
    else Beside(UpperHalf(g))
  }

  /** The same handler with the un-indent target taken from the hovered
      row, the folder the drag-over feedback highlights. */
  function ItemDropIntended(g: Geometry, hasFiles: bool, paths: seq<string>, rowPath: string, rowIsFolder: bool): (d: ItemDrop)
    ensures d.Unindent? ==> paths != [] && d.source == paths[0]
                            && (d.parent == "" || StartsWith(rowPath, d.parent + "/"))
  {
    if IsRootDrop(g) then LeaveToContainer
    else if hasFiles then ImportFiles
    else if |paths| == 1 && paths[0] == rowPath then SameItem
    else if UnindentGesture(g) then
      if paths == [] then DropError
      else Unindent(paths[0], GetParentFolderAtDepth(rowPath, DepthAt(g.relX)))
    else if rowIsFolder && InMiddleBand(g) then IntoFolder
    else Beside(UpperHalf(g))
  }

  /** What the drag-over feedback shows on a row. */
  datatype Hint =
    | NoHint
    | ParentZone(folder: string)                   // the un-indent destination
    | FolderHighlight                              // the folder row itself
    | Indicator(target: string, insertBefore: bool) // a line above or below a row

  /** The throttled drag-over handler of a row. The line for the lower half
      of a row is drawn above its next sibling when there is one. */
  function DragOverHint(dragging: bool, g: Geometry, paths: seq<string>, rowPath: string, rowIsFolder: bool, nextSibling: Option<string>): (h: Hint)
    ensures h.ParentZone? ==> h.folder == "" || StartsWith(rowPath, h.folder + "/")
    ensures h.Indicator? ==> h.insertBefore || h.target == rowPath
  {
    if !dragging then NoHint
    else if |paths| == 1 && paths[0] == rowPath then NoHint
    else if UnindentGesture(g) then ParentZone(GetParentFolderAtDepth(rowPath, DepthAt(g.relX)))
    else if rowIsFolder && InMiddleBand(g) then FolderHighlight
    else if UpperHalf(g) then Indicator(rowPath, true)
    else match nextSibling
      case Some(next) => Indicator(next, true)
      case None => Indicator(rowPath, false)
  }

  /** With the intended un-indent target, a drop does what the drag-over
      feedback showed at the same spot: it un-indents to the highlighted
      folder, moves into the highlighted folder, or reorders at the line. */
  lemma IntendedDropMatchesHint(g: Geometry, paths: seq<string>, rowPath: string, rowIsFolder: bool, nextSibling: Option<string>)
    requires !IsRootDrop(g) && paths != [] && !(|paths| == 1 && paths[0] == rowPath)
    requires nextSibling != Some(rowPath)
    ensures var d := ItemDropIntended(g, false, paths, rowPath, rowIsFolder);
            var h := DragOverHint(true, g, paths, rowPath, rowIsFolder, nextSibling);
            && (d.Unindent? <==> h.ParentZone?)
            && (d.Unindent? ==> d.parent == h.folder)
            && (d == IntoFolder <==> h == FolderHighlight)
            && (d == Beside(true) <==> h == Indicator(rowPath, true))
            && (d == Beside(false) <==> h.Indicator? && (h.target != rowPath || !h.insertBefore))
  {
  }

  /** As written, the un-indent drop and its feedback disagree: dragging
      `A/B/C/x.md` leftwards over the row `D/E/F/y.md`, with the pointer at
      depth one, highlights `D/E`, but the drop moves the file to `A/B`. */
  lemma UnindentIgnoresHighlight(a: string, b: string, c: string, x: string, d: string, e: string, f: string, y: string)
    requires '/' !in a && '/' !in b && '/' !in c && '/' !in x
    requires '/' !in d && '/' !in e && '/' !in f && '/' !in y
    requires a + "/" + b + "/" + c + "/" + x != d + "/" + e + "/" + f + "/" + y
    ensures var g := Geometry(30, 56, 5, 20, true);
            var source, row := a + "/" + b + "/" + c + "/" + x, d + "/" + e + "/" + f + "/" + y;
            && ItemDropAction(g, false, [source], row, false) == Unindent(source, a + "/" + b)
            && DragOverHint(true, g, [source], row, false, None) == ParentZone(d + "/" + e)
  {
    var g := Geometry(30, 56, 5, 20, true);
    assert UnindentGesture(g) && !IsRootDrop(g) by {
      assert DepthAt(30) == 1 && DepthAt(56) == 3;
    }
    AncestorAtDepthOne(a, b, c, x);
    AncestorAtDepthOne(d, e, f, y);
  }

  /** The depth-one ancestor of a four-segment path is its first two segments. */
  lemma AncestorAtDepthOne(a: string, b: string, c: string, d: string)
    requires '/' !in a && '/' !in b && '/' !in c && '/' !in d
    ensures GetParentFolderAtDepth(a + "/" + b + "/" + c + "/" + d, 1) == a + "/" + b
  {
    var parts := [a, b, c, d];
    assert Join([c, d], '/') == c + "/" + d by {
      assert [c, d][1..] == [d];
    }
    assert Join([b, c, d], '/') == b + "/" + (c + "/" + d) by {
      assert [b, c, d][1..] == [c, d];
    }
    assert Join(parts, '/') == a + "/" + (b + "/" + (c + "/" + d)) by {
      assert parts[1..] == [b, c, d];
    }
    assert a + "/" + (b + "/" + (c + "/" + d)) == a + "/" + b + "/" + c + "/" + d;
    SplitJoin(parts, '/');
    assert parts[..2] == [a, b];
    assert Join([a, b], '/') == a + "/" + b by {
      assert [a, b][1..] == [b];
    }
  }

  /** The line shown for the lower half of a row is drawn above the next
      sibling; a drop there reorders to just after the row. Both place the
      source at the same spot. */
  lemma AfterRowIsBeforeNext(siblings: seq<Item>, source: string, k: int)
    requires DistinctPaths(siblings)
    requires 0 <= k && k + 1 < |siblings|
    requires source != siblings[k].path && source != siblings[k + 1].path
    requires GetParentPath(siblings[k].path) == GetParentPath(siblings[k + 1].path)
    ensures Reordered(siblings, source, siblings[k].path, false) == Reordered(siblings, source, siblings[k + 1].path, true)
  {
    var si := IndexOfPath(siblings, source);
    if GetParentPath(source) == GetParentPath(siblings[k].path) && si != -1 {
      var rest := WithoutPath(siblings, source);
      var k' := NeighboursAfterRemoval(siblings, si, k);
      ReorderedAt(siblings, source, siblings[k].path, false, si, rest, k');
      ReorderedAt(siblings, source, siblings[k + 1].path, true, si, rest, k' + 1);
    }
  }

  /** Two neighbours stay neighbours once another item is filtered out. */
  lemma NeighboursAfterRemoval(siblings: seq<Item>, si: int, k: int) returns (k': int)
    requires DistinctPaths(siblings)
    requires 0 <= si < |siblings| && 0 <= k && k + 1 < |siblings| && si != k && si != k + 1
    ensures var rest := WithoutPath(siblings, siblings[si].path);
            && 0 <= k' && IndexOfPath(rest, siblings[k].path) == k'
            && IndexOfPath(rest, siblings[k + 1].path) == k' + 1
  {
    IndexAfterFilter(siblings, si, k);
    IndexAfterFilter(siblings, si, k + 1);
    if si < k {
      k' := k - 1;
    } else {
      k' := k;
    }
  }

  /** What a drop on the container (outside any row's own handling) does. */
  datatype ContainerDrop =
    | ImportToFolder
    | ToRoot(top: bool)
    | AtIndicator(target: string, insertBefore: bool)
    | NoAction          // the indicator line carries no target
    | UnboundName       // the handler throws: the whitespace test reads a name declared only in the import branch

  /** The container's drop handler. A root drop is checked before the
      indicator line; past both, the later whitespace branch evaluates
      `relativeX < 30` (false there) and then `isBottomWhitespace`, which is
      declared only inside the file-import block, so the handler throws. */
  function ContainerDropAction(relX: int, relY: int, overItem: bool, hasFiles: bool, indicator: Option<(string, bool)>, onIndicatorLine: bool): (d: ContainerDrop)
    ensures d == ImportToFolder <==> hasFiles
    ensures d.ToRoot? <==> !hasFiles && (relX < 30 || !overItem)
    ensures d.ToRoot? ==> d.top == (relY < 40)
    ensures d.AtIndicator? ==> indicator.Some? && onIndicatorLine && d.target == indicator.value.0 && d.target != ""
                               && d.insertBefore == indicator.value.1
    ensures d == UnboundName <==> !hasFiles && relX >= 30 && overItem && !(indicator.Some? && onIndicatorLine)
  {
    if hasFiles then ImportToFolder
    else if relX < 30 || !overItem then ToRoot(relY < 40)
    else if indicator.Some? && onIndicatorLine then
      if indicator.value.0 != "" then AtIndicator(indicator.value.0, indicator.value.1) else NoAction
    else UnboundName
  }

  /** The row's handler passes a drop on exactly when the container's
      handler, seeing the same pointer, imports the files or moves the items
      to the root. */
  lemma RowDefersToContainer(g: Geometry, relY: int, hasFiles: bool, paths: seq<string>, rowPath: string, rowIsFolder: bool,
                             indicator: Option<(string, bool)>, onIndicatorLine: bool)
    ensures var c := ContainerDropAction(g.relX, relY, g.overItem, hasFiles, indicator, onIndicatorLine);
            ItemDropAction(g, hasFiles, paths, rowPath, rowIsFolder) == LeaveToContainer <==>
              (c == ImportToFolder && IsRootDrop(g)) || c.ToRoot?
  {
  }

  // ---- Moving the dragged items next to the drop target ----

  /** `getAbstractFileByPath(p) instanceof TFolder` */
  predicate IsFolder(vault: map<string, Kind>, p: string) {
    p in vault && vault[p] == Folder
  }

  /** A dragged folder the drop beside a row skips: the row's folder is the
      dragged folder or lies inside it. A drop beside a root row never
      skips. */
  predicate MovesIntoItself(vault: map<string, Kind>, p: string, targetParent: string) {
    IsFolder(vault, p) && targetParent != "" && IsUnder(targetParent, p)
  }

  /** The path recorded for a dragged item: unchanged when it is already in
      the target folder, else its name under the target folder. It is
      recorded whether or not the vault move succeeded. */
  function Relocated(p: string, targetParent: string): string {
    if GetParentPath(p) != targetParent then ChildPath(targetParent, Name(p)) else p
  }

  /** The dragged paths that are not skipped, in payload order. */
  function Accepted(vault: map<string, Kind>, paths: seq<string>, targetParent: string): seq<string> {
    if paths == [] then []
    else
      var last := paths[|paths| - 1];
      Accepted(vault, paths[..|paths| - 1], targetParent)
        + (if MovesIntoItself(vault, last, targetParent) then [] else [last])
  }

  /** `movedPaths` of the drop beside a row. */
  function MovedPaths(vault: map<string, Kind>, paths: seq<string>, targetParent: string): seq<string> {
    if paths == [] then []
    else
      var last := paths[|paths| - 1];
      MovedPaths(vault, paths[..|paths| - 1], targetParent)
        + (if MovesIntoItself(vault, last, targetParent) then [] else [Relocated(last, targetParent)])
  }

  /** The loop building `movedPaths`. */
  method PlanMoves(vault: map<string, Kind>, paths: seq<string>, targetParent: string) returns (moved: seq<string>)
    ensures moved == MovedPaths(vault, paths, targetParent)
  {
    moved := [];
    for i := 0 to |paths|
      invariant moved == MovedPaths(vault, paths[..i], targetParent)
    {
      var p := paths[i];
      assert paths[..i + 1][..i] == paths[..i];
      if IsFolder(vault, p) && targetParent != "" && IsUnder(targetParent, p) {
        continue;
      }
      if GetParentPath(p) != targetParent {
        moved := moved + [ChildPath(targetParent, Name(p))];
      } else {
        moved := moved + [p];
      }
    }
    assert paths[..|paths|] == paths;
  }

  /** Keeping an item that is already in the target folder records the
      same path as moving it there would. */
  lemma RelocatedIsChildPath(p: string, targetParent: string)
    requires !StartsWith(p, "/")
    ensures Relocated(p, targetParent) == ChildPath(targetParent, Name(p))
  {
    ParentAndName(p);
  }

  /** A path is accepted exactly when it was dragged and is not a folder
      the target folder lies in. */
  lemma {:induction false} AcceptedMembers(vault: map<string, Kind>, paths: seq<string>, targetParent: string)
    ensures forall x :: x in Accepted(vault, paths, targetParent) <==> x in paths && !MovesIntoItself(vault, x, targetParent)
  {
    if paths != [] {
      var init := paths[..|paths| - 1];
      AcceptedMembers(vault, init, targetParent);
      assert paths == init + [paths[|paths| - 1]];
    }
  }

  /** The recorded paths are the accepted items, each relocated, in
      payload order. */
  lemma {:induction false} MovedPathsPlacement(vault: map<string, Kind>, paths: seq<string>, targetParent: string)
    ensures var moved := MovedPaths(vault, paths, targetParent);
            var acc := Accepted(vault, paths, targetParent);
            && |moved| == |acc|
            && forall i :: 0 <= i < |moved| ==> moved[i] == Relocated(acc[i], targetParent)
  {
    if paths != [] {
      var n := |paths|;
      var init := paths[..n - 1];
      var last := paths[n - 1];
      MovedPathsPlacement(vault, init, targetParent);
      var m0, a0 := MovedPaths(vault, init, targetParent), Accepted(vault, init, targetParent);
      if !MovesIntoItself(vault, last, targetParent) {
        var m, acc := m0 + [Relocated(last, targetParent)], a0 + [last];
        forall i | 0 <= i < |m| ensures m[i] == Relocated(acc[i], targetParent) {
          if i < |m0| {
            assert m[i] == m0[i] && acc[i] == a0[i];
          }
        }
      }
    }
  }

  /** Every recorded path lies in the target folder and keeps the name of
      the accepted item it stands for. */
  lemma MovedPathsInTarget(vault: map<string, Kind>, paths: seq<string>, targetParent: string)
    requires forall i :: 0 <= i < |paths| ==> !StartsWith(paths[i], "/")
    ensures var moved := MovedPaths(vault, paths, targetParent);
            var acc := Accepted(vault, paths, targetParent);
            && |moved| == |acc|
            && forall i :: 0 <= i < |moved| ==> GetParentPath(moved[i]) == targetParent && Name(moved[i]) == Name(acc[i])
  {
    MovedPathsPlacement(vault, paths, targetParent);
    AcceptedMembers(vault, paths, targetParent);
    var acc := Accepted(vault, paths, targetParent);
    forall i | 0 <= i < |acc|
      ensures GetParentPath(Relocated(acc[i], targetParent)) == targetParent
      ensures Name(Relocated(acc[i], targetParent)) == Name(acc[i])
    {
      assert acc[i] in paths;
      RelocatedIsChildPath(acc[i], targetParent);
      ChildPathParts(targetParent, Name(acc[i]));
    }
  }

  /** A dragged folder dropped onto its own row or onto a folder below it
      is skipped with a notice. */
  predicate IntoItself(vault: map<string, Kind>, p: string, folder: string) {
    IsFolder(vault, p) && IsUnder(folder, p)
  }

  /** The dragged paths a drop onto `folder` moves, in payload order. */
  function IntoFolderKept(vault: map<string, Kind>, paths: seq<string>, folder: string): seq<string> {
    if paths == [] then []
    else
      var last := paths[|paths| - 1];
      IntoFolderKept(vault, paths[..|paths| - 1], folder) + (if IntoItself(vault, last, folder) then [] else [last])
  }

  /** The kept paths are exactly the dragged paths that are not skipped. */
  lemma {:induction false} IntoFolderKeptMembers(vault: map<string, Kind>, paths: seq<string>, folder: string)
    ensures forall x :: x in IntoFolderKept(vault, paths, folder) <==> x in paths && !IntoItself(vault, x, folder)
  {
    if paths != [] {
      var init := paths[..|paths| - 1];
      IntoFolderKeptMembers(vault, init, folder);
      assert paths == init + [paths[|paths| - 1]];
    }
  }

  /** The kept paths come in payload order: the items kept from any prefix
      of the payload are moved before all the others. */
  lemma {:induction false} IntoFolderKeptInOrder(vault: map<string, Kind>, paths: seq<string>, folder: string, i: nat)
    requires i <= |paths|
    ensures IntoFolderKept(vault, paths[..i], folder) <= IntoFolderKept(vault, paths, folder)
    decreases |paths|
  {
    if i < |paths| {
      var init := paths[..|paths| - 1];
      assert paths[..i] == init[..i];
      IntoFolderKeptInOrder(vault, init, folder, i);
    } else {
      assert paths[..i] == paths;
    }
  }

  /** `for (const p of paths) { ...; if (isFolder && (targetPath === p ||
      targetPath.startsWith(p + '/'))) continue; move p into targetPath }`:
      the items the drop on a folder's middle band moves, in the order it
      moves them. */
  method IntoFolderSources(vault: map<string, Kind>, paths: seq<string>, folder: string) returns (sources: seq<string>)
    ensures sources == IntoFolderKept(vault, paths, folder)
  {
    sources := [];
    for i := 0 to |paths|
      invariant sources == IntoFolderKept(vault, paths[..i], folder)
    {
      var p := paths[i];
      assert paths[..i + 1][..i] == paths[..i];
      if IsFolder(vault, p) && (folder == p || StartsWith(folder, p + "/")) {
        continue;
      }
      sources := sources + [p];
    }
    assert paths[..|paths|] == paths;
  }

  /** `movedPaths` of a root drop: the names of the dragged items that
      exist, each moved to the root. */
  function RootMovedPaths(vault: map<string, Kind>, paths: seq<string>): seq<string> {
    if paths == [] then []
    else
      var last := paths[|paths| - 1];
      RootMovedPaths(vault, paths[..|paths| - 1]) + (if last in vault then [Name(last)] else [])
  }

  /** Every path a root drop records is a root path. */
  lemma {:induction false} RootMovedPathsAtRoot(vault: map<string, Kind>, paths: seq<string>)
    ensures |RootMovedPaths(vault, paths)| <= |paths|
    ensures forall i :: 0 <= i < |RootMovedPaths(vault, paths)| ==>
              '/' !in RootMovedPaths(vault, paths)[i] && GetParentPath(RootMovedPaths(vault, paths)[i]) == ""
  {
    if paths != [] {
      RootMovedPathsAtRoot(vault, paths[..|paths| - 1]);
    }
  }

  /** The reorder loop of a drop beside a row: the anchor starts on the
      target and advances to each placed item only when inserting after. */
  method ThreadAnchors(moved: seq<string>, targetPath: string, insertBefore: bool) returns (calls: seq<ReorderCall>)
    ensures calls == Calls(moved, targetPath, insertBefore)
  {
    calls := [];
    var anchorPath := targetPath;
    for i := 0 to |moved|
      invariant calls == Calls(moved[..i], targetPath, insertBefore)
      invariant anchorPath == if insertBefore || i == 0 then targetPath else moved[i - 1]
    {
      calls := calls + [ReorderCall(moved[i], anchorPath, insertBefore)];
      if !insertBefore {
        anchorPath := moved[i];
      }
    }
    assert moved[..|moved|] == moved;
  }

  /** A root drop: move what exists to the root, then put the moved items
      before the first root row (near the top) or chain them after the last
      one, given the root's shown children in order. */
  method RootDropCalls(vault: map<string, Kind>, paths: seq<string>, rootOrder: seq<string>, top: bool)
    returns (calls: seq<ReorderCall>)
    ensures var moved := RootMovedPaths(vault, paths);
            && (rootOrder == [] ==> calls == [])
            && (rootOrder != [] && top && rootOrder[0] != "" ==> calls == Calls(moved, rootOrder[0], true))
            && (rootOrder != [] && !(top && rootOrder[0] != "") ==>
                  calls == if rootOrder[|rootOrder| - 1] != "" then Calls(moved, rootOrder[|rootOrder| - 1], false) else [])
  {
    var moved := [];
    for i := 0 to |paths|
      invariant moved == RootMovedPaths(vault, paths[..i])
    {
      assert paths[..i + 1][..i] == paths[..i];
      if paths[i] !in vault {
        continue;
      }
      moved := moved + [Name(paths[i])];
    }
    assert paths[..|paths|] == paths;
    calls := [];
    if rootOrder != [] {
      var first, last := rootOrder[0], rootOrder[|rootOrder| - 1];
      if top && first != "" {
        calls := ThreadAnchors(moved, first, true);
      } else if last != "" {
        calls := ThreadAnchors(moved, last, false);
      }
    }
  }
}
