/** The explorer's selection: the set of selected paths (a JavaScript Set,
    which remembers insertion order) and the anchor a shift gesture extends
    from, driven by clicks, the context menu and the keyboard over the rows
    in visual order. */
module SelectionModel {
  import opened Strings
  import opened Paths
  import opened OrderStore

  /** JavaScript truthiness of a path that may be null: null and "" are false. */
  predicate Truthy(p: Option<string>) {
    p.Some? && p.value != ""
  }

  ghost predicate NoDuplicates(s: seq<string>) {
    forall i, j :: 0 <= i < j < |s| ==> s[i] != s[j]
  }

  /** `findIndex(el => el.getAttribute('data-path') === p)` over the rows. */
  function FindRow(rows: seq<string>, p: string): (r: int)
    ensures -1 <= r < |rows|
    ensures r >= 0 ==> rows[r] == p && forall j :: 0 <= j < r ==> rows[j] != p
    ensures r == -1 <==> p !in rows
  {
    if rows == [] then -1
    else if rows[0] == p then 0
    else
      var k := FindRow(rows[1..], p);
      assert rows == [rows[0]] + rows[1..];
      if k == -1 then -1 else k + 1
  }

  /** `set.add(p)`: appended when new, otherwise the set is unchanged. */
  function Add(s: seq<string>, p: string): seq<string> {
    if p in s then s else s + [p]
  }

  /** `set.delete(p)`: the others keep their order. */
  function Remove(s: seq<string>, p: string): seq<string> {
    if s == [] then []
    else (if s[0] == p then [] else [s[0]]) + Remove(s[1..], p)
  }

  /** `for (const p of ps) set.add(p)` */
  function AddAll(s: seq<string>, ps: seq<string>): seq<string>
    decreases |ps|
  {
    if ps == [] then s else AddAll(Add(s, ps[0]), ps[1..])
  }

  /** Adding keeps the members, adds `p`, keeps the order of the existing
      members and never duplicates. */
  lemma AddMembers(s: seq<string>, p: string)
    ensures forall x :: x in Add(s, p) <==> x in s || x == p
    ensures NoDuplicates(s) ==> NoDuplicates(Add(s, p))
    ensures Add(s, p)[..|s|] == s
  {
  }

  /** Deleting removes exactly `p` and never duplicates. */
  lemma {:induction false} RemoveMembers(s: seq<string>, p: string)
    ensures forall x :: x in Remove(s, p) <==> x in s && x != p
    ensures NoDuplicates(s) ==> NoDuplicates(Remove(s, p))
  {
    if s != [] {
      RemoveMembers(s[1..], p);
      assert s == [s[0]] + s[1..];
      if NoDuplicates(s) {
        forall j | 0 <= j < |s| - 1 ensures s[1..][j] != s[0] {
          assert s[1..][j] == s[j + 1];
        }
        assert NoDuplicates(s[1..]) by {
          forall i, j | 0 <= i < j < |s| - 1 ensures s[1..][i] != s[1..][j] {
            assert s[1..][i] == s[i + 1] && s[1..][j] == s[j + 1];
          }
        }
        var t := Remove(s[1..], p);
        if s[0] != p {
          var r := [s[0]] + t;
          forall i, j | 0 <= i < j < |r| ensures r[i] != r[j] {
            assert r[j] == t[j - 1] && r[j] in t;
            if i > 0 {
              assert r[i] == t[i - 1];
            }
          }
        }
      }
    }
  }

  /** Adding a batch keeps the members, adds the batch, keeps the order of
      the existing members and never duplicates. */
  lemma {:induction false} AddAllMembers(s: seq<string>, ps: seq<string>)
    ensures forall x :: x in AddAll(s, ps) <==> x in s || x in ps
    ensures NoDuplicates(s) ==> NoDuplicates(AddAll(s, ps))
    ensures |s| <= |AddAll(s, ps)| && AddAll(s, ps)[..|s|] == s
    decreases |ps|
  {
    if ps != [] {
      AddMembers(s, ps[0]);
      AddAllMembers(Add(s, ps[0]), ps[1..]);
      assert ps == [ps[0]] + ps[1..];
      var r := AddAll(s, ps);
      assert r[..|s|] == r[..|Add(s, ps[0])|][..|s|];
    }
  }

  /** Adding paths that are all new, and distinct, appends them in order. */
  lemma {:induction false} AddAllFresh(s: seq<string>, ps: seq<string>)
    requires NoDuplicates(s + ps)
    ensures AddAll(s, ps) == s + ps
    decreases |ps|
  {
    if ps != [] {
      var st := s + ps;
      assert ps[0] !in s by {
        forall i | 0 <= i < |s| ensures s[i] != ps[0] {
          assert st[i] == s[i] && st[|s|] == ps[0];
        }
      }
      assert Add(s, ps[0]) == s + [ps[0]];
      assert s + [ps[0]] + ps[1..] == st;
      AddAllFresh(s + [ps[0]], ps[1..]);
    }
  }

  /** The smaller and the larger of two row indices. */
  function Lo(i: int, j: int): int { if i < j then i else j }
  function Hi(i: int, j: int): int { if i < j then j else i }

  /** The rows from index `i` to index `j`, whichever comes first, in
      visual order. */
  function Span(rows: seq<string>, i: int, j: int): (r: seq<string>)
    requires 0 <= i < |rows| && 0 <= j < |rows|
    ensures |r| == Hi(i, j) - Lo(i, j) + 1
    ensures forall k :: 0 <= k < |r| ==> r[k] == rows[Lo(i, j) + k]
    ensures rows[i] in r && rows[j] in r
  {
    var r := rows[Lo(i, j)..Hi(i, j) + 1];
    assert r[i - Lo(i, j)] == rows[i];
    assert r[j - Lo(i, j)] == rows[j];
    r
  }

  /** The path the keyboard acts from: `lastAnchorPath ||
      selectedPaths.values().next().value || items[0]`. */
  function CurrentPath(rows: seq<string>, selected: seq<string>, anchor: Option<string>): string
    requires rows != []
  {
    if Truthy(anchor) then anchor.value
    else if selected != [] && selected[0] != "" then selected[0]
    else rows[0]
  }

  /** The row index the keyboard moves from: the current path's row, or the
      first row when it is not shown. */
  function Cursor(rows: seq<string>, selected: seq<string>, anchor: Option<string>): (idx: int)
    requires rows != []
    ensures 0 <= idx < |rows|
    ensures CurrentPath(rows, selected, anchor) in rows ==> rows[idx] == CurrentPath(rows, selected, anchor)
    ensures CurrentPath(rows, selected, anchor) !in rows ==> idx == 0
  {
    var i := FindRow(rows, CurrentPath(rows, selected, anchor));
    if i < 0 then 0 else i
  }

  /** After a single selection of a row among distinct rows, the keyboard
      continues from that row. */
  lemma CursorAfterSingle(rows: seq<string>, k: int)
    requires NoDuplicates(rows) && 0 <= k < |rows| && rows[k] != ""
    ensures Cursor(rows, [rows[k]], Some(rows[k])) == k
  {
  }

  /** `for (let i = start; i <= end; i++) selectedPaths.add(items[i])`
      with `[start, end]` the two indices in ascending order. */
  method AddSpan(s: seq<string>, rows: seq<string>, a: int, b: int) returns (r: seq<string>)
    requires 0 <= a < |rows| && 0 <= b < |rows|
    ensures r == AddAll(s, Span(rows, a, b))
    ensures NoDuplicates(s) ==> NoDuplicates(r)
  {
    var start, end := Lo(a, b), Hi(a, b);
    ghost var span := Span(rows, a, b);
    r := s;
    for i := start to end + 1
      invariant r == AddAll(s, span[..i - start])
    {
      AddAllStep(s, span, i - start);
      SpanAt(rows, a, b, i);
      r := Add(r, rows[i]);
    }
    assert span[..end + 1 - start] == span;
    AddAllKeepsDistinct(s, span);
  }

  lemma SpanAt(rows: seq<string>, a: int, b: int, i: int)
    requires 0 <= a < |rows| && 0 <= b < |rows| && Lo(a, b) <= i <= Hi(a, b)
    ensures Span(rows, a, b)[i - Lo(a, b)] == rows[i]
  {
  }

  lemma AddAllKeepsDistinct(s: seq<string>, ps: seq<string>)
    ensures NoDuplicates(s) ==> NoDuplicates(AddAll(s, ps))
  {
    AddAllMembers(s, ps);
  }

  lemma AddAllStep(s: seq<string>, ps: seq<string>, k: int)
    requires 0 <= k < |ps|
    ensures AddAll(s, ps[..k + 1]) == Add(AddAll(s, ps[..k]), ps[k])
  {
    assert ps[..k + 1] == ps[..k] + [ps[k]];
    AddAllSnoc(s, ps[..k], ps[k]);
  }

  /** The keys the navigation handler acts on that touch only the selection
      and the collapsed folders; `SelectAllKey` is 'a' or 'A'. */
  datatype NavKey = ArrowDown | ArrowUp | ArrowLeft | ArrowRight | Home | End | Escape | SelectAllKey | OtherKey

  /** What ArrowLeft or ArrowRight does: nothing, select one row alone, or
      collapse (`collapse`) or expand a folder. */
  datatype SideMove = Stay | SelectRow(path: string) | ToggleFolder(folder: string, collapse: bool)

  /** ArrowRight on the cursor's row: a collapsed folder is expanded, an
      expanded one hands the selection to the row after it. ArrowLeft: an
      expanded folder is collapsed; a collapsed folder or a file hands the
      selection to its parent folder's row, when that row is rendered.
      `folders` are the rendered folder rows, `collapsed` those shown
      collapsed. */
  function SideKeyMove(rows: seq<string>, sel: seq<string>, anc: Option<string>, left: bool,
                       folders: set<string>, collapsed: set<string>): (m: SideMove)
    requires rows != []
    ensures var p := rows[Cursor(rows, sel, anc)];
            && (m.ToggleFolder? ==> m.folder == p && p in folders && m.collapse == left && (p in collapsed) != m.collapse)
            && (m.SelectRow? && left ==> m.path == GetParentPath(p) && m.path in folders && p != ""
                                         && (p in folders ==> p in collapsed))
            && (m.SelectRow? && !left ==> p in folders && p !in collapsed && m.path != ""
                                          && exists i :: 0 <= i < |rows| - 1 && rows[i] == p && rows[i + 1] == m.path)
            && (p == "" ==> m == Stay)
            && (p != "" && p in folders && (p in collapsed) != left ==> m.ToggleFolder?)
  {
    var i := Cursor(rows, sel, anc);
    var p := rows[i];
    if p == "" then Stay
    else if left then
      if p in folders && p !in collapsed then ToggleFolder(p, true)
      else if GetParentPath(p) in folders then SelectRow(GetParentPath(p))
      else Stay
    else if p in folders then
      if p in collapsed then ToggleFolder(p, false)
      else if i + 1 < |rows| && rows[i + 1] != "" then SelectRow(rows[i + 1])
      else Stay
    else Stay
  }

  /** The setting `modifierAction`. */
  datatype ModifierAction = OpenNewTab | SelectMultiple

  /** What a file click asks the workspace to do besides selecting. */
  datatype FileClickEffect = NoEffect | OpenInNewTab | OpenInCurrentTab | FocusView

  /** The selection and anchor after a shift-click or (with `toggle`) a
      selecting Cmd/Ctrl-click on the row `path`. A shift gesture with an
      anchor adds the rows between the anchor and `path`; otherwise a toggle
      flips `path` and anchors there; the selection is never left empty and
      a missing anchor becomes `path`. */
  function AfterModifierClick(rows: seq<string>, path: string, shift: bool, toggle: bool,
                              sel: seq<string>, anc: Option<string>): (r: (seq<string>, Option<string>))
    ensures r.0 != []
    ensures NoDuplicates(sel) ==> NoDuplicates(r.0)
    ensures shift && Truthy(anc) ==>
              && r.1 == anc
              && (forall x :: x in sel ==> x in r.0)
              && (FindRow(rows, anc.value) == -1 || FindRow(rows, path) == -1 ==> r.0 == (if sel == [] then [path] else sel))
              && (FindRow(rows, anc.value) != -1 && FindRow(rows, path) != -1 ==>
                    forall x :: x in r.0 <==> x in sel || x in Span(rows, FindRow(rows, anc.value), FindRow(rows, path)))
    ensures !(shift && Truthy(anc)) && toggle ==>
              && r.1 == Some(path)
              && (forall x :: x != path ==> (x in r.0 <==> x in sel))
              && (path !in sel ==> path in r.0)
              && (path in sel && (exists x :: x in sel && x != path) ==> path !in r.0)
    ensures !(shift && Truthy(anc)) && !toggle ==>
              && r.1 == (if Truthy(anc) then anc else Some(path))
              && r.0 == (if sel == [] then [path] else sel)
  {
    if shift && Truthy(anc) then
      var a, b := FindRow(rows, anc.value), FindRow(rows, path);
      var grown := if a != -1 && b != -1 then AddAll(sel, Span(rows, a, b)) else sel;
      AddAllMembers(sel, if a != -1 && b != -1 then Span(rows, a, b) else []);
      (if grown == [] then [path] else grown, anc)
    else if toggle then
      RemoveMembers(sel, path);
      AddMembers(sel, path);
      var flipped := if path in sel then Remove(sel, path) else Add(sel, path);
      (if flipped == [] then [path] else flipped, Some(path))
    else
      (if sel == [] then [path] else sel, if Truthy(anc) then anc else Some(path))
  }

  /** The selection and anchor after `extendSelectionTo(path)`: the rows
      between the anchor (or the current path) and `path`, the anchor kept;
      when either end is not shown, `path` alone, anchored. */
  function Extended(rows: seq<string>, current: string, path: string, anc: Option<string>): (r: (seq<string>, Option<string>))
    ensures path in r.0
    ensures NoDuplicates(r.0)
    ensures var a, b := FindRow(rows, if Truthy(anc) then anc.value else current), FindRow(rows, path);
            if a != -1 && b != -1 then r.1 == anc && forall x :: x in r.0 <==> x in Span(rows, a, b)
            else r == ([path], Some(path))
  {
    var a, b := FindRow(rows, if Truthy(anc) then anc.value else current), FindRow(rows, path);
    if a != -1 && b != -1 then
      AddAllMembers([], Span(rows, a, b));
      (AddAll([], Span(rows, a, b)), anc)
    else
      ([path], Some(path))
  }

  /** The row an arrow key moves to from the cursor: the next one (down)
      or the previous one (up), staying on the last or the first row. */
  function ArrowTarget(rows: seq<string>, sel: seq<string>, anc: Option<string>, down: bool): string
    requires rows != []
  {
    var i := Cursor(rows, sel, anc);
    if down then rows[if i + 1 < |rows| then i + 1 else |rows| - 1]
    else rows[if i - 1 > 0 then i - 1 else 0]
  }

  /** The view's `selectedPaths` and `lastAnchorPath`. */
  class Selection {
    var selected: seq<string>
    var anchor: Option<string>

    ghost predicate Valid()
      reads this
    {
      NoDuplicates(selected)
    }

    constructor ()
      ensures Valid() && selected == [] && anchor == None
    {
      selected := [];
      anchor := None;
    }

    /** Clear, select `path` alone and make it the anchor. */
    method SelectOnly(path: string)
      modifies this
      ensures Valid() && selected == [path] && anchor == Some(path)
    {
      selected := [path];
      anchor := Some(path);
    }

    /** A shift-click or (with `modifierAction` selectMultiple) a
        Cmd/Ctrl-click on the row `path`, for folders and files alike. */
    method ModifierClick(rows: seq<string>, path: string, shift: bool, toggle: bool)
      requires Valid()
      modifies this
      ensures Valid()
      ensures (selected, anchor) == AfterModifierClick(rows, path, shift, toggle, old(selected), old(anchor))
    {
      if shift && Truthy(anchor) {
        var a, b := FindRow(rows, anchor.value), FindRow(rows, path);
        if a != -1 && b != -1 {
          selected := AddSpan(selected, rows, a, b);
        }
      } else if toggle {
        if path in selected {
          RemoveMembers(selected, path);
          selected := Remove(selected, path);
        } else {
          AddMembers(selected, path);
          selected := Add(selected, path);
        }
        anchor := Some(path);
      }
      if selected == [] {
        selected := [path];
      }
      if !Truthy(anchor) {
        anchor := Some(path);
      }
    }

    /** The click handler of a folder row. With shift or a selecting
        modifier it is a ModifierClick; a plain click on the title selects
        the folder alone and toggles its collapsed state in `settings`
        (saved later, debounced). `wasCollapsed` is the row's state before. */
    method FolderClick(rows: seq<string>, path: string, shift: bool, mod: bool, action: ModifierAction,
                       onTitle: bool, wasCollapsed: bool, settings: Settings)
      requires Valid()
      modifies this, settings`collapsedFolders
      ensures Valid()
      ensures !(shift || (mod && action == SelectMultiple)) && onTitle ==>
                && selected == [path] && anchor == Some(path)
                && settings.collapsedFolders == SetCollapsed(old(settings.collapsedFolders), path, !wasCollapsed)
      ensures !(shift || (mod && action == SelectMultiple)) && !onTitle ==>
                selected == old(selected) && anchor == old(anchor) && settings.collapsedFolders == old(settings.collapsedFolders)
      ensures shift || (mod && action == SelectMultiple) ==>
                && (selected, anchor) == AfterModifierClick(rows, path, shift, mod && action == SelectMultiple, old(selected), old(anchor))
                && settings.collapsedFolders == old(settings.collapsedFolders)
    {
      if shift || (mod && action == SelectMultiple) {
        ModifierClick(rows, path, shift, mod && action == SelectMultiple);
        return;
      }
      if onTitle {
        SelectOnly(path);
        settings.collapsedFolders := SetCollapsed(settings.collapsedFolders, path, !wasCollapsed);
      }
    }

    /** The click handler of a file row. `isActive` says the file is the one
        open in the workspace. */
    method FileClick(rows: seq<string>, path: string, shift: bool, mod: bool, action: ModifierAction, isActive: bool)
      returns (effect: FileClickEffect)
      requires Valid()
      modifies this
      ensures Valid()
      ensures shift || (mod && action == SelectMultiple) ==>
                && effect == NoEffect
                && (selected, anchor) == AfterModifierClick(rows, path, shift, mod && action == SelectMultiple, old(selected), old(anchor))
      ensures !shift && mod && action == OpenNewTab ==>
                effect == OpenInNewTab && selected == [path] && anchor == Some(path)
      ensures !shift && !mod && isActive ==>
                effect == FocusView && selected == [path] && anchor == Some(path)
      ensures !shift && !mod && !isActive ==>
                effect == OpenInCurrentTab && selected == [] && anchor == old(anchor)
    {
      if shift || (mod && action == SelectMultiple) {
        ModifierClick(rows, path, shift, mod && action == SelectMultiple);
        return NoEffect;
      }
      if mod && action == OpenNewTab {
        SelectOnly(path);
        return OpenInNewTab;
      }
      if isActive {
        SelectOnly(path);
        return FocusView;
      }
      selected := [];
      return OpenInCurrentTab;
    }

    /** Right-click: an unselected row becomes the only selection and the
        anchor; a right-click inside the selection keeps it. */
    method ContextMenu(path: string)
      requires Valid()
      modifies this
      ensures Valid() && path in selected
      ensures path in old(selected) ==> selected == old(selected) && anchor == old(anchor)
      ensures path !in old(selected) ==> selected == [path] && anchor == Some(path)
    {
      if path !in selected {
        SelectOnly(path);
      }
    }

    /** `extendSelectionTo` */
    method ExtendTo(rows: seq<string>, current: string, path: string)
      requires Valid()
      modifies this
      ensures Valid()
      ensures (selected, anchor) == Extended(rows, current, path, old(anchor))
    {
      var a := FindRow(rows, if Truthy(anchor) then anchor.value else current);
      var b := FindRow(rows, path);
      if a == -1 || b == -1 {
        SelectOnly(path);
        return;
      }
      selected := AddSpan([], rows, a, b);
    }

    /** The navigation keys that move the selection or fold a folder.
        Nothing happens without rows. `folders` are the rendered folder rows
        and `collapsed` those shown collapsed; a fold is recorded in
        `settings` (saved later, debounced). */
    method Key(rows: seq<string>, key: NavKey, shift: bool, mod: bool,
               folders: set<string>, collapsed: set<string>, settings: Settings)
      requires Valid()
      modifies this, settings`collapsedFolders
      ensures Valid()
      ensures rows == [] ==> selected == old(selected) && anchor == old(anchor)
      ensures !(rows != [] && (key == ArrowLeft || key == ArrowRight)) ==>
                settings.collapsedFolders == old(settings.collapsedFolders)
      ensures rows != [] && (key == ArrowLeft || key == ArrowRight) ==>
                match SideKeyMove(rows, old(selected), old(anchor), key == ArrowLeft, folders, collapsed)
                case Stay =>
                  selected == old(selected) && anchor == old(anchor) && settings.collapsedFolders == old(settings.collapsedFolders)
                case SelectRow(p) =>
                  selected == [p] && anchor == Some(p) && settings.collapsedFolders == old(settings.collapsedFolders)
                case ToggleFolder(f, c) =>
                  selected == old(selected) && anchor == old(anchor)
                  && settings.collapsedFolders == SetCollapsed(old(settings.collapsedFolders), f, c)
      ensures rows != [] && key == Escape ==> selected == [] && anchor == None
      ensures rows != [] && key == SelectAllKey && mod ==> selected == AddAll([], rows) && anchor == Some(rows[0])
      ensures rows != [] && (key == Home || key == End) ==>
                var p := if key == Home then rows[0] else rows[|rows| - 1];
                if p != "" then selected == [p] && anchor == Some(p)
                else selected == old(selected) && anchor == old(anchor)
      ensures rows != [] && (key == ArrowDown || key == ArrowUp) ==>
                var p := ArrowTarget(rows, old(selected), old(anchor), key == ArrowDown);
                if p == "" then selected == old(selected) && anchor == old(anchor)
                else if shift then (selected, anchor) == Extended(rows, CurrentPath(rows, old(selected), old(anchor)), p, old(anchor))
                else selected == [p] && anchor == Some(p)
      ensures rows != [] && (key == OtherKey || (key == SelectAllKey && !mod)) ==>
                selected == old(selected) && anchor == old(anchor)
    {
      if rows == [] {
        return;
      }
      var current := CurrentPath(rows, selected, anchor);
      var idx := FindRow(rows, current);
      if idx < 0 {
        idx := 0;
      }
      assert idx == Cursor(rows, selected, anchor);
      ghost var before := (selected, anchor);
      match key {
        case ArrowDown =>
          var next := if idx + 1 < |rows| then idx + 1 else |rows| - 1;
          if rows[next] == "" {
            return;
          }
          if shift {
            assert rows[next] == ArrowTarget(rows, before.0, before.1, true);
            ExtendTo(rows, current, rows[next]);
            assert (selected, anchor) == Extended(rows, current, rows[next], before.1);
          } else {
            SelectOnly(rows[next]);
          }
        case ArrowUp =>
          var prev := if idx - 1 > 0 then idx - 1 else 0;
          if rows[prev] == "" {
            return;
          }
          if shift {
            assert rows[prev] == ArrowTarget(rows, before.0, before.1, false);
            ExtendTo(rows, current, rows[prev]);
            assert (selected, anchor) == Extended(rows, current, rows[prev], before.1);
          } else {
            SelectOnly(rows[prev]);
          }
        case ArrowRight =>
          ghost var move := SideKeyMove(rows, before.0, before.1, false, folders, collapsed);
          var path := rows[idx];
          if path == "" {
            return;
          }
          if path in folders {
            if path in collapsed {
              assert move == ToggleFolder(path, false);
              settings.collapsedFolders := SetCollapsed(settings.collapsedFolders, path, false);
            } else if idx + 1 < |rows| && rows[idx + 1] != "" {
              assert move == SelectRow(rows[idx + 1]);
              SelectOnly(rows[idx + 1]);
            }
          }
        case ArrowLeft =>
          ghost var move := SideKeyMove(rows, before.0, before.1, true, folders, collapsed);
          var path := rows[idx];
          if path == "" {
            return;
          }
          if path in folders && path !in collapsed {
            assert move == ToggleFolder(path, true);
            settings.collapsedFolders := SetCollapsed(settings.collapsedFolders, path, true);
          } else if GetParentPath(path) in folders {
            assert move == SelectRow(GetParentPath(path));
            SelectOnly(GetParentPath(path));
          }
        case Home =>
          if rows[0] != "" {
            SelectOnly(rows[0]);
          }
        case End =>
          if rows[|rows| - 1] != "" {
            SelectOnly(rows[|rows| - 1]);
          }
        case Escape =>
          selected := [];
          anchor := None;
        case SelectAllKey =>
          if mod {
            AddAllMembers([], rows);
            selected := AddAll([], rows);
            anchor := Some(rows[0]);
          }
        case OtherKey =>
      }
    }
  }

  /** Adding one more path after a batch is adding the longer batch. */
  lemma {:induction false} AddAllSnoc(s: seq<string>, ps: seq<string>, p: string)
    ensures AddAll(s, ps + [p]) == Add(AddAll(s, ps), p)
    decreases |ps|
  {
    if ps != [] {
      assert (ps + [p])[1..] == ps[1..] + [p];
      AddAllSnoc(Add(s, ps[0]), ps[1..], p);
    } else {
      assert ps + [p] == [p];
    }
  }

  /** A shift-click between rows `a` and `b` keeps every selected path and
      adds exactly the rows from `a` to `b`. */
  lemma ShiftClickAddsRange(sel: seq<string>, rows: seq<string>, a: int, b: int)
    requires 0 <= a < |rows| && 0 <= b < |rows|
    ensures forall k :: (a <= k <= b || b <= k <= a) ==> rows[k] in AddAll(sel, Span(rows, a, b))
    ensures forall x :: x in sel ==> x in AddAll(sel, Span(rows, a, b))
    ensures forall x :: x in AddAll(sel, Span(rows, a, b)) ==>
              x in sel || exists k :: (a <= k <= b || b <= k <= a) && rows[k] == x
  {
    AddAllMembers(sel, Span(rows, a, b));
    SpanCovers(rows, a, b);
    SpanOnly(rows, a, b);
  }

  lemma SpanCovers(rows: seq<string>, a: int, b: int)
    requires 0 <= a < |rows| && 0 <= b < |rows|
    ensures forall k :: (a <= k <= b || b <= k <= a) ==> rows[k] in Span(rows, a, b)
  {
    var sp := Span(rows, a, b);
    forall k | a <= k <= b || b <= k <= a ensures rows[k] in sp {
      assert sp[k - Lo(a, b)] == rows[k];
    }
  }

  lemma SpanOnly(rows: seq<string>, a: int, b: int)
    requires 0 <= a < |rows| && 0 <= b < |rows|
    ensures forall x :: x in Span(rows, a, b) ==> exists k :: (a <= k <= b || b <= k <= a) && rows[k] == x
  {
    var sp := Span(rows, a, b);
    forall x | x in sp ensures exists k :: (a <= k <= b || b <= k <= a) && rows[k] == x {
      var i :| 0 <= i < |sp| && sp[i] == x;
      assert rows[Lo(a, b) + i] == x;
    }
  }

  /** A shift-extension over distinct rows selects exactly the rows between
      its two ends, in visual order. */
  lemma ExtendSelectsSpan(rows: seq<string>, a: int, b: int)
    requires NoDuplicates(rows) && 0 <= a < |rows| && 0 <= b < |rows|
    ensures AddAll([], Span(rows, a, b)) == Span(rows, a, b)
  {
    var sp := Span(rows, a, b);
    SpanDistinct(rows, a, b);
    assert [] + sp == sp;
    AddAllFresh([], sp);
  }

  lemma SpanDistinct(rows: seq<string>, a: int, b: int)
    requires NoDuplicates(rows) && 0 <= a < |rows| && 0 <= b < |rows|
    ensures NoDuplicates(Span(rows, a, b))
  {
    var sp := Span(rows, a, b);
    var lo := Lo(a, b);
    forall i, j | 0 <= i < j < |sp| ensures sp[i] != sp[j] {
      assert sp[i] == rows[lo + i] && sp[j] == rows[lo + j];
    }
  }

  /** Toggling a path twice restores the selection's members; toggling a
      path that was not selected and then toggling it off restores the
      selection exactly. */
  lemma ToggleTwice(s: seq<string>, p: string)
    requires NoDuplicates(s)
    ensures p !in s ==> Remove(Add(s, p), p) == s
    ensures p in s ==> forall x :: x in Add(Remove(s, p), p) <==> x in s
  {
    if p !in s {
      RemoveAbsent(s, p);
      RemoveLast(s, p);
    } else {
      RemoveMembers(s, p);
      AddMembers(Remove(s, p), p);
    }
  }

  lemma {:induction false} RemoveAbsent(s: seq<string>, p: string)
    requires p !in s
    ensures Remove(s, p) == s
  {
    if s != [] {
      RemoveAbsent(s[1..], p);
      assert s == [s[0]] + s[1..];
    }
  }

  lemma {:induction false} RemoveLast(s: seq<string>, p: string)
    ensures Remove(s + [p], p) == Remove(s, p)
  {
    if s != [] {
      assert (s + [p])[1..] == s[1..] + [p];
      RemoveLast(s[1..], p);
    } else {
      assert Remove([p], p) == Remove([p][1..], p);
      assert [p][1..] == [];
    }
  }

  /** The folder-collapse toggle on the collapsed map: `collapsedFolders[p] =
      true` when collapsing, `delete collapsedFolders[p]` when expanding. */
  function SetCollapsed(m: map<string, bool>, path: string, collapsed: bool): (r: map<string, bool>)
    ensures collapsed ==> path in r && r[path]
    ensures !collapsed ==> path !in r
    ensures forall k :: k != path ==> (k in r <==> k in m) && (k in r ==> r[k] == m[k])
  {
    if collapsed then m[path := true] else m - {path}
  }
}
