/** The chain of reorder calls a drop issues for a group of dragged items:
    every item is placed next to an anchor that stays on the drop target
    when inserting before and advances to the item just placed when
    inserting after. */
module GroupReorder {
  import opened Strings
  import opened Paths
  import opened SortEngine
  import opened Reorder

  /** One `reorderItems(source, anchor, insertBefore)` call. */
  datatype ReorderCall = ReorderCall(source: string, anchor: string, insertBefore: bool)

  /** The calls of `let anchor = target; for (const p of moved) {
      reorderItems(p, anchor, insertBefore); if (!insertBefore) anchor = p; }`:
      call `i` places the `i`-th path next to the target when inserting
      before, and next to the previous path (the target for the first one)
      when inserting after. */
  function Calls(moved: seq<string>, target: string, insertBefore: bool): seq<ReorderCall> {
    seq(|moved|, i requires 0 <= i < |moved| =>
      ReorderCall(moved[i], if insertBefore || i == 0 then target else moved[i - 1], insertBefore))
  }

  /** The sibling order after the calls, each one applied to the order the
      previous one left; a call that `reorderItems` refuses leaves it as it
      was. */
  function Apply(siblings: seq<Item>, calls: seq<ReorderCall>): seq<Item> {
    if calls == [] then siblings
    else
      var before := Apply(siblings, calls[..|calls| - 1]);
      var c := calls[|calls| - 1];
      match Reordered(before, c.source, c.anchor, c.insertBefore)
      case Some(r) => r
      case None => before
  }

  /** The ranks `sortOrder` holds after `reorderItems` runs each call in
      turn over the same children: each call sorts the children under the
      ranks the previous calls left and, when it succeeds, merges the dense
      ranks of its result. */
  function RanksAfter(children: seq<Item>, order: map<string, int>, calls: seq<ReorderCall>): map<string, int> {
    if calls == [] then order
    else
      var before := RanksAfter(children, order, calls[..|calls| - 1]);
      var c := calls[|calls| - 1];
      match Reordered(SortItems(children, before), c.source, c.anchor, c.insertBefore)
      case Some(r) => before + Ranks(r)
      case None => before
  }

  /** Chaining the calls through the saved ranks gives the order `Apply`
      computes: after the calls, the children sort into the sequence the
      calls produce one after another from the order shown before them. */
  lemma {:induction false} RanksAfterShowApply(children: seq<Item>, order: map<string, int>, calls: seq<ReorderCall>)
    requires DistinctPaths(children)
    ensures SortItems(children, RanksAfter(children, order, calls)) == Apply(SortItems(children, order), calls)
  {
    if calls != [] {
      var init := calls[..|calls| - 1];
      var c := calls[|calls| - 1];
      var before := RanksAfter(children, order, init);
      RanksAfterShowApply(children, order, init);
      var sorted := SortItems(children, before);
      PermutationKeepsDistinct(children, sorted);
      if Reordered(sorted, c.source, c.anchor, c.insertBefore).Some? {
        ReorderTakesEffect(children, sorted, before, c.source, c.anchor, c.insertBefore);
      }
    }
  }

  function PathsOf(g: seq<Item>): seq<string> {
    seq(|g|, i requires 0 <= i < |g| => g[i].path)
  }

  /** The siblings with every item of the group filtered out, in order. */
  function WithoutGroup(s: seq<Item>, g: seq<Item>): seq<Item> {
    if g == [] then s
    else WithoutPath(WithoutGroup(s, g[..|g| - 1]), g[|g| - 1].path)
  }

  predicate NoPath(s: seq<Item>, p: string) {
    forall j :: 0 <= j < |s| ==> s[j].path != p
  }

  /** After a drop's reorder chain the dragged group stands together, in
      payload order, immediately before the target (`insertBefore`) or
      immediately after it; every other sibling keeps its relative order. */
  lemma GroupLandsTogether(s: seq<Item>, g: seq<Item>, target: string, insertBefore: bool)
    requires DistinctPaths(s) && DistinctPaths(g)
    requires IndexOfPath(s, target) >= 0
    requires forall k :: 0 <= k < |g| ==>
               g[k] in s && g[k].path != target && GetParentPath(g[k].path) == GetParentPath(target)
    ensures var rest := WithoutGroup(s, g);
            var ti := IndexOfPath(rest, target);
            && 0 <= ti
            && (insertBefore ==> Apply(s, Calls(PathsOf(g), target, insertBefore)) == rest[..ti] + g + rest[ti..])
            && (!insertBefore ==> Apply(s, Calls(PathsOf(g), target, insertBefore)) == rest[..ti + 1] + g + rest[ti + 1..])
  {
    var a, b := Chain(s, g, target, insertBefore, |g|);
    assert g[..|g|] == g;
    var rest := a + b;
    if insertBefore {
      IndexOfPathAt(rest, target, |a|);
      assert rest[..|a|] == a && rest[|a|..] == b;
    } else {
      IndexOfPathAt(rest, target, |a| - 1);
      assert rest[..|a|] == a && rest[|a|..] == b;
    }
  }

  /** As written, a group dropped before one of its own rows leaves payload
      order: the call for the target itself is refused, since the target is
      looked up once the source is filtered out, and every other item lands
      right before the target. Dropping `[a, b, c]` before `b` in
      `[a, b, c, d]` gives `[a, c, b, d]`, which is neither `[a, b, c, d]`
      nor `[d, a, b, c]`, the two orders that keep the group together. */
  lemma GroupBeforeOwnRowScrambles(a: Item, b: Item, c: Item, d: Item)
    requires Distinct4(a, b, c, d)
    requires GetParentPath(a.path) == GetParentPath(b.path) == GetParentPath(c.path)
    ensures var r := Apply([a, b, c, d], Calls([a.path, b.path, c.path], b.path, true));
            && r == [a, c, b, d]
            && r != [a, b, c, d] && r != [d, a, b, c]
  {
    var s := [a, b, c, d];
    var c0, c1, c2 := ReorderCall(a.path, b.path, true), ReorderCall(b.path, b.path, true), ReorderCall(c.path, b.path, true);
    assert Calls([a.path, b.path, c.path], b.path, true) == [c0, c1, c2];
    assert Apply(s, [c0]) == s by {
      FirstBeforeSecond(a, b, c, d);
      ApplySnoc(s, [], c0, s);
    }
    assert Apply(s, [c0, c1]) == s by {
      SecondBeforeItself(a, b, c, d);
      assert [c0, c1][..1] == [c0];
    }
    assert Apply(s, [c0, c1, c2]) == [a, c, b, d] by {
      ThirdBeforeSecond(a, b, c, d);
      assert [c0, c1, c2][..2] == [c0, c1];
      ApplySnoc(s, [c0, c1], c2, [a, c, b, d]);
    }
  }

  predicate Distinct4(a: Item, b: Item, c: Item, d: Item) {
    a.path != b.path && a.path != c.path && a.path != d.path
    && b.path != c.path && b.path != d.path && c.path != d.path
  }

  lemma FirstBeforeSecond(a: Item, b: Item, c: Item, d: Item)
    requires Distinct4(a, b, c, d) && GetParentPath(a.path) == GetParentPath(b.path)
    ensures Reordered([a, b, c, d], a.path, b.path, true) == Some([a, b, c, d])
  {
    var s := [a, b, c, d];
    assert DistinctPaths(s) by {
      forall i, j | 0 <= i < 4 && 0 <= j < 4 && s[i].path == s[j].path ensures i == j {
      }
    }
    ReorderNextToNeighbourIsIdentity(s, 0, true);
  }

  lemma SecondBeforeItself(a: Item, b: Item, c: Item, d: Item)
    requires Distinct4(a, b, c, d)
    ensures Reordered([a, b, c, d], b.path, b.path, true) == None
  {
    var s := [a, b, c, d];
    var rest := [a, c, d];
    assert WithoutPath(s, b.path) == rest by {
      RemoveMiddle([a], b, [c, d]);
    }
    assert IndexOfPath(s, b.path) == 1 by {
      IndexOfPathAt(s, b.path, 1);
    }
    assert IndexOfPath(rest, b.path) == -1;
  }

  lemma ThirdBeforeSecond(a: Item, b: Item, c: Item, d: Item)
    requires Distinct4(a, b, c, d) && GetParentPath(c.path) == GetParentPath(b.path)
    ensures Reordered([a, b, c, d], c.path, b.path, true) == Some([a, c, b, d])
  {
    var s := [a, b, c, d];
    var rest := [a, b, d];
    assert WithoutPath(s, c.path) == rest by {
      RemoveMiddle([a, b], c, [d]);
      assert [a, b] + [c] + [d] == s;
    }
    assert IndexOfPath(s, c.path) == 2 by {
      IndexOfPathAt(s, c.path, 2);
    }
    assert IndexOfPath(rest, b.path) == 1 by {
      IndexOfPathAt(rest, b.path, 1);
    }
    assert rest[..1] + [s[2]] + rest[1..] == [a, c, b, d];
    ReorderedAt(s, c.path, b.path, true, 2, rest, 1);
  }

  /** The chain with the drop's evident intent kept when the target is one
      of the dragged rows: the group closes up behind its first item, each
      later item placed right after the one before it. Otherwise the chain
      is the one the drop issues. */
  function GroupCalls(moved: seq<string>, target: string, insertBefore: bool): seq<ReorderCall> {
    if moved != [] && target in moved then Calls(moved[1..], moved[0], false)
    else Calls(moved, target, insertBefore)
  }

  /** With the corrected chain a dragged group always ends up together, in
      payload order, with every other sibling in its old order: next to the
      target when the target is not dragged, and where the group's first
      item stood when it is. */
  lemma GroupCallsLandTogether(s: seq<Item>, g: seq<Item>, target: string, insertBefore: bool)
    requires DistinctPaths(s) && DistinctPaths(g)
    requires IndexOfPath(s, target) >= 0
    requires forall k :: 0 <= k < |g| ==> g[k] in s && GetParentPath(g[k].path) == GetParentPath(target)
    ensures var r := Apply(s, GroupCalls(PathsOf(g), target, insertBefore));
            var rest := WithoutGroup(s, g);
            var ti := IndexOfPath(rest, target);
            && (target !in PathsOf(g) ==>
                  0 <= ti && r == if insertBefore then rest[..ti] + g + rest[ti..] else rest[..ti + 1] + g + rest[ti + 1..])
            && (target in PathsOf(g) ==>
                  var others := WithoutGroup(s, g[1..]);
                  var i := IndexOfPath(others, g[0].path);
                  0 <= i && r == others[..i] + g + others[i + 1..] && others[..i] + others[i + 1..] == rest)
  {
    var moved := PathsOf(g);
    if target !in moved {
      forall k | 0 <= k < |g| ensures g[k].path != target {
        assert moved[k] == g[k].path;
      }
      GroupLandsTogether(s, g, target, insertBefore);
    } else {
      assert GroupCalls(moved, target, insertBefore) == Calls(PathsOf(g[1..]), g[0].path, false) by {
        assert PathsOf(g[1..]) == moved[1..];
      }
      FirstAnchorLandsTogether(s, g);
    }
  }

  /** The group closed up behind its first item: the later items follow it
      in payload order and the other siblings keep theirs. */
  lemma FirstAnchorLandsTogether(s: seq<Item>, g: seq<Item>)
    requires DistinctPaths(s) && DistinctPaths(g) && g != []
    requires forall k :: 0 <= k < |g| ==> g[k] in s && GetParentPath(g[k].path) == GetParentPath(g[0].path)
    ensures var r := Apply(s, Calls(PathsOf(g[1..]), g[0].path, false));
            var others := WithoutGroup(s, g[1..]);
            var i := IndexOfPath(others, g[0].path);
            0 <= i && r == others[..i] + g + others[i + 1..] && others[..i] + others[i + 1..] == WithoutGroup(s, g)
  {
    var h, first := g[1..], g[0];
    TailFits(s, g);
    GroupLandsTogether(s, h, first.path, false);
    var others := WithoutGroup(s, h);
    var i := IndexOfPath(others, first.path);
    FirstStaysPut(s, g, others, i);
    GroupInPlace(others, g, i);
    assert others[..i] + others[i + 1..] == WithoutGroup(s, g) by {
      RemoveAt(others, i);
      WithoutGroupFirst(s, g);
    }
  }

  /** The later items of the group meet what the chain after the first item needs. */
  lemma TailFits(s: seq<Item>, g: seq<Item>)
    requires DistinctPaths(g) && g != []
    requires forall k :: 0 <= k < |g| ==> g[k] in s && GetParentPath(g[k].path) == GetParentPath(g[0].path)
    ensures DistinctPaths(g[1..])
    ensures IndexOfPath(s, g[0].path) >= 0
    ensures forall k :: 0 <= k < |g[1..]| ==>
              g[1..][k] in s && g[1..][k].path != g[0].path && GetParentPath(g[1..][k].path) == GetParentPath(g[0].path)
  {
    var h := g[1..];
    forall i, j | 0 <= i < |h| && 0 <= j < |h| && h[i].path == h[j].path ensures i == j {
      assert g[i + 1].path == g[j + 1].path;
    }
    forall k | 0 <= k < |h| ensures h[k] in s && h[k].path != g[0].path && GetParentPath(h[k].path) == GetParentPath(g[0].path) {
      assert h[k] == g[k + 1];
    }
    assert g[0] in s;
    IndexOfPathOfMember(s, g[0]);
  }

  /** Where the first item's path is found among the other siblings, the
      first item itself stands. */
  lemma FirstStaysPut(s: seq<Item>, g: seq<Item>, others: seq<Item>, i: int)
    requires DistinctPaths(s) && g != [] && g[0] in s
    requires others == WithoutGroup(s, g[1..])
    requires 0 <= i && IndexOfPath(others, g[0].path) == i
    ensures DistinctPaths(others) && others[i] == g[0]
  {
    WithoutGroupDistinct(s, g[1..]);
    WithoutGroupSubset(s, g[1..]);
    assert others[i] in s;
    DistinctMember(s, others[i], g[0]);
  }

  /** The item at `i` followed by the rest of the group is the group in its place. */
  lemma GroupInPlace(others: seq<Item>, g: seq<Item>, i: int)
    requires g != [] && 0 <= i < |others| && others[i] == g[0]
    ensures others[..i + 1] + g[1..] + others[i + 1..] == others[..i] + g + others[i + 1..]
  {
    assert others[..i + 1] == others[..i] + [g[0]];
    assert g == [g[0]] + g[1..];
  }

  /** A member of the siblings is found by its path. */
  lemma IndexOfPathOfMember(s: seq<Item>, x: Item)
    requires x in s
    ensures IndexOfPath(s, x.path) >= 0
  {
    var q :| 0 <= q < |s| && s[q] == x;
    assert s[q].path == x.path;
  }

  /** Two members of siblings with distinct paths that share a path are the same item. */
  lemma DistinctMember(s: seq<Item>, x: Item, y: Item)
    requires DistinctPaths(s) && x in s && y in s && x.path == y.path
    ensures x == y
  {
    var i :| 0 <= i < |s| && s[i] == x;
    var j :| 0 <= j < |s| && s[j] == y;
  }

  lemma {:induction false} WithoutGroupSubset(s: seq<Item>, g: seq<Item>)
    ensures forall x :: x in WithoutGroup(s, g) ==> x in s
  {
    if g != [] {
      WithoutGroupSubset(s, g[..|g| - 1]);
      WithoutPathMembers(WithoutGroup(s, g[..|g| - 1]), g[|g| - 1].path);
    }
  }

  lemma {:induction false} WithoutGroupDistinct(s: seq<Item>, g: seq<Item>)
    requires DistinctPaths(s)
    ensures DistinctPaths(WithoutGroup(s, g))
  {
    if g != [] {
      WithoutGroupDistinct(s, g[..|g| - 1]);
      DistinctWithout(WithoutGroup(s, g[..|g| - 1]), g[|g| - 1].path);
    }
  }

  /** Filtering out the path of the item at `i` removes just that item. */
  lemma RemoveAt(r: seq<Item>, i: int)
    requires DistinctPaths(r) && 0 <= i < |r|
    ensures WithoutPath(r, r[i].path) == r[..i] + r[i + 1..]
  {
    var p := r[i].path;
    var front, back := r[..i], r[i + 1..];
    assert r == front + [r[i]] + back;
    assert NoPath(front, p) by {
      forall j | 0 <= j < |front| ensures front[j].path != p {
        assert front[j] == r[j];
      }
    }
    assert NoPath(back, p) by {
      forall j | 0 <= j < |back| ensures back[j].path != p {
        assert back[j] == r[i + 1 + j];
      }
    }
    RemoveMiddle(front, r[i], back);
  }

  lemma RemoveMiddle(front: seq<Item>, x: Item, back: seq<Item>)
    requires NoPath(front, x.path) && NoPath(back, x.path)
    ensures WithoutPath(front + [x], x.path) == front
    ensures WithoutPath(front + [x] + back, x.path) == front + back
  {
    var p := x.path;
    assert WithoutPath(front + [x], p) == front by {
      WithoutPathConcat(front, [x], p);
      WithoutPathAbsent(front, p);
      assert [x][1..] == [];
    }
    assert WithoutPath(front + [x] + back, p) == front + back by {
      WithoutPathConcat(front + [x], back, p);
      WithoutPathAbsent(back, p);
    }
  }

  /** The two filters commute. */
  lemma {:induction false} WithoutPathSwap(s: seq<Item>, p: string, q: string)
    ensures WithoutPath(WithoutPath(s, p), q) == WithoutPath(WithoutPath(s, q), p)
  {
    if s != [] {
      WithoutPathSwap(s[1..], p, q);
      WithoutPathConcat(if s[0].path != p then [s[0]] else [], WithoutPath(s[1..], p), q);
      WithoutPathConcat(if s[0].path != q then [s[0]] else [], WithoutPath(s[1..], q), p);
    }
  }

  /** Filtering out the whole group is filtering out all but its first item,
      then the first. */
  lemma {:induction false} WithoutGroupFirst(s: seq<Item>, g: seq<Item>)
    requires g != []
    ensures WithoutGroup(s, g) == WithoutPath(WithoutGroup(s, g[1..]), g[0].path)
  {
    var n := |g|;
    if n == 1 {
      assert g[..0] == [] && g[1..] == [];
    } else {
      var init := g[..n - 1];
      WithoutGroupFirst(s, init);
      assert init[1..] == g[1..][..n - 2] && init[0] == g[0];
      WithoutPathSwap(WithoutGroup(s, init[1..]), g[0].path, g[n - 1].path);
      assert g[1..][n - 2] == g[n - 1];
    }
  }

  /** What holds after the first `j` calls of the chain, whose result is
      `a + g[..j] + b`: the siblings outside the placed items are `a + b`,
      and the target ends `a` (inserting after) or starts `b` (before). */
  ghost predicate Around(s: seq<Item>, g: seq<Item>, target: string, insertBefore: bool, j: int, a: seq<Item>, b: seq<Item>) {
    && 0 <= j <= |g|
    && a + b == WithoutGroup(s, g[..j])
    && DistinctPaths(a + b)
    && (insertBefore ==> b != [] && b[0].path == target && NoPath(a, target))
    && (!insertBefore ==> a != [] && a[|a| - 1].path == target && NoPath(a[..|a| - 1], target))
    && (forall k :: j <= k < |g| ==> g[k] in a + b)
    && (forall k :: 0 <= k < j ==> NoPath(a + b, g[k].path))
  }

  /** The anchor of call `j` (counting from one). */
  function AnchorOf(g: seq<Item>, j: int, target: string, insertBefore: bool): string
    requires 1 <= j <= |g|
  {
    if insertBefore || j == 1 then target else g[j - 2].path
  }

  lemma {:induction false} Chain(s: seq<Item>, g: seq<Item>, target: string, insertBefore: bool, j: int)
    returns (a: seq<Item>, b: seq<Item>)
    requires DistinctPaths(s) && DistinctPaths(g)
    requires IndexOfPath(s, target) >= 0
    requires forall k :: 0 <= k < |g| ==>
               g[k] in s && g[k].path != target && GetParentPath(g[k].path) == GetParentPath(target)
    requires 0 <= j <= |g|
    ensures Apply(s, Calls(PathsOf(g[..j]), target, insertBefore)) == a + g[..j] + b
    ensures Around(s, g, target, insertBefore, j, a, b)
  {
    if j == 0 {
      var ti := IndexOfPath(s, target);
      var cut := if insertBefore then ti else ti + 1;
      a, b := s[..cut], s[cut..];
      assert s == a + b;
      assert g[..0] == [];
      assert PathsOf(g[..0]) == [];
    } else {
      var a0, b0 := Chain(s, g, target, insertBefore, j - 1);
      var p := g[j - 1].path;
      a, b := WithoutPath(a0, p), WithoutPath(b0, p);
      CallAt(s, g, target, insertBefore, j, a0, b0);
      ChainStep(s, g, target, insertBefore, j, a0, b0);
      AroundStep(s, g, target, insertBefore, j, a0, b0);
    }
  }

  /** Call `j` leaves the items placed so far followed by its source. */
  lemma ChainStep(s: seq<Item>, g: seq<Item>, target: string, insertBefore: bool, j: int, a0: seq<Item>, b0: seq<Item>)
    requires 1 <= j <= |g|
    requires Apply(s, Calls(PathsOf(g[..j - 1]), target, insertBefore)) == a0 + g[..j - 1] + b0
    requires var p := g[j - 1].path;
             Reordered(a0 + g[..j - 1] + b0, p, AnchorOf(g, j, target, insertBefore), insertBefore)
               == Some(WithoutPath(a0, p) + g[..j - 1] + [g[j - 1]] + WithoutPath(b0, p))
    ensures var p := g[j - 1].path;
            Apply(s, Calls(PathsOf(g[..j]), target, insertBefore)) == WithoutPath(a0, p) + g[..j] + WithoutPath(b0, p)
  {
    var h, x := g[..j - 1], g[j - 1];
    var a, b := WithoutPath(a0, x.path), WithoutPath(b0, x.path);
    var anchor := AnchorOf(g, j, target, insertBefore);
    var before := Calls(PathsOf(h), target, insertBefore);
    var c := ReorderCall(x.path, anchor, insertBefore);
    CallsSnoc(g, j, target, insertBefore);
    assert Calls(PathsOf(g[..j]), target, insertBefore) == before + [c];
    ApplySnoc(s, before, c, a + h + [x] + b);
    Regroup(a, g, j, b);
  }

  lemma Regroup(a: seq<Item>, g: seq<Item>, j: int, b: seq<Item>)
    requires 1 <= j <= |g|
    ensures a + g[..j - 1] + [g[j - 1]] + b == a + g[..j] + b
  {
    assert g[..j] == g[..j - 1] + [g[j - 1]];
  }

  /** Call `j` takes its source out of `a + b` and puts it after the items
      placed so far. */
  lemma CallAt(s: seq<Item>, g: seq<Item>, target: string, insertBefore: bool, j: int, a0: seq<Item>, b0: seq<Item>)
    requires DistinctPaths(g)
    requires forall k :: 0 <= k < |g| ==>
               g[k].path != target && GetParentPath(g[k].path) == GetParentPath(target)
    requires 1 <= j <= |g|
    requires Around(s, g, target, insertBefore, j - 1, a0, b0)
    ensures var p := g[j - 1].path;
            Reordered(a0 + g[..j - 1] + b0, p, AnchorOf(g, j, target, insertBefore), insertBefore)
              == Some(WithoutPath(a0, p) + g[..j - 1] + [g[j - 1]] + WithoutPath(b0, p))
  {
    var h := g[..j - 1];
    var x := g[j - 1];
    var p := x.path;
    forall k | 0 <= k < |h| ensures h[k].path != p {
      assert h[k] == g[k];
    }
    var anchor := AnchorOf(g, j, target, insertBefore);
    assert x in a0 + b0;
    var ti;
    if insertBefore {
      forall k | 0 <= k < |h| ensures h[k].path != target {
        assert h[k] == g[k];
      }
      ti := PlaceBefore(a0, h, b0, x, target);
    } else if j == 1 {
      ti := PlaceAfterTarget(a0, b0, x, target);
    } else {
      assert h[|h| - 1] == g[j - 2];
      assert NoPath(a0, anchor) by {
        assert NoPath(a0 + b0, g[j - 2].path);
        forall k | 0 <= k < |a0| ensures a0[k].path != anchor {
          assert a0[k] == (a0 + b0)[k];
        }
      }
      forall k | 0 <= k < |h| - 1 ensures h[k].path != anchor {
        assert h[k] == g[k];
      }
      ti := PlaceAfterGroup(a0, h, b0, x, target);
    }
    StepAt(a0, h, b0, x, anchor, insertBefore, ti);
  }

  /** Applying one more call applies it to the order the others left. */
  lemma ApplySnoc(s: seq<Item>, calls: seq<ReorderCall>, c: ReorderCall, r: seq<Item>)
    requires Reordered(Apply(s, calls), c.source, c.anchor, c.insertBefore) == Some(r)
    ensures Apply(s, calls + [c]) == r
  {
    assert (calls + [c])[..|calls|] == calls;
  }

  /** The calls for the first `j` items are those for the first `j - 1`
      and one more. */
  lemma CallsSnoc(g: seq<Item>, j: int, target: string, insertBefore: bool)
    requires 1 <= j <= |g|
    ensures Calls(PathsOf(g[..j]), target, insertBefore)
              == Calls(PathsOf(g[..j - 1]), target, insertBefore)
                 + [ReorderCall(g[j - 1].path, AnchorOf(g, j, target, insertBefore), insertBefore)]
  {
  }

  /** Filtering out the source of call `j` carries the split invariants over. */
  lemma AroundStep(s: seq<Item>, g: seq<Item>, target: string, insertBefore: bool, j: int, a0: seq<Item>, b0: seq<Item>)
    requires DistinctPaths(g)
    requires forall k :: 0 <= k < |g| ==> g[k].path != target
    requires 1 <= j <= |g|
    requires Around(s, g, target, insertBefore, j - 1, a0, b0)
    ensures Around(s, g, target, insertBefore, j, WithoutPath(a0, g[j - 1].path), WithoutPath(b0, g[j - 1].path))
  {
    var p := g[j - 1].path;
    var a, b := WithoutPath(a0, p), WithoutPath(b0, p);
    StepRemainder(s, g, j, a0, b0);
    if insertBefore {
      KeepsTargetFirst(a0, b0, p, target);
    } else {
      KeepsTargetLast(a0, p, target);
    }
    StepGroup(g, j, a0 + b0);
    WithoutPathConcat(a0, b0, p);
  }

  /** What remains of the siblings after call `j` is the siblings without
      the first `j` items, still with distinct paths. */
  lemma StepRemainder(s: seq<Item>, g: seq<Item>, j: int, a0: seq<Item>, b0: seq<Item>)
    requires 1 <= j <= |g|
    requires a0 + b0 == WithoutGroup(s, g[..j - 1]) && DistinctPaths(a0 + b0)
    ensures var p := g[j - 1].path;
            && WithoutPath(a0, p) + WithoutPath(b0, p) == WithoutGroup(s, g[..j])
            && DistinctPaths(WithoutPath(a0, p) + WithoutPath(b0, p))
  {
    var p := g[j - 1].path;
    WithoutPathConcat(a0, b0, p);
    assert g[..j][..j - 1] == g[..j - 1];
    DistinctWithout(a0 + b0, p);
  }

  /** After call `j` the items still to place are present and the placed
      ones are absent. */
  lemma StepGroup(g: seq<Item>, j: int, r: seq<Item>)
    requires DistinctPaths(g)
    requires 1 <= j <= |g|
    requires forall k :: j - 1 <= k < |g| ==> g[k] in r
    requires forall k :: 0 <= k < j - 1 ==> NoPath(r, g[k].path)
    ensures var r' := WithoutPath(r, g[j - 1].path);
            && (forall k :: j <= k < |g| ==> g[k] in r')
            && (forall k :: 0 <= k < j ==> NoPath(r', g[k].path))
  {
    var p := g[j - 1].path;
    var r' := WithoutPath(r, p);
    WithoutPathMembers(r, p);
    forall k | j <= k < |g| ensures g[k] in r' {
      assert g[k].path != p;
    }
    WithoutPathHasNo(r, p);
    forall k | 0 <= k < j ensures NoPath(r', g[k].path) {
      if k < j - 1 {
        NoPathWithout(r, p, g[k].path);
      }
    }
  }

  lemma KeepsTargetFirst(a: seq<Item>, b: seq<Item>, p: string, target: string)
    requires p != target
    requires b != [] && b[0].path == target && NoPath(a, target)
    ensures WithoutPath(b, p) != [] && WithoutPath(b, p)[0].path == target
    ensures NoPath(WithoutPath(a, p), target)
  {
    NoPathWithout(a, p, target);
  }

  lemma KeepsTargetLast(a: seq<Item>, p: string, target: string)
    requires p != target
    requires a != [] && a[|a| - 1].path == target && NoPath(a[..|a| - 1], target)
    ensures var a' := WithoutPath(a, p);
            a' != [] && a'[|a'| - 1].path == target && NoPath(a'[..|a'| - 1], target)
  {
    var n := |a|;
    assert a == a[..n - 1] + [a[n - 1]];
    WithoutPathConcat(a[..n - 1], [a[n - 1]], p);
    var front := WithoutPath(a[..n - 1], p);
    assert WithoutPath(a, p) == front + [a[n - 1]];
    assert WithoutPath(a, p)[..|WithoutPath(a, p)| - 1] == front;
    NoPathWithout(a[..n - 1], p, target);
  }

  /** Inserting before: the target still opens what follows the group. */
  lemma PlaceBefore(a: seq<Item>, h: seq<Item>, b: seq<Item>, x: Item, target: string) returns (ti: int)
    requires x.path != target
    requires b != [] && b[0].path == target && NoPath(a, target) && NoPath(h, target)
    ensures ti == |WithoutPath(a, x.path)| + |h|
    ensures IndexOfPath(WithoutPath(a, x.path) + h + WithoutPath(b, x.path), target) == ti
  {
    var p := x.path;
    KeepsTargetFirst(a, b, p, target);
    var a', b' := WithoutPath(a, p), WithoutPath(b, p);
    var rest := a' + h + b';
    ti := |a'| + |h|;
    assert rest[ti] == b'[0];
    forall k | 0 <= k < ti ensures rest[k].path != target {
      if k < |a'| { assert rest[k] == a'[k]; } else { assert rest[k] == h[k - |a'|]; }
    }
    IndexOfPathAt(rest, target, ti);
  }

  /** Inserting after, first call: the anchor is the target, which closes
      what precedes the group. */
  lemma PlaceAfterTarget(a: seq<Item>, b: seq<Item>, x: Item, target: string) returns (ti: int)
    requires x.path != target
    requires a != [] && a[|a| - 1].path == target && NoPath(a[..|a| - 1], target)
    ensures ti + 1 == |WithoutPath(a, x.path)|
    ensures 0 <= ti && IndexOfPath(WithoutPath(a, x.path) + [] + WithoutPath(b, x.path), target) == ti
  {
    var p := x.path;
    KeepsTargetLast(a, p, target);
    var a', b' := WithoutPath(a, p), WithoutPath(b, p);
    var rest := a' + [] + b';
    ti := |a'| - 1;
    assert rest[ti] == a'[ti];
    forall k | 0 <= k < ti ensures rest[k].path != target {
      assert rest[k] == a'[..|a'| - 1][k];
    }
    IndexOfPathAt(rest, target, ti);
  }

  /** Inserting after, later calls: the anchor is the item placed last. */
  lemma PlaceAfterGroup(a: seq<Item>, h: seq<Item>, b: seq<Item>, x: Item, target: string) returns (ti: int)
    requires h != []
    requires NoPath(a, h[|h| - 1].path) && NoPath(h[..|h| - 1], h[|h| - 1].path)
    ensures ti + 1 == |WithoutPath(a, x.path)| + |h|
    ensures 0 <= ti && IndexOfPath(WithoutPath(a, x.path) + h + WithoutPath(b, x.path), h[|h| - 1].path) == ti
  {
    var p := x.path;
    var anchor := h[|h| - 1].path;
    NoPathWithout(a, p, anchor);
    var a', b' := WithoutPath(a, p), WithoutPath(b, p);
    var rest := a' + h + b';
    ti := |a'| + |h| - 1;
    assert rest[ti] == h[|h| - 1];
    forall k | 0 <= k < ti ensures rest[k].path != anchor {
      if k < |a'| { assert rest[k] == a'[k]; } else { assert rest[k] == h[..|h| - 1][k - |a'|]; }
    }
    IndexOfPathAt(rest, anchor, ti);
  }

  /** One call of the chain: the source leaves its old place and lands at
      the end of the placed group. */
  lemma StepAt(a: seq<Item>, h: seq<Item>, b: seq<Item>, x: Item, anchor: string, insertBefore: bool, ti: int)
    requires DistinctPaths(a + b)
    requires x in a + b && NoPath(h, x.path)
    requires GetParentPath(x.path) == GetParentPath(anchor)
    requires 0 <= ti && IndexOfPath(WithoutPath(a, x.path) + h + WithoutPath(b, x.path), anchor) == ti
    requires insertBefore ==> ti == |WithoutPath(a, x.path)| + |h|
    requires !insertBefore ==> ti + 1 == |WithoutPath(a, x.path)| + |h|
    ensures Reordered(a + h + b, x.path, anchor, insertBefore)
              == Some(WithoutPath(a, x.path) + h + [x] + WithoutPath(b, x.path))
  {
    var p := x.path;
    var si := SourceAt(a, h, b, x);
    RemoveAroundGroup(a, h, b, p);
    var rest := WithoutPath(a, p) + h + WithoutPath(b, p);
    ReorderedAt(a + h + b, p, anchor, insertBefore, si, rest, ti);
    var pos := |WithoutPath(a, p)| + |h|;
    assert rest[..pos] == WithoutPath(a, p) + h;
    assert rest[pos..] == WithoutPath(b, p);
  }

  /** The source is found at its own place: nothing before it shares its path. */
  lemma SourceAt(a: seq<Item>, h: seq<Item>, b: seq<Item>, x: Item) returns (si: int)
    requires DistinctPaths(a + b)
    requires x in a + b && NoPath(h, x.path)
    ensures 0 <= si < |a + h + b| && IndexOfPath(a + h + b, x.path) == si && (a + h + b)[si] == x
  {
    var r := a + b;
    var s := a + h + b;
    var q :| 0 <= q < |r| && r[q] == x;
    si := if q < |a| then q else q + |h|;
    assert s[si] == x;
    forall j | 0 <= j < si ensures s[j].path != x.path {
      if j < |a| {
        assert s[j] == r[j];
      } else if j < |a| + |h| {
        assert s[j] == h[j - |a|];
      } else {
        assert s[j] == r[j - |h|];
      }
    }
    IndexOfPathAt(s, x.path, si);
  }

  /** Filtering a path the placed group does not hold leaves the group intact. */
  lemma RemoveAroundGroup(a: seq<Item>, h: seq<Item>, b: seq<Item>, p: string)
    requires NoPath(h, p)
    ensures WithoutPath(a + h + b, p) == WithoutPath(a, p) + h + WithoutPath(b, p)
  {
    WithoutPathConcat(a + h, b, p);
    WithoutPathConcat(a, h, p);
    WithoutPathAbsent(h, p);
  }

  lemma NoPathWithout(s: seq<Item>, p: string, q: string)
    requires NoPath(s, q)
    ensures NoPath(WithoutPath(s, p), q)
  {
    WithoutPathMembers(s, p);
    var r := WithoutPath(s, p);
    forall j | 0 <= j < |r| ensures r[j].path != q {
      assert r[j] in s;
    }
  }

  /** Filtering keeps paths distinct. */
  lemma {:induction false} DistinctWithout(s: seq<Item>, p: string)
    requires DistinctPaths(s)
    ensures DistinctPaths(WithoutPath(s, p))
  {
    if s != [] {
      var t := s[1..];
      assert DistinctPaths(t) by {
        forall i, j | 0 <= i < |t| && 0 <= j < |t| && t[i].path == t[j].path ensures i == j {
          assert s[i + 1].path == s[j + 1].path;
        }
      }
      DistinctWithout(t, p);
      var w := WithoutPath(t, p);
      WithoutPathMembers(t, p);
      if s[0].path != p {
        forall j | 0 <= j < |w| ensures w[j].path != s[0].path {
          assert w[j] in t;
          var k :| 0 <= k < |t| && t[k] == w[j];
          assert s[k + 1] == w[j];
        }
        var r := [s[0]] + w;
        forall i | 0 < i < |r| ensures r[i].path != r[0].path {
          assert r[i] == w[i - 1];
        }
        forall i, j | 0 <= i < |r| && 0 <= j < |r| && r[i].path == r[j].path ensures i == j {
          if i > 0 && j > 0 {
            assert w[i - 1].path == w[j - 1].path;
          }
        }
      }
    }
  }
}
