/** The reorder primitive: move one item next to a sibling and rank the
    whole sibling group densely. */
module Reorder {
  import opened Strings
  import opened Paths
  import opened SortEngine

  /** `findIndex(item => item.path === p)`: the first index with path `p`. */
  function IndexOfPath(s: seq<Item>, p: string): (r: int)
    ensures -1 <= r < |s|
    ensures r >= 0 ==> s[r].path == p && forall j :: 0 <= j < r ==> s[j].path != p
    ensures r == -1 <==> forall j :: 0 <= j < |s| ==> s[j].path != p
  {
    if s == [] then -1
    else if s[0].path == p then 0
    else
      var k := IndexOfPath(s[1..], p);
      assert forall j :: 1 <= j < |s| ==> s[j] == s[1..][j - 1];
      if k == -1 then -1 else k + 1
  }

  /** `filter(item => item.path !== p)` */
  function WithoutPath(s: seq<Item>, p: string): seq<Item> {
    if s == [] then []
    else (if s[0].path != p then [s[0]] else []) + WithoutPath(s[1..], p)
  }

  /** The filter keeps exactly the items whose path is not `p`. */
  lemma {:induction false} WithoutPathMembers(s: seq<Item>, p: string)
    ensures forall x :: x in WithoutPath(s, p) <==> x in s && x.path != p
  {
    if s != [] {
      WithoutPathMembers(s[1..], p);
      assert s == [s[0]] + s[1..];
    }
  }

  /** Every path occurs at most once (true of the children of one folder). */
  ghost predicate DistinctPaths(s: seq<Item>) {
    forall i, j :: 0 <= i < |s| && 0 <= j < |s| && s[i].path == s[j].path ==> i == j
  }

  /** The sibling order `reorderItems` ranks, or None where it returns
      without writing: source and target under different parents, source not
      among the siblings, or target not among them once the source is
      filtered out. */
  function Reordered(siblings: seq<Item>, source: string, target: string, insertBefore: bool): Option<seq<Item>> {
    if GetParentPath(source) != GetParentPath(target) then None
    else
      var si := IndexOfPath(siblings, source);
      if si == -1 then None
      else
        var rest := WithoutPath(siblings, source);
        var ti := IndexOfPath(rest, target);
        if ti == -1 then None
        else
          var pos := if insertBefore then ti else ti + 1;
          Some(rest[..pos] + [siblings[si]] + rest[pos..])
  }

  /** `reorderItems` changes nothing exactly when the parents differ, the
      source is missing, the target is missing, or the target is the source
      itself (it is looked up after the source is filtered out). */
  lemma ReorderedNoneIff(siblings: seq<Item>, source: string, target: string, insertBefore: bool)
    ensures Reordered(siblings, source, target, insertBefore).None? <==>
              GetParentPath(source) != GetParentPath(target)
              || (forall j :: 0 <= j < |siblings| ==> siblings[j].path != source)
              || target == source
              || (forall j :: 0 <= j < |siblings| ==> siblings[j].path != target)
  {
    var rest := WithoutPath(siblings, source);
    WithoutPathMembers(siblings, source);
    forall j | 0 <= j < |siblings| && siblings[j].path == target && target != source
      ensures IndexOfPath(rest, target) != -1
    {
      assert siblings[j] in siblings;
      var k :| 0 <= k < |rest| && rest[k] == siblings[j];
    }
    if (forall j :: 0 <= j < |siblings| ==> siblings[j].path != target) {
      forall j | 0 <= j < |rest| ensures rest[j].path != target {
        assert rest[j] in rest;
      }
    }
  }

  lemma WithoutPathHasNo(s: seq<Item>, p: string)
    ensures forall j :: 0 <= j < |WithoutPath(s, p)| ==> WithoutPath(s, p)[j].path != p
  {
    var r := WithoutPath(s, p);
    WithoutPathMembers(s, p);
    forall j | 0 <= j < |r| ensures r[j].path != p {
      assert r[j] in r;
    }
  }

  /** The first index holding `p` is found. */
  lemma IndexOfPathAt(s: seq<Item>, p: string, k: int)
    requires 0 <= k < |s| && s[k].path == p
    requires forall j :: 0 <= j < k ==> s[j].path != p
    ensures IndexOfPath(s, p) == k
  {
  }

  lemma {:induction false} WithoutPathConcat(a: seq<Item>, b: seq<Item>, p: string)
    ensures WithoutPath(a + b, p) == WithoutPath(a, p) + WithoutPath(b, p)
  {
    if a != [] {
      var h := if a[0].path != p then [a[0]] else [];
      assert (a + b)[0] == a[0];
      assert (a + b)[1..] == a[1..] + b;
      assert WithoutPath(a + b, p) == h + WithoutPath(a[1..] + b, p);
      WithoutPathConcat(a[1..], b, p);
      assert WithoutPath(a, p) == h + WithoutPath(a[1..], p);
    } else {
      assert a + b == b;
    }
  }

  lemma WithoutPathAbsent(s: seq<Item>, p: string)
    requires forall j :: 0 <= j < |s| ==> s[j].path != p
    ensures WithoutPath(s, p) == s
  {
    if s != [] {
      WithoutPathAbsent(s[1..], p);
    }
  }

  /** After a reorder the source stands right before the target
      (insertBefore) or right after it, and every other sibling keeps its
      relative order. */
  lemma ReorderedPlacement(siblings: seq<Item>, source: string, target: string, insertBefore: bool)
    requires Reordered(siblings, source, target, insertBefore).Some?
    ensures var r := Reordered(siblings, source, target, insertBefore).value;
            var i := IndexOfPath(r, source);
            && 0 <= i < |r|
            && r[i] == siblings[IndexOfPath(siblings, source)]
            && (insertBefore ==> i + 1 < |r| && r[i + 1].path == target)
            && (!insertBefore ==> i > 0 && r[i - 1].path == target)
            && WithoutPath(r, source) == WithoutPath(siblings, source)
  {
    var rest := WithoutPath(siblings, source);
    var ti := IndexOfPath(rest, target);
    WithoutPathHasNo(siblings, source);
    SpliceBack(rest, if insertBefore then ti else ti + 1, siblings[IndexOfPath(siblings, source)]);
  }

  /** Putting an item back into a sequence that lacks its path, at `pos`. */
  lemma SpliceBack(rest: seq<Item>, pos: int, x: Item)
    requires 0 <= pos <= |rest|
    requires forall j :: 0 <= j < |rest| ==> rest[j].path != x.path
    ensures var r := rest[..pos] + [x] + rest[pos..];
            && IndexOfPath(r, x.path) == pos && r[pos] == x
            && (pos < |rest| ==> r[pos + 1] == rest[pos])
            && (pos > 0 ==> r[pos - 1] == rest[pos - 1])
            && WithoutPath(r, x.path) == rest
  {
    var p := x.path;
    var r := rest[..pos] + [x] + rest[pos..];
    assert WithoutPath(rest[..pos], p) == rest[..pos] by {
      forall j | 0 <= j < pos ensures rest[..pos][j].path != p {
        assert rest[..pos][j] == rest[j];
      }
      WithoutPathAbsent(rest[..pos], p);
    }
    assert WithoutPath(rest[pos..], p) == rest[pos..] by {
      forall j | 0 <= j < |rest| - pos ensures rest[pos..][j].path != p {
        assert rest[pos..][j] == rest[pos + j];
      }
      WithoutPathAbsent(rest[pos..], p);
    }
    WithoutPathSplice(rest[..pos], x, rest[pos..], p);
    assert rest == rest[..pos] + rest[pos..];
    assert forall j :: 0 <= j < pos ==> r[j] == rest[j];
    IndexOfPathAt(r, p, pos);
  }

  /** With distinct paths, removing the source and putting it back keeps
      the same items: a permutation. */
  lemma ReorderedIsPermutation(siblings: seq<Item>, source: string, target: string, insertBefore: bool)
    requires DistinctPaths(siblings)
    requires Reordered(siblings, source, target, insertBefore).Some?
    ensures multiset(Reordered(siblings, source, target, insertBefore).value) == multiset(siblings)
    ensures DistinctPaths(Reordered(siblings, source, target, insertBefore).value)
  {
    var si := IndexOfPath(siblings, source);
    var rest := WithoutPath(siblings, source);
    var ti := IndexOfPath(rest, target);
    var pos := if insertBefore then ti else ti + 1;
    var r := rest[..pos] + [siblings[si]] + rest[pos..];
    assert Reordered(siblings, source, target, insertBefore).value == r;
    RemoveUnique(siblings, si);
    SpliceMultiset(rest, pos, siblings[si]);
    PermutationKeepsDistinct(siblings, r);
  }

  /** Putting an item into a sequence adds it to the sequence's multiset. */
  lemma SpliceMultiset(rest: seq<Item>, pos: int, x: Item)
    requires 0 <= pos <= |rest|
    ensures multiset(rest[..pos] + [x] + rest[pos..]) == multiset(rest) + multiset{x}
  {
    assert rest == rest[..pos] + rest[pos..];
  }

  /** With distinct paths, filtering out one path drops exactly its item. */
  lemma RemoveUnique(s: seq<Item>, k: int)
    requires DistinctPaths(s) && 0 <= k < |s|
    ensures WithoutPath(s, s[k].path) == s[..k] + s[k + 1..]
    ensures multiset(WithoutPath(s, s[k].path)) + multiset{s[k]} == multiset(s)
  {
    RemoveOnly(s, k);
    assert s == s[..k] + [s[k]] + s[k + 1..];
    assert multiset(s) == multiset(s[..k]) + multiset{s[k]} + multiset(s[k + 1..]);
  }

  /** Filtering out the path held only at index `k` removes that index. */
  lemma RemoveOnly(s: seq<Item>, k: int)
    requires 0 <= k < |s|
    requires forall j :: 0 <= j < |s| && j != k ==> s[j].path != s[k].path
    ensures WithoutPath(s, s[k].path) == s[..k] + s[k + 1..]
  {
    var p := s[k].path;
    var a, b := s[..k], s[k + 1..];
    AbsentSlice(s, 0, k, p);
    AbsentSlice(s, k + 1, |s|, p);
    assert a == s[0..k] && b == s[k + 1..|s|];
    calc {
      WithoutPath(s, p);
      { Decompose(s, k); }
      WithoutPath(a + [s[k]] + b, p);
      { WithoutPathSplice(a, s[k], b, p); }
      WithoutPath(a, p) + WithoutPath(b, p);
      a + b;
    }
  }

  /** A sequence is its part before `k`, its item at `k` and its part after. */
  lemma Decompose<T>(s: seq<T>, k: int)
    requires 0 <= k < |s|
    ensures s == s[..k] + [s[k]] + s[k + 1..]
  {
  }

  /** A slice holding no item with path `p` is left as it is by filtering `p`. */
  lemma AbsentSlice(s: seq<Item>, lo: int, hi: int, p: string)
    requires 0 <= lo <= hi <= |s|
    requires forall j :: lo <= j < hi ==> s[j].path != p
    ensures WithoutPath(s[lo..hi], p) == s[lo..hi]
  {
    var t := s[lo..hi];
    forall j | 0 <= j < |t| ensures t[j].path != p {
      assert t[j] == s[lo + j];
    }
    WithoutPathAbsent(t, p);
  }

  lemma WithoutPathSplice(a: seq<Item>, x: Item, b: seq<Item>, p: string)
    requires x.path == p
    ensures WithoutPath(a + [x] + b, p) == WithoutPath(a, p) + WithoutPath(b, p)
  {
    WithoutPathConcat(a + [x], b, p);
    WithoutPathConcat(a, [x], p);
    assert WithoutPath([x], p) == [] by {
      assert [x][1..] == [];
    }
  }

  /** Two distinct positions of a permutation of a distinct-path sequence
      hold different paths. */
  lemma DistinctPathsOfPermutation(s: seq<Item>, r: seq<Item>, i: int, j: int)
    requires DistinctPaths(s) && multiset(r) == multiset(s)
    requires 0 <= i < |r| && 0 <= j < |r| && r[i].path == r[j].path
    ensures i == j
  {
    if i != j {
      assert r[i] in multiset(s) && r[j] in multiset(s);
      var a :| 0 <= a < |s| && s[a] == r[i];
      var b :| 0 <= b < |s| && s[b] == r[j];
      assert a == b;
      assert r[i] == r[j];
      var rest := r[..i] + r[i + 1..];
      assert r == r[..i] + [r[i]] + r[i + 1..];
      assert r[j] in rest by {
        if j < i { assert rest[j] == r[j]; } else { assert rest[j - 1] == r[j]; }
      }
      assert multiset(r)[r[i]] >= 2 by {
        assert multiset(r) == multiset(r[..i]) + multiset{r[i]} + multiset(r[i + 1..]);
        assert multiset(rest) == multiset(r[..i]) + multiset(r[i + 1..]);
        assert r[i] in multiset(rest);
      }
      MultiplicityOne(s, a);
      assert false;
    }
  }

  /** In a distinct-path sequence every element occurs once. */
  lemma {:induction false} MultiplicityOne(s: seq<Item>, a: int)
    requires DistinctPaths(s) && 0 <= a < |s|
    ensures multiset(s)[s[a]] == 1
  {
    assert s == s[..a] + [s[a]] + s[a + 1..];
    assert multiset(s) == multiset(s[..a]) + multiset{s[a]} + multiset(s[a + 1..]);
    var t := s[..a] + s[a + 1..];
    assert s[a] !in t by {
      forall c | 0 <= c < |t| ensures t[c] != s[a] {
        if c < a { assert t[c] == s[c]; } else { assert t[c] == s[c + 1]; }
      }
    }
    assert multiset(s[..a]) + multiset(s[a + 1..]) == multiset(s[..a] + s[a + 1..]);
  }

  /** Reordering an item before its current successor, or after its current
      predecessor, leaves the order as it is. */
  lemma ReorderNextToNeighbourIsIdentity(siblings: seq<Item>, k: int, insertBefore: bool)
    requires DistinctPaths(siblings)
    requires insertBefore ==> 0 <= k && k + 1 < |siblings|
    requires !insertBefore ==> 0 < k < |siblings|
    requires GetParentPath(siblings[k].path) == GetParentPath(siblings[if insertBefore then k + 1 else k - 1].path)
    ensures Reordered(siblings, siblings[k].path, siblings[if insertBefore then k + 1 else k - 1].path, insertBefore)
            == Some(siblings)
  {
    var source := siblings[k].path;
    var rest := siblings[..k] + siblings[k + 1..];
    IndexOfPathAt(siblings, source, k);
    RemoveUnique(siblings, k);
    SpliceAtOwnIndex(siblings, k);
    if insertBefore {
      IndexAfterRemoval(siblings, k, k + 1);
      ReorderedAt(siblings, source, siblings[k + 1].path, true, k, rest, k);
    } else {
      IndexAfterRemoval(siblings, k, k - 1);
      ReorderedAt(siblings, source, siblings[k - 1].path, false, k, rest, k - 1);
    }
  }

  /** Removing index `k` and putting the item back at `k` restores the sequence. */
  lemma SpliceAtOwnIndex(s: seq<Item>, k: int)
    requires 0 <= k < |s|
    ensures var rest := s[..k] + s[k + 1..];
            rest[..k] + [s[k]] + rest[k..] == s
  {
    var rest := s[..k] + s[k + 1..];
    assert rest[..k] == s[..k] && rest[k..] == s[k + 1..];
    assert s == s[..k] + [s[k]] + s[k + 1..];
  }

  /** Once index `k` is removed, any other item is found at its index,
      shifted down by one when it came after `k`. */
  lemma IndexAfterRemoval(s: seq<Item>, k: int, t: int)
    requires DistinctPaths(s)
    requires 0 <= k < |s| && 0 <= t < |s| && t != k
    ensures IndexOfPath(s[..k] + s[k + 1..], s[t].path) == if t < k then t else t - 1
  {
    var rest := s[..k] + s[k + 1..];
    var ti := if t < k then t else t - 1;
    assert rest[ti] == s[t];
    forall j | 0 <= j < ti ensures rest[j].path != s[t].path {
      if j < k {
        assert rest[j] == s[j];
      } else {
        assert rest[j] == s[j + 1];
      }
    }
    IndexOfPathAt(rest, s[t].path, ti);
  }

  /** Once the item at `k` is filtered out, any other item is found at its
      index, shifted down by one when it came after `k`. */
  lemma IndexAfterFilter(s: seq<Item>, k: int, t: int)
    requires DistinctPaths(s)
    requires 0 <= k < |s| && 0 <= t < |s| && t != k
    ensures IndexOfPath(WithoutPath(s, s[k].path), s[t].path) == if t < k then t else t - 1
  {
    RemoveOnly(s, k);
    IndexAfterRemoval(s, k, t);
  }

  /** Reordered in terms of the indices it looks up. */
  lemma ReorderedAt(siblings: seq<Item>, source: string, target: string, insertBefore: bool, si: int, rest: seq<Item>, ti: int)
    requires GetParentPath(source) == GetParentPath(target)
    requires 0 <= si && IndexOfPath(siblings, source) == si
    requires WithoutPath(siblings, source) == rest
    requires 0 <= ti && IndexOfPath(rest, target) == ti
    ensures insertBefore ==> Reordered(siblings, source, target, insertBefore) == Some(rest[..ti] + [siblings[si]] + rest[ti..])
    ensures !insertBefore ==> Reordered(siblings, source, target, insertBefore) == Some(rest[..ti + 1] + [siblings[si]] + rest[ti + 1..])
  {
  }

  /** The ranks `reorderItems` writes: each sibling's path to its index (a
      later occurrence of a path overwrites an earlier one, as in
      `newOrder[item.path] = index`). */
  function Ranks(s: seq<Item>): map<string, int>
  {
    if s == [] then map[]
    else Ranks(s[..|s| - 1])[s[|s| - 1].path := |s| - 1]
  }

  /** Rank density: with distinct paths the ranks are exactly 0..n-1, one
      per sibling, in sibling order. */
  lemma {:induction false} RanksDense(s: seq<Item>)
    requires DistinctPaths(s)
    ensures Ranks(s).Keys == set i | 0 <= i < |s| :: s[i].path
    ensures forall i :: 0 <= i < |s| ==> Ranks(s)[s[i].path] == i
  {
    if s != [] {
      var init := s[..|s| - 1];
      assert DistinctPaths(init) by {
        forall i, j | 0 <= i < |init| && 0 <= j < |init| && init[i].path == init[j].path ensures i == j {
          assert init[i] == s[i] && init[j] == s[j];
        }
      }
      RanksDense(init);
      assert forall i :: 0 <= i < |init| ==> init[i] == s[i];
      var last := s[|s| - 1];
      assert (set i | 0 <= i < |s| :: s[i].path) == (set i | 0 <= i < |init| :: init[i].path) + {last.path} by {
        forall i | 0 <= i < |s| ensures s[i].path in (set i | 0 <= i < |init| :: init[i].path) + {last.path} {
          if i < |init| { assert init[i].path == s[i].path; }
        }
      }
    }
  }

  /** Every path of `s` is ranked, and ranks strictly increase along `s`. */
  ghost predicate RanksIncrease(s: seq<Item>, order: map<string, int>) {
    && (forall i :: 0 <= i < |s| ==> s[i].path in order)
    && (forall i, j :: 0 <= i < j < |s| ==> order[s[i].path] < order[s[j].path])
  }

  /** A sequence whose ranks strictly increase is sorted and has no ties. */
  lemma RanksIncreaseIsSorted(s: seq<Item>, order: map<string, int>)
    requires RanksIncrease(s, order)
    ensures Sorted(s, order)
    ensures DistinctKeys(s, order)
  {
    forall x, y | x in s && y in s && Compare(x, y, order) == 0 ensures x == y {
      var i :| 0 <= i < |s| && s[i] == x;
      var j :| 0 <= j < |s| && s[j] == y;
      CompareAntisymmetric(x, y, order);
    }
  }

  /** Dropping ignored items keeps the ranks increasing (with gaps). */
  lemma {:induction false} VisibleRanksIncrease(s: seq<Item>, order: map<string, int>)
    requires RanksIncrease(s, order)
    ensures RanksIncrease(Visible(s), order)
  {
    if s != [] {
      var t := s[1..];
      assert RanksIncrease(t, order) by {
        assert forall i :: 0 <= i < |t| ==> t[i] == s[i + 1];
      }
      VisibleRanksIncrease(t, order);
      var vt := Visible(t);
      forall y | y in vt ensures order[s[0].path] < order[y.path] {
        VisibleSubset(t, y);
        var j :| 0 <= j < |t| && t[j] == y;
        assert t[j] == s[j + 1];
      }
      var v := Visible(s);
      if !ShouldIgnore(s[0]) {
        assert v == [s[0]] + vt;
        forall i, j | 0 <= i < j < |v| ensures order[v[i].path] < order[v[j].path] {
          assert v[j] == vt[j - 1] && v[j] in vt;
          if i > 0 {
            assert v[i] == vt[i - 1];
          }
        }
      } else {
        assert v == vt;
      }
    }
  }

  lemma {:induction false} VisibleSubset(s: seq<Item>, y: Item)
    requires y in Visible(s)
    ensures y in s
  {
    if s != [] {
      if y != s[0] || ShouldIgnore(s[0]) {
        VisibleSubset(s[1..], y);
      }
    }
  }

  /** A permutation of a distinct-path sequence has distinct paths. */
  lemma PermutationKeepsDistinct(s: seq<Item>, r: seq<Item>)
    requires DistinctPaths(s) && multiset(r) == multiset(s)
    ensures DistinctPaths(r)
  {
    forall i, j | 0 <= i < |r| && 0 <= j < |r| && r[i].path == r[j].path ensures i == j {
      DistinctPathsOfPermutation(s, r, i, j);
    }
  }

  /** Merging the ranks of a group into the stored order: the group gets
      0..n-1, every other key keeps its value. */
  lemma MergeRanks(order: map<string, int>, r: seq<Item>)
    requires DistinctPaths(r)
    ensures forall i :: 0 <= i < |r| ==> r[i].path in order + Ranks(r) && (order + Ranks(r))[r[i].path] == i
    ensures forall k :: k in order && (forall i :: 0 <= i < |r| ==> r[i].path != k) ==> (order + Ranks(r))[k] == order[k]
    ensures RanksIncrease(r, order + Ranks(r))
  {
    RanksDense(r);
    forall i | 0 <= i < |r| ensures r[i].path in Ranks(r) {
      assert r[i].path in (set j | 0 <= j < |r| :: r[j].path);
    }
  }

  /** A successful reorder takes effect: whatever order the siblings were
      listed in (`sorted`, a permutation of the children), sorting the
      children under the written ranks gives exactly the reordered sequence,
      while every key outside the group keeps its value. */
  lemma ReorderTakesEffect(children: seq<Item>, sorted: seq<Item>, order: map<string, int>, source: string, target: string, insertBefore: bool)
    requires DistinctPaths(sorted) && multiset(sorted) == multiset(children)
    requires Reordered(sorted, source, target, insertBefore).Some?
    ensures var r := Reordered(sorted, source, target, insertBefore).value;
            && SortItems(children, order + Ranks(r)) == r
            && (forall i :: 0 <= i < |r| ==> (order + Ranks(r))[r[i].path] == i)
            && (forall k :: k in order && (forall i :: 0 <= i < |r| ==> r[i].path != k) ==> (order + Ranks(r))[k] == order[k])
  {
    var r := Reordered(sorted, source, target, insertBefore).value;
    ReorderedIsPermutation(sorted, source, target, insertBefore);
    MergeRanks(order, r);
    ResortIsIdentity(children, r, order + Ranks(r));
  }

  /** Children whose ranks increase along `r` sort into `r`. */
  lemma ResortIsIdentity(children: seq<Item>, r: seq<Item>, order: map<string, int>)
    requires multiset(r) == multiset(children)
    requires RanksIncrease(r, order)
    ensures SortItems(children, order) == r
  {
    RanksIncreaseIsSorted(r, order);
    SortIsDeterministic(r, children, order);
    SortedUnique(r, SortItems(r, order), order);
  }

  /** The reorder shows in the rendered view as well: the shown children,
      sorted under the written ranks, come out in the reordered sequence's
      order. Hidden `~$` siblings were ranked too, so the shown ranks may
      have gaps. */
  lemma ReorderShowsInView(children: seq<Item>, sorted: seq<Item>, order: map<string, int>, source: string, target: string, insertBefore: bool)
    requires DistinctPaths(sorted) && multiset(sorted) == multiset(children)
    requires Reordered(sorted, source, target, insertBefore).Some?
    ensures var r := Reordered(sorted, source, target, insertBefore).value;
            SortItems(Visible(children), order + Ranks(r)) == Visible(r)
  {
    var r := Reordered(sorted, source, target, insertBefore).value;
    ReorderedIsPermutation(sorted, source, target, insertBefore);
    MergeRanks(order, r);
    VisibleRanksIncrease(r, order + Ranks(r));
    VisibleOfPermutation(r, children);
    ResortIsIdentity(Visible(children), Visible(r), order + Ranks(r));
  }
}
