/** The sort engine: siblings are ordered by their explicit rank in
    `sortOrder` (no rank sorts after every rank), then folders before files,
    then by name. */
module SortEngine {
  import opened Strings
  import opened Paths

  datatype Kind = Folder | File

  /** A vault entry: a folder or a file at a path; `name` is the path's
      final segment (see WellNamed). */
  datatype Item = Item(path: string, name: string, kind: Kind)

  predicate WellNamed(it: Item) {
    it.name == Name(it.path)
  }

  /** The explorer's stand-in for `localeCompare`: a total order on names,
      here code-point lexicographic order. -1, 0 or 1. */
  function NameCompare(a: string, b: string): (c: int)
    ensures -1 <= c <= 1
    ensures c == 0 <==> a == b
  {
    if a == [] && b == [] then 0
    else if a == [] then -1
    else if b == [] then 1
    else if a[0] < b[0] then -1
    else if a[0] > b[0] then 1
    else
      assert a == [a[0]] + a[1..] && b == [b[0]] + b[1..];
      NameCompare(a[1..], b[1..])
  }

  lemma {:induction false} NameCompareAntisymmetric(a: string, b: string)
    ensures NameCompare(a, b) == -NameCompare(b, a)
  {
    if a != [] && b != [] && a[0] == b[0] {
      NameCompareAntisymmetric(a[1..], b[1..]);
    }
  }

  lemma {:induction false} NameCompareTransitive(a: string, b: string, c: string)
    requires NameCompare(a, b) <= 0 && NameCompare(b, c) <= 0
    ensures NameCompare(a, c) <= 0
  {
    if a != [] && b != [] && c != [] && a[0] == b[0] == c[0] {
      NameCompareTransitive(a[1..], b[1..], c[1..]);
    }
  }

  /** `order[path] ?? Infinity`: None stands for the missing rank, +infinity. */
  function Rank(order: map<string, int>, it: Item): Option<int> {
    if it.path in order then Some(order[it.path]) else None
  }

  /** `orderA - orderB < 0` for ranks that differ, with +infinity for None. */
  predicate RankBelow(a: Option<int>, b: Option<int>) {
    match (a, b)
    case (Some(x), Some(y)) => x < y
    case (Some(_), None) => true
    case (None, _) => false
  }

  /** The comparator of `sortItems`, reduced to its sign. */
  function Compare(a: Item, b: Item, order: map<string, int>): int {
    var ra := Rank(order, a);
    var rb := Rank(order, b);
    if ra != rb then (if RankBelow(ra, rb) then -1 else 1)
    else if a.kind == Folder && b.kind != Folder then -1
    else if b.kind == Folder && a.kind != Folder then 1
    else NameCompare(a.name, b.name)
  }

  /** The comparator is a total preorder whose ties are exactly the items
      agreeing on rank, kind and name. */
  lemma CompareAntisymmetric(a: Item, b: Item, order: map<string, int>)
    ensures Compare(a, b, order) == -Compare(b, a, order)
    ensures Compare(a, b, order) == 0 <==>
              Rank(order, a) == Rank(order, b) && a.kind == b.kind && a.name == b.name
  {
    NameCompareAntisymmetric(a.name, b.name);
  }

  lemma CompareTransitive(a: Item, b: Item, c: Item, order: map<string, int>)
    requires Compare(a, b, order) <= 0 && Compare(b, c, order) <= 0
    ensures Compare(a, c, order) <= 0
  {
    if Rank(order, a) == Rank(order, b) == Rank(order, c) && a.kind == b.kind == c.kind {
      NameCompareTransitive(a.name, b.name, c.name);
    }
  }

  ghost predicate Sorted(s: seq<Item>, order: map<string, int>) {
    forall i, j :: 0 <= i < j < |s| ==> Compare(s[i], s[j], order) <= 0
  }

  /** The head of a sorted sequence is at or below each of its elements. */
  lemma HeadIsLeast(s: seq<Item>, y: Item, order: map<string, int>)
    requires Sorted(s, order) && y in s
    ensures Compare(s[0], y, order) <= 0
  {
    var j :| 0 <= j < |s| && s[j] == y;
    if j == 0 {
      CompareAntisymmetric(y, y, order);
    }
  }

  lemma PrependSorted(a: Item, t: seq<Item>, order: map<string, int>)
    requires Sorted(t, order)
    requires forall y :: y in t ==> Compare(a, y, order) <= 0
    ensures Sorted([a] + t, order)
  {
    var r := [a] + t;
    forall i, j | 0 <= i < j < |r| ensures Compare(r[i], r[j], order) <= 0 {
      if i == 0 {
        assert r[j] == t[j - 1];
      } else {
        assert r[i] == t[i - 1] && r[j] == t[j - 1];
      }
    }
  }

  lemma InsertFront(x: Item, s: seq<Item>, order: map<string, int>)
    requires Sorted(s, order) && s != [] && Compare(x, s[0], order) <= 0
    ensures Sorted([x] + s, order)
  {
    forall y | y in s ensures Compare(x, y, order) <= 0 {
      HeadIsLeast(s, y, order);
      CompareTransitive(x, s[0], y, order);
    }
    PrependSorted(x, s, order);
  }

  lemma InsertBehind(x: Item, s: seq<Item>, t: seq<Item>, order: map<string, int>)
    requires Sorted(s, order) && s != [] && Compare(x, s[0], order) > 0
    requires Sorted(t, order) && multiset(t) == multiset(s[1..]) + multiset{x}
    ensures Sorted([s[0]] + t, order)
    ensures multiset([s[0]] + t) == multiset(s) + multiset{x}
  {
    forall y | y in t ensures Compare(s[0], y, order) <= 0 {
      assert y in multiset(t);
      if y == x {
        CompareAntisymmetric(x, s[0], order);
      } else {
        assert y in multiset(s[1..]);
        HeadIsLeast(s, y, order);
      }
    }
    PrependSorted(s[0], t, order);
    assert s == [s[0]] + s[1..];
  }

  /** Inserts `x` before the first element it does not follow; an element
      that ties with `x` stays after it. */
  function Insert(x: Item, s: seq<Item>, order: map<string, int>): (r: seq<Item>)
    requires Sorted(s, order)
    ensures multiset(r) == multiset(s) + multiset{x}
    ensures Sorted(r, order)
  {
    if s == [] then [x]
    else if Compare(x, s[0], order) <= 0 then
      InsertFront(x, s, order);
      [x] + s
    else
      var t := Insert(x, s[1..], order);
      InsertBehind(x, s, t, order);
      [s[0]] + t
  }

  /** `sortItems`: a sorted permutation of `items`. */
  function SortItems(items: seq<Item>, order: map<string, int>): (r: seq<Item>)
    ensures multiset(r) == multiset(items)
    ensures Sorted(r, order)
  {
    if items == [] then []
    else
      assert items == [items[0]] + items[1..];
      Insert(items[0], SortItems(items[1..], order), order)
  }

  /** No two distinct items of `s` tie under the comparator. */
  ghost predicate DistinctKeys(s: seq<Item>, order: map<string, int>) {
    forall x, y :: x in s && y in s && Compare(x, y, order) == 0 ==> x == y
  }

  /** Siblings (one parent, distinct paths) never tie: their names differ. */
  lemma SiblingsHaveDistinctKeys(s: seq<Item>, parent: string, order: map<string, int>)
    requires forall x :: x in s ==> x.path == ChildPath(parent, x.name)
    requires forall x, y :: x in s && y in s && x.path == y.path ==> x == y
    ensures DistinctKeys(s, order)
  {
    forall x, y | x in s && y in s && Compare(x, y, order) == 0 ensures x == y {
      CompareAntisymmetric(x, y, order);
    }
  }

  /** Two sorted arrangements of the same elements without ties start alike. */
  lemma SameHead(r1: seq<Item>, r2: seq<Item>, order: map<string, int>)
    requires Sorted(r1, order) && Sorted(r2, order) && r1 != []
    requires multiset(r1) == multiset(r2)
    requires DistinctKeys(r1, order)
    ensures r2 != [] && r1[0] == r2[0]
  {
    assert r2 != [] by { assert |multiset(r2)| == |r1|; }
    var a, b := r1[0], r2[0];
    assert a in multiset(r2) && b in multiset(r1);
    HeadIsLeast(r1, b, order);
    HeadIsLeast(r2, a, order);
    CompareAntisymmetric(a, b, order);
  }

  lemma SortedTail(r: seq<Item>, order: map<string, int>)
    requires Sorted(r, order) && r != []
    ensures Sorted(r[1..], order)
  {
    forall i, j | 0 <= i < j < |r| - 1 ensures Compare(r[1..][i], r[1..][j], order) <= 0 {
      assert r[1..][i] == r[i + 1] && r[1..][j] == r[j + 1];
    }
  }

  lemma DistinctKeysTail(r: seq<Item>, order: map<string, int>)
    requires DistinctKeys(r, order) && r != []
    ensures DistinctKeys(r[1..], order)
  {
    forall x, y | x in r[1..] && y in r[1..] && Compare(x, y, order) == 0 ensures x == y {
      assert x in r && y in r;
    }
  }

  /** A sorted sequence without ties is determined by its elements. */
  lemma {:induction false} SortedUnique(r1: seq<Item>, r2: seq<Item>, order: map<string, int>)
    requires Sorted(r1, order) && Sorted(r2, order)
    requires multiset(r1) == multiset(r2)
    requires DistinctKeys(r1, order)
    ensures r1 == r2
  {
    if r1 == [] {
      assert |r2| == |multiset(r2)| == 0;
    } else {
      SameHead(r1, r2, order);
      DistinctKeysTail(r1, order);
      SortedTail(r1, order);
      SortedTail(r2, order);
      TailMultiset(r1);
      TailMultiset(r2);
      SortedUnique(r1[1..], r2[1..], order);
      assert r1 == [r1[0]] + r1[1..] && r2 == [r2[0]] + r2[1..];
    }
  }

  lemma TailMultiset(r: seq<Item>)
    requires r != []
    ensures multiset(r[1..]) == multiset(r) - multiset{r[0]}
  {
    assert r == [r[0]] + r[1..];
  }

  /** Total order determinism: without ties, the sorted result depends only
      on which items there are, not on the order the vault lists them in. */
  lemma SortIsDeterministic(xs: seq<Item>, ys: seq<Item>, order: map<string, int>)
    requires multiset(xs) == multiset(ys)
    requires DistinctKeys(xs, order)
    ensures SortItems(xs, order) == SortItems(ys, order)
  {
    var r1, r2 := SortItems(xs, order), SortItems(ys, order);
    DistinctKeysPermuted(xs, r1, order);
    SortedUnique(r1, r2, order);
  }

  lemma DistinctKeysPermuted(xs: seq<Item>, r: seq<Item>, order: map<string, int>)
    requires multiset(r) == multiset(xs) && DistinctKeys(xs, order)
    ensures DistinctKeys(r, order)
  {
    forall x, y | x in r && y in r && Compare(x, y, order) == 0 ensures x == y {
      assert x in multiset(xs) && y in multiset(xs);
    }
  }

  /** Ranked items come first, by ascending rank; unranked ones after every
      ranked one; within a rank folders precede files and names ascend. */
  lemma SortedMeansRankThenKindThenName(s: seq<Item>, order: map<string, int>, i: int, j: int)
    requires Sorted(s, order) && 0 <= i < j < |s|
    ensures s[j].path in order ==> s[i].path in order && order[s[i].path] <= order[s[j].path]
    ensures Rank(order, s[i]) == Rank(order, s[j]) && s[i].kind == File ==> s[j].kind == File
    ensures Rank(order, s[i]) == Rank(order, s[j]) && s[i].kind == s[j].kind ==>
              NameCompare(s[i].name, s[j].name) <= 0
  {
    assert Compare(s[i], s[j], order) <= 0;
  }

  /** `shouldIgnore`: Word lock files (`~$` names) are not shown. */
  predicate ShouldIgnore(it: Item) {
    it.kind == File && StartsWith(it.name, "~$")
  }

  /** The children the view renders: `children.filter(c => !shouldIgnore(c))`. */
  function Visible(s: seq<Item>): seq<Item> {
    if s == [] then []
    else (if ShouldIgnore(s[0]) then [] else [s[0]]) + Visible(s[1..])
  }

  /** The filter keeps each shown item as often as it occurs and drops the
      others. */
  lemma {:induction false} VisibleCounts(s: seq<Item>, x: Item)
    ensures multiset(Visible(s))[x] == if ShouldIgnore(x) then 0 else multiset(s)[x]
  {
    if s != [] {
      VisibleCounts(s[1..], x);
      assert s == [s[0]] + s[1..];
    }
  }

  lemma VisibleOfPermutation(a: seq<Item>, b: seq<Item>)
    requires multiset(a) == multiset(b)
    ensures multiset(Visible(a)) == multiset(Visible(b))
  {
    forall x ensures multiset(Visible(a))[x] == multiset(Visible(b))[x] {
      VisibleCounts(a, x);
      VisibleCounts(b, x);
    }
  }
}
