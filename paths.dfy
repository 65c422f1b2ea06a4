/** Slash-delimited vault paths: the root is the empty path, and an item's
    path is its parent's path, a slash and its name (or just the name at the
    root). */
module Paths {
  import opened Strings

  /** The folder part of `path`: everything before its last slash, or the
      root when there is none. The named `getParentPath` and the inline
      lambdas of the drop handlers and of `reorderItems` compute the same. */
  function GetParentPath(path: string): (r: string)
    ensures '/' !in path ==> r == ""
    ensures '/' in path ==> StartsWith(path, r + "/") && '/' !in path[|r| + 1..]
  {
    var i := LastIndexOf(path, '/');
    if i == -1 then ""
    else
      assert path[..i + 1] == path[..i] + "/";
      path[..i]
  }

  /** `p.substring(p.lastIndexOf('/') + 1)`: the final segment, an item's name. */
  function Name(path: string): (r: string)
    ensures '/' !in r
    ensures EndsWith(path, r)
    ensures |r| == |path| || path[|path| - |r| - 1] == '/'
  {
    var i := LastIndexOf(path, '/');
    path[i + 1..]
  }

  /** The path a child called `name` gets under folder `parent`:
      `parent ? `${parent}/${name}` : name`. */
  function ChildPath(parent: string, name: string): string {
    if parent == "" then name else parent + "/" + name
  }

  /** A path is its parent, a slash and its name; without a slash it is its name. */
  lemma ParentAndName(path: string)
    ensures '/' in path ==> path == GetParentPath(path) + "/" + Name(path)
    ensures '/' !in path ==> Name(path) == path
  {
    var i := LastIndexOf(path, '/');
    if i != -1 {
      assert path == path[..i] + "/" + path[i + 1..];
    }
  }

  /** Placing a name under a folder and asking for the parent and the name
      gives them back. */
  lemma ChildPathParts(parent: string, name: string)
    requires '/' !in name
    ensures GetParentPath(ChildPath(parent, name)) == parent
    ensures Name(ChildPath(parent, name)) == name
  {
    var c := ChildPath(parent, name);
    if parent != "" {
      assert c[|parent|] == '/';
      assert c[..|parent|] == parent;
      assert c[|parent| + 1..] == name;
    }
  }

  /** `key === p || key.startsWith(p + '/')`: `key` is `p` or lies below it. */
  predicate IsUnder(key: string, p: string) {
    key == p || StartsWith(key, p + "/")
  }

  /** Lying below is transitive: below a folder that lies below `p` is below `p`. */
  lemma IsUnderTransitive(k: string, q: string, p: string)
    requires IsUnder(k, q) && IsUnder(q, p)
    ensures IsUnder(k, p)
  {
    if k != q && q != p {
      assert k[..|q|] == q;
      assert k[..|p| + 1] == k[..|q|][..|p| + 1];
    }
  }

  /** `getParentFolderAtDepth`: the ancestor folder the un-indent gesture
      targets, given a depth computed from the pointer position. */
  function GetParentFolderAtDepth(path: string, targetDepth: int): (r: string)
    ensures targetDepth < 0 ==> r == ""
    ensures targetDepth >= |Split(path, '/')| - 1 ==> r == GetParentPath(path)
    ensures 0 <= targetDepth < |Split(path, '/')| - 1 ==>
              StartsWith(path, r + "/") && Split(r, '/') == Split(path, '/')[..targetDepth + 1]
  {
    var parts := Split(path, '/');
    if targetDepth < 0 then ""
    else if targetDepth >= |parts| - 1 then GetParentPath(path)
    else
      JoinSplit(path, '/');
      JoinPrefix(parts, targetDepth + 1, '/');
      SplitJoin(parts[..targetDepth + 1], '/');
      Join(parts[..targetDepth + 1], '/')
  }

  /** Splitting the join of separator-free parts gives the parts back. */
  lemma {:induction false} SplitJoin(parts: seq<string>, sep: char)
    requires |parts| >= 1
    requires forall i :: 0 <= i < |parts| ==> sep !in parts[i]
    ensures Split(Join(parts, sep), sep) == parts
  {
    if |parts| > 1 {
      SplitJoin(parts[1..], sep);
      SplitAtFirst(parts[0], sep, Join(parts[1..], sep));
      assert parts == [parts[0]] + parts[1..];
    } else {
      assert IndexOfChar(parts[0], sep) == -1;
    }
  }

  /** A separator-free part before the first separator is split off whole. */
  lemma SplitAtFirst(a: string, sep: char, rest: string)
    requires sep !in a
    ensures Split(a + [sep] + rest, sep) == [a] + Split(rest, sep)
  {
    var s := a + [sep] + rest;
    assert IndexOfChar(s, sep) == |a| by {
      assert s[|a|] == sep;
      forall j | 0 <= j < |a| ensures s[j] != sep {
        assert s[j] == a[j];
      }
    }
    assert s[..|a|] == a;
    assert s[|a| + 1..] == rest;
  }

  /** The depth of a row whose left edge is `rowLeft` pixels from the
      container: `Math.floor((left - 8) / 16)`. Dafny's division by a
      positive divisor rounds down, like `Math.floor`. */
  function DepthAt(left: int): int {
    (left - 8) / 16
  }
}
