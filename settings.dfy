/** The order store: the persisted `sortOrder` (path to rank) and
    `collapsedFolders` (path to true) maps, and the ways the explorer rewrites
    them when paths change. */
module OrderStore {
  import opened Strings
  import opened Paths
  import opened SortEngine
  import opened Reorder

  /** What `saveData` is handed: the two maps as persisted. */
  datatype Snapshot = Snapshot(sortOrder: map<string, int>, collapsedFolders: map<string, bool>)

  /** The key `key` becomes when `oldPath` is renamed to `newPath`: keys equal
      to or below `oldPath` get `path.replace(oldPath, newPath)`, others stay. */
  function Rekey(key: string, oldPath: string, newPath: string): string {
    if IsUnder(key, oldPath) then ReplaceFirst(key, oldPath, newPath) else key
  }

  /** The replacement rewrites exactly the `oldPath` prefix, so the key lands
      at the same place below `newPath`; keys outside the subtree stay. */
  lemma RekeyMovesSubtree(key: string, oldPath: string, newPath: string)
    ensures IsUnder(key, oldPath) ==>
              Rekey(key, oldPath, newPath) == newPath + key[|oldPath|..] && IsUnder(Rekey(key, oldPath, newPath), newPath)
    ensures !IsUnder(key, oldPath) ==> Rekey(key, oldPath, newPath) == key
  {
    if IsUnder(key, oldPath) {
      ReplaceFirstOfPrefix(key, oldPath, newPath);
      var r := newPath + key[|oldPath|..];
      if key != oldPath {
        assert key[|oldPath|] == key[..|oldPath| + 1][|oldPath|] == '/';
        assert r[..|newPath| + 1] == newPath + "/";
      }
    }
  }

  /** Renaming back restores the key: the rewrite of a subtree is undone by
      the reverse rename. */
  lemma RekeyRoundTrip(key: string, oldPath: string, newPath: string)
    requires IsUnder(key, oldPath)
    ensures Rekey(Rekey(key, oldPath, newPath), newPath, oldPath) == key
  {
    RekeyMovesSubtree(key, oldPath, newPath);
    var k2 := Rekey(key, oldPath, newPath);
    RekeyMovesSubtree(k2, newPath, oldPath);
    assert k2[|newPath|..] == key[|oldPath|..];
    assert key == oldPath + key[|oldPath|..];
  }

  /** After renaming `oldPath` to `newPath` (neither inside the other, as for
      any real rename or move), no rewritten key is left in the old subtree. */
  lemma RekeyLeavesOldSubtree(key: string, oldPath: string, newPath: string)
    requires IsUnder(key, oldPath)
    requires !IsUnder(newPath, oldPath) && !IsUnder(oldPath, newPath)
    ensures !IsUnder(Rekey(key, oldPath, newPath), oldPath)
  {
    RekeyMovesSubtree(key, oldPath, newPath);
    if key != oldPath {
      assert key[|oldPath|] == key[..|oldPath| + 1][|oldPath|] == '/';
    }
  }

  /** No other key of `m` is rewritten to the key `key` is rewritten to. */
  ghost predicate NoClash<V>(m: map<string, V>, key: string, oldPath: string, newPath: string) {
    forall k2 :: k2 in m && Rekey(k2, oldPath, newPath) == Rekey(key, oldPath, newPath) ==> k2 == key
  }

  /** `processCollection` of `updatePathInAllSettings`: a fresh map with every
      key re-keyed. Entries are visited in an order the model leaves open (a
      JavaScript object's own order), so when two keys land on one key the
      survivor is one of them; without a clash the value is carried over. */
  method RenameUnder<V>(m: map<string, V>, oldPath: string, newPath: string) returns (r: map<string, V>, changed: bool)
    ensures changed <==> exists k :: k in m && IsUnder(k, oldPath)
    ensures r.Keys == set k | k in m :: Rekey(k, oldPath, newPath)
    ensures forall k' :: k' in r ==> exists k :: k in m && Rekey(k, oldPath, newPath) == k' && r[k'] == m[k]
    ensures forall k :: k in m && NoClash(m, k, oldPath, newPath) ==> r[Rekey(k, oldPath, newPath)] == m[k]
  {
    r, changed := map[], false;
    var todo := m.Keys;
    while todo != {}
      invariant todo <= m.Keys
      invariant r.Keys == set k | k in m && k !in todo :: Rekey(k, oldPath, newPath)
      invariant forall k' :: k' in r ==> exists k :: k in m && k !in todo && Rekey(k, oldPath, newPath) == k' && r[k'] == m[k]
      invariant forall k :: k in m && k !in todo && NoClash(m, k, oldPath, newPath) ==> r[Rekey(k, oldPath, newPath)] == m[k]
      invariant changed <==> exists k :: k in m && k !in todo && IsUnder(k, oldPath)
      decreases |todo|
    {
      var k :| k in todo;
      var updated := if IsUnder(k, oldPath) then ReplaceFirst(k, oldPath, newPath) else k;
      r := r[updated := m[k]];
      changed := changed || IsUnder(k, oldPath);
      todo := todo - {k};
    }
  }

  /** The key `updateFolderPathsInSettings` writes, as the code stands: any
      key that merely starts with the old folder path is rewritten, with no
      check for a following slash. */
  function RekeyByPrefix(key: string, oldFolderPath: string, newFolderPath: string): string {
    if StartsWith(key, oldFolderPath) then ReplaceFirst(key, oldFolderPath, newFolderPath) else key
  }

  /** Moving folder `Notes` to `Archive/Notes` also rewrites the entry of the
      sibling folder `Notes2`, which did not move; the boundary-checked
      Rekey leaves it alone. */
  lemma RekeyByPrefixHitsSiblings()
    ensures RekeyByPrefix("Notes2/x.md", "Notes", "Archive/Notes") == "Archive/Notes2/x.md"
    ensures Rekey("Notes2/x.md", "Notes", "Archive/Notes") == "Notes2/x.md"
  {
    ReplaceFirstOfPrefix("Notes2/x.md", "Notes", "Archive/Notes");
    assert !StartsWith("Notes2/x.md", "Notes/") by {
      assert "Notes2/x.md"[5] != "Notes/"[5];
    }
  }

  /** `updatePaths` of `updateFolderPathsInSettings`: a fresh map with keys
      re-keyed by RekeyByPrefix. */
  method RenameByPrefix<V>(m: map<string, V>, oldFolderPath: string, newFolderPath: string) returns (r: map<string, V>)
    ensures r.Keys == set k | k in m :: RekeyByPrefix(k, oldFolderPath, newFolderPath)
    ensures forall k' :: k' in r ==> exists k :: k in m && RekeyByPrefix(k, oldFolderPath, newFolderPath) == k' && r[k'] == m[k]
  {
    r := map[];
    var todo := m.Keys;
    while todo != {}
      invariant todo <= m.Keys
      invariant r.Keys == set k | k in m && k !in todo :: RekeyByPrefix(k, oldFolderPath, newFolderPath)
      invariant forall k' :: k' in r ==> exists k :: k in m && k !in todo && RekeyByPrefix(k, oldFolderPath, newFolderPath) == k' && r[k'] == m[k]
      decreases |todo|
    {
      var k :| k in todo;
      if StartsWith(k, oldFolderPath) {
        r := r[ReplaceFirst(k, oldFolderPath, newFolderPath) := m[k]];
      } else {
        r := r[k := m[k]];
      }
      todo := todo - {k};
    }
  }

  /** The entries of `m` outside the subtree rooted at `p`. */
  function WithoutSubtree<V>(m: map<string, V>, p: string): map<string, V> {
    map k | k in m && !IsUnder(k, p) :: m[k]
  }

  /** `processCollection` of `removePathFromSettings`: deletes, in place,
      every key equal to `p` or below it. */
  method RemoveUnder<V>(m: map<string, V>, p: string) returns (r: map<string, V>, changed: bool)
    ensures r == WithoutSubtree(m, p)
    ensures changed <==> exists k :: k in m && IsUnder(k, p)
  {
    r, changed := m, false;
    var todo := m.Keys;
    while todo != {}
      invariant todo <= m.Keys
      invariant forall k :: k in r <==> k in m && (k in todo || !IsUnder(k, p))
      invariant forall k :: k in r ==> r[k] == m[k]
      invariant changed <==> exists k :: k in m && k !in todo && IsUnder(k, p)
      decreases |todo|
    {
      var k :| k in todo;
      if IsUnder(k, p) {
        r := r - {k};
        changed := true;
      }
      todo := todo - {k};
    }
  }

  /** The entries of `m` whose key names an existing vault path. */
  function Existing<V>(m: map<string, V>, exists_: set<string>): map<string, V> {
    map k | k in m && k in exists_ :: m[k]
  }

  /** `cleanCollection` of `cleanupDeletedPaths`: a fresh map keeping the
      entries whose path still resolves. */
  method CleanCollection<V>(m: map<string, V>, exists_: set<string>) returns (cleaned: map<string, V>, changed: bool)
    ensures cleaned == Existing(m, exists_)
    ensures changed <==> exists k :: k in m && k !in exists_
  {
    cleaned, changed := map[], false;
    var todo := m.Keys;
    while todo != {}
      invariant todo <= m.Keys
      invariant forall k :: k in cleaned <==> k in m && k !in todo && k in exists_
      invariant forall k :: k in cleaned ==> cleaned[k] == m[k]
      invariant changed <==> exists k :: k in m && k !in todo && k !in exists_
      decreases |todo|
    {
      var k :| k in todo;
      if k in exists_ {
        cleaned := cleaned[k := m[k]];
      } else {
        changed := true;
      }
      todo := todo - {k};
    }
  }

  /** `updatePathInSettings` on one map: the value at `oldPath`, if any, is
      written at `newPath` and `oldPath` is then deleted. */
  function MoveKey<V>(m: map<string, V>, oldPath: string, newPath: string): (r: map<string, V>)
    ensures oldPath !in m ==> r == m
    ensures oldPath in m ==> oldPath !in r && r.Keys == (m.Keys - {oldPath}) + (if oldPath != newPath then {newPath} else {})
    ensures oldPath in m && oldPath != newPath ==> r[newPath] == m[oldPath]
    ensures forall k :: k in m && k != oldPath && k != newPath ==> r[k] == m[k]
  {
    if oldPath in m then m[newPath := m[oldPath]] - {oldPath} else m
  }
  /** Two keys outside the destination subtree are never rewritten to the
      same key. */
  lemma RekeyInjective(k1: string, k2: string, oldPath: string, newPath: string)
    requires !IsUnder(k1, newPath) && !IsUnder(k2, newPath)
    requires Rekey(k1, oldPath, newPath) == Rekey(k2, oldPath, newPath)
    ensures k1 == k2
  {
    RekeyMovesSubtree(k1, oldPath, newPath);
    RekeyMovesSubtree(k2, oldPath, newPath);
    if IsUnder(k1, oldPath) && IsUnder(k2, oldPath) {
      assert k1 == oldPath + k1[|oldPath|..];
      assert k2 == oldPath + k2[|oldPath|..];
      var r := Rekey(k1, oldPath, newPath);
      assert k1[|oldPath|..] == r[|newPath|..] == k2[|oldPath|..];
    }
  }

  /** When nothing is stored below the destination yet, no two keys are
      rewritten to the same key, so every value is carried over. */
  lemma NoClashWhenDestinationEmpty<V>(m: map<string, V>, oldPath: string, newPath: string)
    requires forall k :: k in m ==> !IsUnder(k, newPath)
    ensures forall k :: k in m ==> NoClash(m, k, oldPath, newPath)
  {
    forall k1, k2 | k1 in m && k2 in m && Rekey(k2, oldPath, newPath) == Rekey(k1, oldPath, newPath)
      ensures k2 == k1
    {
      RekeyInjective(k1, k2, oldPath, newPath);
    }
  }

  /** Where the prefix test agrees with the boundary test (the key lies in
      the renamed subtree, or does not even start with its path) the folder
      rewrite as written gives the intended key. */
  lemma RekeyByPrefixAgrees(key: string, oldPath: string, newPath: string)
    requires IsUnder(key, oldPath) || !StartsWith(key, oldPath)
    ensures RekeyByPrefix(key, oldPath, newPath) == Rekey(key, oldPath, newPath)
  {
    if IsUnder(key, oldPath) {
      assert key[..|oldPath|] == oldPath;
    }
  }

  /** Deleting a folder's subtree also covers anything deleted for an item
      below it, in either order. */
  lemma RemoveSubsumes<V>(m: map<string, V>, q: string, p: string)
    requires IsUnder(q, p)
    ensures WithoutSubtree(WithoutSubtree(m, q), p) == WithoutSubtree(m, p)
    ensures WithoutSubtree(WithoutSubtree(m, p), q) == WithoutSubtree(m, p)
  {
    forall k | IsUnder(k, q) ensures IsUnder(k, p) {
      IsUnderTransitive(k, q, p);
    }
  }

  /** A clean-up that finds every key alive leaves the map as it is, and a
      second clean-up against the same vault changes nothing. */
  lemma CleanIsIdempotent<V>(m: map<string, V>, exists_: set<string>)
    ensures (forall k :: k in m ==> k in exists_) ==> Existing(m, exists_) == m
    ensures Existing(Existing(m, exists_), exists_) == Existing(m, exists_)
  {
  }

  /** Moving a key away and back restores the map, when the new key was free. */
  lemma MoveKeyRoundTrip<V>(m: map<string, V>, oldPath: string, newPath: string)
    requires oldPath in m && newPath !in m
    ensures MoveKey(MoveKey(m, oldPath, newPath), newPath, oldPath) == m
  {
  }

  /** The array work of `reorderItems`: find the source, filter it out,
      find the target and splice the source back next to it. */
  method SpliceNextTo(siblings: seq<Item>, sourcePath: string, targetPath: string, insertBefore: bool) returns (plan: Option<seq<Item>>)
    ensures plan == Reordered(siblings, sourcePath, targetPath, insertBefore)
  {
    if GetParentPath(sourcePath) != GetParentPath(targetPath) {
      return None;
    }
    var sourceIndex := IndexOfPath(siblings, sourcePath);
    if sourceIndex == -1 {
      return None;
    }
    var reordered := WithoutPath(siblings, sourcePath);
    var targetIndex := IndexOfPath(reordered, targetPath);
    if targetIndex == -1 {
      return None;
    }
    ReorderedAt(siblings, sourcePath, targetPath, insertBefore, sourceIndex, reordered, targetIndex);
    if insertBefore {
      reordered := reordered[..targetIndex] + [siblings[sourceIndex]] + reordered[targetIndex..];
    } else {
      reordered := reordered[..targetIndex + 1] + [siblings[sourceIndex]] + reordered[targetIndex + 1..];
    }
    return Some(reordered);
  }

  /** `reorderedSiblings.forEach((item, index) => newOrder[item.path] = index)` */
  method DenseRanks(s: seq<Item>) returns (newOrder: map<string, int>)
    ensures newOrder == Ranks(s)
  {
    newOrder := map[];
    for index := 0 to |s|
      invariant newOrder == Ranks(s[..index])
    {
      assert s[..index + 1][..index] == s[..index];
      newOrder := newOrder[s[index].path := index];
    }
    assert s[..|s|] == s;
  }

  /** The plugin's settings object (`this.settings`, read by the view as
      `this.plugin.settings`) and the data last handed to `saveData`. */
  class Settings {
    var sortOrder: map<string, int>
    var collapsedFolders: map<string, bool>
    /** What the last `saveData` call wrote (initially what was loaded). */
    var persisted: Snapshot

    /** `onload`: the loaded data, or empty maps when there is none. */
    constructor (loaded: Option<Snapshot>)
      ensures loaded.Some? ==> sortOrder == loaded.value.sortOrder && collapsedFolders == loaded.value.collapsedFolders
      ensures loaded.None? ==> sortOrder == map[] && collapsedFolders == map[]
      ensures persisted == Snapshot(sortOrder, collapsedFolders)
    {
      if loaded.Some? {
        sortOrder := loaded.value.sortOrder;
        collapsedFolders := loaded.value.collapsedFolders;
      } else {
        sortOrder := map[];
        collapsedFolders := map[];
      }
      persisted := Snapshot(sortOrder, collapsedFolders);
    }

    /** `saveData(this.settings)` */
    method Save()
      modifies this`persisted
      ensures persisted == Snapshot(sortOrder, collapsedFolders)
    {
      persisted := Snapshot(sortOrder, collapsedFolders);
    }

    /** `updatePathInSettings`: one exact key moves in both maps, in place,
        and the settings are saved. */
    method UpdatePathInSettings(oldPath: string, newPath: string)
      modifies this
      ensures sortOrder == MoveKey(old(sortOrder), oldPath, newPath)
      ensures collapsedFolders == MoveKey(old(collapsedFolders), oldPath, newPath)
      ensures persisted == Snapshot(sortOrder, collapsedFolders)
    {
      if oldPath in sortOrder {
        sortOrder := sortOrder[newPath := sortOrder[oldPath]];
        sortOrder := sortOrder - {oldPath};
      }
      if oldPath in collapsedFolders {
        collapsedFolders := collapsedFolders[newPath := collapsedFolders[oldPath]];
        collapsedFolders := collapsedFolders - {oldPath};
      }
      Save();
    }

    /** `updateFolderPathsInSettings`: both maps are re-keyed by prefix into
        fresh maps that are only saved; the in-memory settings keep their
        old keys. */
    method UpdateFolderPathsInSettings(oldFolderPath: string, newFolderPath: string)
      modifies this`persisted
      ensures persisted.sortOrder.Keys == set k | k in sortOrder :: RekeyByPrefix(k, oldFolderPath, newFolderPath)
      ensures persisted.collapsedFolders.Keys == set k | k in collapsedFolders :: RekeyByPrefix(k, oldFolderPath, newFolderPath)
      ensures forall k' :: k' in persisted.sortOrder ==>
                exists k :: k in sortOrder && RekeyByPrefix(k, oldFolderPath, newFolderPath) == k' && persisted.sortOrder[k'] == sortOrder[k]
      ensures forall k' :: k' in persisted.collapsedFolders ==>
                exists k :: k in collapsedFolders && RekeyByPrefix(k, oldFolderPath, newFolderPath) == k' && persisted.collapsedFolders[k'] == collapsedFolders[k]
    {
      var updatedOrder := RenameByPrefix(sortOrder, oldFolderPath, newFolderPath);
      var updatedCollapsed := RenameByPrefix(collapsedFolders, oldFolderPath, newFolderPath);
      persisted := Snapshot(updatedOrder, updatedCollapsed);
    }

    /** `cleanupDeletedPaths`: entries whose path no longer resolves are
        dropped from the saved data, and only when there was one; the
        in-memory settings keep them. */
    method CleanupDeletedPaths(exists_: set<string>)
      modifies this`persisted
      ensures var stale := (exists k :: k in sortOrder && k !in exists_) || (exists k :: k in collapsedFolders && k !in exists_);
              persisted == if stale then Snapshot(Existing(sortOrder, exists_), Existing(collapsedFolders, exists_)) else old(persisted)
    {
      var cleanedOrder, changedOrder := CleanCollection(sortOrder, exists_);
      var cleanedCollapsed, changedCollapsed := CleanCollection(collapsedFolders, exists_);
      if changedOrder || changedCollapsed {
        persisted := Snapshot(cleanedOrder, cleanedCollapsed);
      }
    }

    /** `removePathFromSettings` (the vault's delete event): every key equal
        to or below `path` is deleted from both maps; saved only when one was. */
    method RemovePathFromSettings(path: string)
      modifies this
      ensures sortOrder == WithoutSubtree(old(sortOrder), path)
      ensures collapsedFolders == WithoutSubtree(old(collapsedFolders), path)
      ensures var hit := (exists k :: k in old(sortOrder) && IsUnder(k, path)) || (exists k :: k in old(collapsedFolders) && IsUnder(k, path));
              persisted == if hit then Snapshot(sortOrder, collapsedFolders) else old(persisted)
    {
      var changedOrder, changedCollapsed;
      sortOrder, changedOrder := RemoveUnder(sortOrder, path);
      collapsedFolders, changedCollapsed := RemoveUnder(collapsedFolders, path);
      if changedOrder || changedCollapsed {
        Save();
      }
    }

    /** `updatePathInAllSettings` (the vault's rename event): every key equal
        to or below `oldPath` is re-keyed below `newPath` in both maps;
        saved only when one was. */
    method UpdatePathInAllSettings(oldPath: string, newPath: string)
      modifies this
      ensures sortOrder.Keys == set k | k in old(sortOrder) :: Rekey(k, oldPath, newPath)
      ensures collapsedFolders.Keys == set k | k in old(collapsedFolders) :: Rekey(k, oldPath, newPath)
      ensures forall k :: k in old(sortOrder) && NoClash(old(sortOrder), k, oldPath, newPath) ==>
                sortOrder[Rekey(k, oldPath, newPath)] == old(sortOrder)[k]
      ensures forall k :: k in old(collapsedFolders) && NoClash(old(collapsedFolders), k, oldPath, newPath) ==>
                collapsedFolders[Rekey(k, oldPath, newPath)] == old(collapsedFolders)[k]
      ensures var hit := (exists k :: k in old(sortOrder) && IsUnder(k, oldPath)) || (exists k :: k in old(collapsedFolders) && IsUnder(k, oldPath));
              persisted == if hit then Snapshot(sortOrder, collapsedFolders) else old(persisted)
    {
      var changedOrder, changedCollapsed;
      sortOrder, changedOrder := RenameUnder(sortOrder, oldPath, newPath);
      collapsedFolders, changedCollapsed := RenameUnder(collapsedFolders, oldPath, newPath);
      if changedOrder || changedCollapsed {
        Save();
      }
    }

    /** `reorderItems`: `children` are the children of the source's parent
        folder (the root's when there is no such folder). On success the
        reordered group's ranks are merged over `sortOrder` and saved. */
    method ReorderItems(children: seq<Item>, sourcePath: string, targetPath: string, insertBefore: bool)
      modifies this
      ensures collapsedFolders == old(collapsedFolders)
      ensures var plan := Reordered(SortItems(children, old(sortOrder)), sourcePath, targetPath, insertBefore);
              && (plan.None? ==> sortOrder == old(sortOrder) && persisted == old(persisted))
              && (plan.Some? ==> sortOrder == old(sortOrder) + Ranks(plan.value) && persisted == Snapshot(sortOrder, collapsedFolders))
    {
      var siblings := SortItems(children, sortOrder);
      var plan := SpliceNextTo(siblings, sourcePath, targetPath, insertBefore);
      if plan.None? {
        return;
      }
      var newOrder := DenseRanks(plan.value);
      sortOrder := sortOrder + newOrder;
      Save();
    }
  }
}
