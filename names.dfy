/** The loops that pick a free name for a new base file, a duplicated file
    and a new folder, probing the vault's existing paths. */
module UniqueNames {
  import opened Strings
  import opened Paths

  /** A probe whose path holds the decimal digits of a counter beyond
      10^(longest existing path) cannot hit an existing path: every probing
      loop below stops. */
  lemma NumberedAbsent(vault: set<string>, x: string, n: nat)
    requires |x| >= |DecimalString(n)|
    ensures n >= Pow10(MaxLength(vault)) ==> x !in vault
  {
    if n >= Pow10(MaxLength(vault)) {
      DecimalStringLength(n, MaxLength(vault));
    }
  }

  // ---- New base file ----

  /** `Untitled`, then `Untitled 1`, `Untitled 2`, ... */
  function BaseFileName(counter: nat): string {
    if counter == 0 then "Untitled" else "Untitled " + DecimalString(counter)
  }

  /** The probed path: the name alone at the vault root, otherwise under the folder. */
  function BaseFilePath(folderPath: string, isRoot: bool, counter: nat): string {
    if isRoot then BaseFileName(counter) + ".base" else folderPath + "/" + BaseFileName(counter) + ".base"
  }

  /** The path `createNewBaseFile` creates: the first candidate, in counter
      order, that is not an existing path. */
  method NewBaseFilePath(vault: set<string>, folderPath: string, isRoot: bool) returns (filePath: string, counter: nat)
    ensures filePath == BaseFilePath(folderPath, isRoot, counter) && filePath !in vault
    ensures forall k :: 0 <= k < counter ==> BaseFilePath(folderPath, isRoot, k) in vault
  {
    ghost var bound := Pow10(MaxLength(vault)) + 1;
    var baseName := "Untitled";
    filePath := if isRoot then baseName + ".base" else folderPath + "/" + baseName + ".base";
    counter := 0;
    while filePath in vault
      invariant counter <= bound
      invariant filePath == BaseFilePath(folderPath, isRoot, counter)
      invariant forall k :: 0 <= k < counter ==> BaseFilePath(folderPath, isRoot, k) in vault
      decreases bound - counter
    {
      NumberedAbsent(vault, filePath, counter);
      ghost var probed := counter;
      counter := counter + 1;
      forall k | 0 <= k < counter ensures BaseFilePath(folderPath, isRoot, k) in vault {
        if k == probed {
          assert BaseFilePath(folderPath, isRoot, probed) in vault;
        }
      }
      baseName := "Untitled " + DecimalString(counter);
      filePath := if isRoot then baseName + ".base" else folderPath + "/" + baseName + ".base";
    }
  }

  // ---- Duplicate ----

  /** `base copy.ext`, then `base copy 2.ext`, `base copy 3.ext`, ... */
  function CopyName(baseName: string, extension: string, counter: nat): string {
    if counter <= 1 then baseName + " copy." + extension
    else baseName + " copy " + DecimalString(counter) + "." + extension
  }

  /** The Duplicate command as written: it probes `dir + "/" + name` even
      when `dir` is the root's empty path, and then creates the name under
      `dir` (alone at the root). */
  method DuplicatePathAsWritten(vault: set<string>, dir: string, baseName: string, extension: string)
    returns (newPath: string, counter: nat)
    ensures 1 <= counter
    ensures dir + "/" + CopyName(baseName, extension, counter) !in vault
    ensures forall k :: 1 <= k < counter ==> dir + "/" + CopyName(baseName, extension, k) in vault
    ensures newPath == ChildPath(dir, CopyName(baseName, extension, counter))
  {
    ghost var bound := Pow10(MaxLength(vault)) + 1;
    var copyName := baseName + " copy." + extension;
    counter := 1;
    while dir + "/" + copyName in vault
      invariant 1 <= counter <= bound
      invariant copyName == CopyName(baseName, extension, counter)
      invariant forall k :: 1 <= k < counter ==> dir + "/" + CopyName(baseName, extension, k) in vault
      decreases bound - counter
    {
      NumberedAbsent(vault, dir + "/" + copyName, counter);
      ghost var probed := counter;
      counter := counter + 1;
      forall k | 1 <= k < counter ensures dir + "/" + CopyName(baseName, extension, k) in vault {
        if k == probed {
          assert dir + "/" + CopyName(baseName, extension, probed) in vault;
        }
      }
      copyName := baseName + " copy " + DecimalString(counter) + "." + extension;
    }
    newPath := if dir != "" then dir + "/" + copyName else copyName;
  }

  /** At the vault root, where no path starts with `/`, the probe never
      hits: the first name is chosen even when a file of that name exists,
      and the create targets an existing path. */
  lemma RootCopyMayCollide(vault: set<string>, baseName: string, extension: string, newPath: string, counter: nat)
    requires forall p :: p in vault ==> !StartsWith(p, "/")
    requires baseName + " copy." + extension in vault
    requires 1 <= counter
    requires "" + "/" + CopyName(baseName, extension, counter) !in vault
    requires forall k :: 1 <= k < counter ==> "" + "/" + CopyName(baseName, extension, k) in vault
    requires newPath == ChildPath("", CopyName(baseName, extension, counter))
    ensures counter == 1 && newPath in vault
  {
    var probe := "" + "/" + CopyName(baseName, extension, 1);
    assert StartsWith(probe, "/");
  }

  /** The Duplicate command probing the path it will create: the copy's
      path is the first candidate that is not an existing path, at the root
      as in any folder. */
  method DuplicatePath(vault: set<string>, dir: string, baseName: string, extension: string)
    returns (newPath: string, counter: nat)
    ensures 1 <= counter
    ensures newPath == ChildPath(dir, CopyName(baseName, extension, counter)) && newPath !in vault
    ensures forall k :: 1 <= k < counter ==> ChildPath(dir, CopyName(baseName, extension, k)) in vault
  {
    ghost var bound := Pow10(MaxLength(vault)) + 1;
    var copyName := baseName + " copy." + extension;
    counter := 1;
    newPath := if dir != "" then dir + "/" + copyName else copyName;
    while newPath in vault
      invariant 1 <= counter <= bound
      invariant copyName == CopyName(baseName, extension, counter)
      invariant newPath == ChildPath(dir, copyName)
      invariant forall k :: 1 <= k < counter ==> ChildPath(dir, CopyName(baseName, extension, k)) in vault
      decreases bound - counter
    {
      NumberedAbsent(vault, newPath, counter);
      ghost var probed := counter;
      counter := counter + 1;
      forall k | 1 <= k < counter ensures ChildPath(dir, CopyName(baseName, extension, k)) in vault {
        if k == probed {
          assert ChildPath(dir, CopyName(baseName, extension, probed)) in vault;
        }
      }
      copyName := baseName + " copy " + DecimalString(counter) + "." + extension;
      newPath := if dir != "" then dir + "/" + copyName else copyName;
    }
  }

  // ---- New folder ----

  /** The number of decimal digits that end `s`. */
  function TrailingDigits(s: string): (n: nat)
    ensures n <= |s|
    ensures forall j :: |s| - n <= j < |s| ==> IsDigit(s[j])
    ensures n < |s| ==> !IsDigit(s[|s| - n - 1])
  {
    if |s| > 0 && IsDigit(s[|s| - 1]) then TrailingDigits(s[..|s| - 1]) + 1 else 0
  }

  /** `s` ends in a white-space character at `k` followed by one or more
      digits: where `/\s\d+$/` matches. */
  predicate NumberSuffixAt(s: string, k: int) {
    0 <= k < |s| - 1 && IsWhiteSpace(s[k]) && forall j :: k < j < |s| ==> IsDigit(s[j])
  }

  /** `s.replace(/\s\d+$/, replacement)` */
  function ReplaceTrailingNumber(s: string, replacement: string): (r: string)
    ensures forall k :: NumberSuffixAt(s, k) ==> r == s[..k] + replacement
    ensures (forall k :: !NumberSuffixAt(s, k)) ==> r == s
  {
    var n := TrailingDigits(s);
    if 0 < n < |s| && IsWhiteSpace(s[|s| - n - 1]) then
      assert NumberSuffixAt(s, |s| - n - 1);
      s[..|s| - n - 1] + replacement
    else
      s
  }

  /** The name a new folder starts from: the trimmed answer, or `New Folder`. */
  function FolderBaseName(answer: string): (base: string)
    ensures base != ""
  {
    if Trim(answer) == "" then "New Folder" else Trim(answer)
  }

  /** The `counter`-th folder name probed: the base itself, then the base
      with its trailing number replaced by the counter when the base ends
      in the previous counter, and the base with the counter appended
      otherwise. */
  function FolderCandidate(base: string, counter: nat): string {
    if counter <= 1 then base
    else
      var suffix := " " + DecimalString(counter);
      if EndsWith(base, DecimalString(counter - 1)) then ReplaceTrailingNumber(base, suffix)
      else base + suffix
  }

  /** Once the previous counter has more digits than the base, the counter
      is appended, so the candidate carries all its digits. */
  lemma LateCandidate(base: string, counter: nat, k: nat)
    requires 2 <= counter && counter - 1 >= Pow10(|base|) && counter >= Pow10(k)
    ensures |FolderCandidate(base, counter)| > k
  {
    DecimalStringLength(counter - 1, |base|);
    DecimalStringLength(counter, k);
  }

  lemma FolderProbeBound(vault: set<string>, parentPath: string, base: string, counter: nat)
    requires 1 <= counter
    ensures ChildPath(parentPath, FolderCandidate(base, counter)) in vault ==>
              counter <= Pow10(MaxLength(vault)) + Pow10(|base|)
  {
    var m := MaxLength(vault);
    if counter > Pow10(m) + Pow10(|base|) {
      var c := FolderCandidate(base, counter);
      LateCandidate(base, counter, m);
      assert |ChildPath(parentPath, c)| >= |c|;
    }
  }

  /** The path the new-folder command creates under `parentPath`, given the
      prompt's answer (`None` when it was cancelled): nothing for a cancelled
      prompt or an empty answer, otherwise the first candidate, in counter
      order, that is not an existing path. */
  method NewFolderPath(vault: set<string>, parentPath: string, answer: Option<string>)
    returns (destPath: Option<string>, counter: nat)
    ensures destPath.None? <==> answer.None? || answer.value == ""
    ensures destPath.Some? ==>
              && 1 <= counter
              && destPath.value == ChildPath(parentPath, FolderCandidate(FolderBaseName(answer.value), counter))
              && destPath.value !in vault
              && forall k :: 1 <= k < counter ==> ChildPath(parentPath, FolderCandidate(FolderBaseName(answer.value), k)) in vault
  {
    if answer.None? || answer.value == "" {
      return None, 0;
    }
    var base := FolderBaseName(answer.value);
    ghost var bound := Pow10(MaxLength(vault)) + Pow10(|base|) + 1;
    var newName := base;
    var path := if parentPath != "" then parentPath + "/" + newName else newName;
    counter := 1;
    while path in vault
      invariant 1 <= counter <= bound
      invariant path == ChildPath(parentPath, FolderCandidate(base, counter))
      invariant forall k :: 1 <= k < counter ==> ChildPath(parentPath, FolderCandidate(base, k)) in vault
      decreases bound - counter
    {
      FolderProbeBound(vault, parentPath, base, counter);
      ghost var probed := counter;
      counter := counter + 1;
      var suffix := " " + DecimalString(counter);
      newName := if EndsWith(base, DecimalString(counter - 1)) then ReplaceTrailingNumber(base, suffix) else base + suffix;
      forall k | 1 <= k < counter ensures ChildPath(parentPath, FolderCandidate(base, k)) in vault {
        if k == probed {
          assert ChildPath(parentPath, FolderCandidate(base, probed)) in vault;
        }
      }
      path := if parentPath != "" then parentPath + "/" + newName else newName;
    }
    destPath := Some(path);
  }

  /** The number is taken from the base each time, not from the last
      candidate: from `Notes 1` the probes run `Notes 1`, `Notes 2`,
      `Notes 1 3`, `Notes 1 4`, ... */
  lemma NumberedBaseCandidates(stem: string)
    ensures FolderCandidate(stem + " 1", 2) == stem + " 2"
    ensures FolderCandidate(stem + " 1", 3) == stem + " 1 3"
  {
    var base := stem + " 1";
    assert DecimalString(1) == "1" && DecimalString(2) == "2" && DecimalString(3) == "3";
    assert EndsWith(base, "1");
    assert base[|base| - 1] == '1';
    assert !EndsWith(base, "2");
    assert TrailingDigits(base[..|base| - 1]) == 0;
    assert TrailingDigits(base) == 1;
    assert base[..|base| - 2] == stem;
  }
}
