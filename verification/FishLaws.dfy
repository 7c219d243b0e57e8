/** What several calls of Fish do together, in terms of names and bytes alone. */
module FishLaws {
  import opened Bytes
  import opened CStrings
  import opened FishTree
  import opened FishSpec
  import opened Fish

  /** Of a tree, one path has changed at most. */
  ghost predicate OnlyAt(was: map<Path, Entry>, now: map<Path, Entry>, p: Path) {
    forall q | q != p :: (q in now <==> q in was) && (q in now ==> now[q] == was[q])
  }

  // ---------------------------------------------------------------------------
  // Files
  // ---------------------------------------------------------------------------

  /** Writing replaces the contents, appending puts the new bytes behind them, and reading gives both back in
      that order. */
  method WriteAppendRead(fish: FishFs, name: Text, s: Text, t: Text) returns (found: bool, data: seq<Byte>, size: nat)
    requires fish.Valid() && |s| + |t| <= 512
    requires var p := fish.Abs().cwd + [name]; p in fish.Abs().tree && fish.Abs().tree[p].File?
    modifies fish.nodes
    ensures fish.Valid() && found && size == |s| + |t| <= |data| && data[..size] == s + t
    ensures fish.Abs().cwd == old(fish.Abs()).cwd
    ensures OnlyAt(old(fish.Abs()).tree, fish.Abs().tree, old(fish.Abs()).cwd + [name])
  {
    hide IsTree, View, PathOf, PlacesOf;
    var r := fish.FishWrite(name, s);
    r := fish.FishAppend(name, t);
    found, data, size := fish.FishRead(name);
    assert |data[..size]| == |s + t|;
  }

  /** A file that was just made is found and is empty, whatever the slot held before. */
  method CreateRead(fish: FishFs, name: Text) returns (r: int, found: bool, data: seq<Byte>, size: nat)
    requires fish.Valid() && ValidName(name)
    requires fish.Abs().cwd + [name] !in fish.Abs().tree && |fish.Abs().tree| < 64
    modifies fish.nodes
    ensures fish.Valid() && r == 0 && found && size == 0
    ensures OnlyAt(old(fish.Abs()).tree, fish.Abs().tree, old(fish.Abs()).cwd + [name])
  {
    hide IsTree, View, PathOf, PlacesOf, ValidName;
    r := fish.FishCreate(name);
    found, data, size := fish.FishRead(name);
    assert |data[..size]| == 0;
  }

  /** Any file can be removed, and then it is not found any more. */
  method RemoveRead(fish: FishFs, name: Text) returns (r: int, found: bool)
    requires fish.Valid()
    requires var p := fish.Abs().cwd + [name]; p in fish.Abs().tree && fish.Abs().tree[p].File?
    modifies fish.nodes
    ensures fish.Valid() && r == 0 && !found && fish.Abs().cwd + [name] !in fish.Abs().tree
    ensures OnlyAt(old(fish.Abs()).tree, fish.Abs().tree, old(fish.Abs()).cwd + [name])
  {
    hide IsTree, View, PathOf, PlacesOf;
    r := fish.FishRemove(name);
    var data, size;
    found, data, size := fish.FishRead(name);
  }

  // ---------------------------------------------------------------------------
  // Directories
  // ---------------------------------------------------------------------------

  /** Entering a directory that was just made and leaving it by ".." leads back, from any depth. */
  method MakeEnterLeave(fish: FishFs, name: Text) returns (made: int, entered: int, left: int, ghost inside: Path)
    requires fish.Valid() && ValidName(name)
    requires fish.Abs().cwd + [name] !in fish.Abs().tree && |fish.Abs().tree| < 64
    modifies fish`current, fish.nodes
    ensures fish.Valid() && made == 0 && entered == 0 && left == 0
    ensures inside == old(fish.Abs()).cwd + [name] && fish.Abs().cwd == old(fish.Abs()).cwd
    ensures inside in fish.Abs().tree && fish.Abs().tree[inside].Directory?
    ensures OnlyAt(old(fish.Abs()).tree, fish.Abs().tree, inside)
  {
    hide IsTree, View, PathOf, PlacesOf;
    NamesAreNotNavigation(name);
    hide ValidName;
    ghost var cwd := fish.Abs().cwd;
    made := fish.FishMkdir(name);
    entered := fish.FishChdir(name);
    inside := fish.Abs().cwd;
    left := fish.FishChdir([46, 46]);
    assert (cwd + [name])[..|cwd|] == cwd;
  }

  lemma NamesAreNotNavigation(name: Text)
    requires ValidName(name)
    ensures name != [] && name != [46] && name != [46, 46] && name != [47]
  {
    assert NameByte(name[0]);
  }

  /** An empty directory can be removed, and a directory with an entry cannot; then nothing changes. */
  method RemoveDirectory(fish: FishFs, name: Text) returns (r: int)
    requires fish.Valid()
    requires var p := fish.Abs().cwd + [name]; p in fish.Abs().tree && fish.Abs().tree[p].Directory?
    modifies fish.nodes
    ensures fish.Valid()
    ensures var p, was := old(fish.Abs()).cwd + [name], old(fish.Abs()).tree;
            if exists below: Text :: p + [below] in was then r == -7 && fish.Abs().tree == was
            else r == 0 && p !in fish.Abs().tree && OnlyAt(was, fish.Abs().tree, p)
  {
    hide IsTree, View, PathOf, PlacesOf;
    r := fish.FishRemove(name);
  }

  /** Up from a directory is one step, and the root has no way up. "." stays and "/" goes to the root. */
  lemma Navigation(fs: Fs)
    ensures Chdir(fs, [46, 46]).code == 0 && Chdir(fs, [46]).code == 0 && Chdir(fs, [47]).code == 0
    ensures fs.cwd != [] ==> exists name: Text :: fs.cwd == Chdir(fs, [46, 46]).fs.cwd + [name]
    ensures fs.cwd == [] ==> Chdir(fs, [46, 46]).fs.cwd == []
    ensures Chdir(fs, [46]).fs.cwd == fs.cwd && Chdir(fs, [47]).fs.cwd == []
    ensures Chdir(fs, [46, 46]).fs.tree == Chdir(fs, [46]).fs.tree == Chdir(fs, [47]).fs.tree == fs.tree
  {
    if fs.cwd != [] {
      var n := |fs.cwd| - 1;
      assert fs.cwd == fs.cwd[..n] + [fs.cwd[n]];
    }
  }

  // ---------------------------------------------------------------------------
  // Results
  // ---------------------------------------------------------------------------

  /** A call that does not succeed changes nothing. */
  lemma FailureChangesNothing(fs: Fs, name: Text, text: Text, entry: Entry)
    ensures Make(fs, name, entry).code != 0 ==> Make(fs, name, entry).fs == fs
    ensures Chdir(fs, name).code != 0 ==> Chdir(fs, name).fs == fs
    ensures Remove(fs, name).code != 0 ==> Remove(fs, name).fs == fs
    ensures Write(fs, name, text).code != 0 ==> Write(fs, name, text).fs == fs
    ensures Append(fs, name, text).code != 0 ==> Append(fs, name, text).fs == fs
  {
  }

  /** No call changes any other path than the one it names. */
  lemma OtherPathsStay(fs: Fs, name: Text, text: Text, entry: Entry, q: Path)
    requires q != fs.cwd + [name]
    ensures forall out | out in {Make(fs, name, entry).fs, Remove(fs, name).fs, Write(fs, name, text).fs,
                                 Append(fs, name, text).fs, Chdir(fs, name).fs} ::
              (q in out.tree <==> q in fs.tree) && (q in out.tree ==> out.tree[q] == fs.tree[q])
  {
  }

  /** Exactly which calls succeed. */
  lemma SuccessExactly(fs: Fs, name: Text, text: Text, entry: Entry)
    ensures var p := fs.cwd + [name];
            && (Make(fs, name, entry).code == 0 <==> ValidName(name) && p !in fs.tree && |fs.tree| < 64)
            && (Remove(fs, name).code == 0 <==>
                  p in fs.tree && (fs.tree[p].File? || forall below: Text :: p + [below] !in fs.tree))
            && (Write(fs, name, text).code == 0 <==> p in fs.tree && fs.tree[p].File? && |text| <= 512)
            && (Append(fs, name, text).code == 0 <==>
                  p in fs.tree && fs.tree[p].File? && |fs.tree[p].bytes| + |text| <= 512)
            && (ValidName(name) ==> (Chdir(fs, name).code == 0 <==> p in fs.tree && fs.tree[p].Directory?))
  {
    if ValidName(name) { NamesAreNotNavigation(name); }
  }

  /** Which error is reported, with the numbers of include/fish.h. */
  lemma Errors(fs: Fs, name: Text, text: Text, entry: Entry)
    ensures var p := fs.cwd + [name];
            && (!ValidName(name) <==> Make(fs, name, entry).code == -5)
            && (ValidName(name) && p in fs.tree <==> Make(fs, name, entry).code == -1)
            && (ValidName(name) && p !in fs.tree && |fs.tree| >= 64 <==> Make(fs, name, entry).code == -4)
            && (p !in fs.tree ==>
                  Remove(fs, name).code == Write(fs, name, text).code == Append(fs, name, text).code == -3)
            && (ValidName(name) && p !in fs.tree ==> Chdir(fs, name).code == -3)
            && (ValidName(name) && p in fs.tree && fs.tree[p].File? ==> Chdir(fs, name).code == -2)
            && (p in fs.tree && fs.tree[p].Directory? ==>
                  && Write(fs, name, text).code == Append(fs, name, text).code == -6
                  && (Remove(fs, name).code == 0 || Remove(fs, name).code == -7))
            && (p in fs.tree && fs.tree[p].File? ==>
                  && (|text| > 512 <==> Write(fs, name, text).code == -8)
                  && (|fs.tree[p].bytes| + |text| > 512 <==> Append(fs, name, text).code == -8))
  {
    if ValidName(name) { NamesAreNotNavigation(name); }
  }
}
