/** Fish as its users see it: a map from paths to directories and file contents, and the path of
    the current directory. Leftover bytes do not occur here, and slots only as the handles of
    `fish_save_cwd`. */
module FishSpec {
  import opened CStrings
  import opened FishTree

  const FISH_OK := 0
  const FISH_ERR_EXISTS := -1
  const FISH_ERR_NOTDIR := -2
  const FISH_ERR_NOENT := -3
  const FISH_ERR_FULL := -4
  const FISH_ERR_NAME := -5
  const FISH_ERR_ISDIR := -6
  const FISH_ERR_NOTEMPTY := -7
  const FISH_ERR_SPACE := -8
  const FISH_ERR_NODISK := -9
  const FISH_ERR_IO := -10
  const FISH_ERR_FORMAT := -11

  datatype Fs = Fs(tree: map<Path, Entry>, cwd: Path)

  /** The filesystem after a call, and what the call returned. */
  datatype Outcome = Outcome(fs: Fs, code: int)

  const EMPTY := Fs(map[[] := Directory], [])

  /** `fish_mkdir` and `fish_create`. */
  ghost function Make(fs: Fs, name: Text, entry: Entry): Outcome {
    var p := fs.cwd + [name];
    if !ValidName(name) then Outcome(fs, FISH_ERR_NAME)
    else if p in fs.tree then Outcome(fs, FISH_ERR_EXISTS)
    else if |fs.tree| >= FISH_MAX_NODES then Outcome(fs, FISH_ERR_FULL)
    else Outcome(fs.(tree := fs.tree[p := entry]), FISH_OK)
  }

  ghost function Chdir(fs: Fs, name: Text): Outcome {
    var p := fs.cwd + [name];
    if name == [] then Outcome(fs, FISH_ERR_NOENT)
    else if name == [SLASH] then Outcome(fs.(cwd := []), FISH_OK)
    else if name == [DOT] then Outcome(fs, FISH_OK)
    else if name == [DOT, DOT] then Outcome(fs.(cwd := if fs.cwd == [] then [] else fs.cwd[..|fs.cwd| - 1]), FISH_OK)
    else if p !in fs.tree then Outcome(fs, FISH_ERR_NOENT)
    else if fs.tree[p].File? then Outcome(fs, FISH_ERR_NOTDIR)
    else Outcome(fs.(cwd := p), FISH_OK)
  }

  ghost function Remove(fs: Fs, name: Text): Outcome {
    var p := fs.cwd + [name];
    if p !in fs.tree then Outcome(fs, FISH_ERR_NOENT)
    else if fs.tree[p].Directory? && exists below: Text :: p + [below] in fs.tree then Outcome(fs, FISH_ERR_NOTEMPTY)
    else Outcome(fs.(tree := fs.tree - {p}), FISH_OK)
  }

  ghost function Write(fs: Fs, name: Text, text: Text): Outcome {
    var p := fs.cwd + [name];
    if p !in fs.tree then Outcome(fs, FISH_ERR_NOENT)
    else if fs.tree[p].Directory? then Outcome(fs, FISH_ERR_ISDIR)
    else if |text| > FISH_FILE_MAX then Outcome(fs, FISH_ERR_SPACE)
    else Outcome(fs.(tree := fs.tree[p := File(text)]), FISH_OK)
  }

  ghost function Append(fs: Fs, name: Text, text: Text): Outcome {
    var p := fs.cwd + [name];
    if p !in fs.tree then Outcome(fs, FISH_ERR_NOENT)
    else if fs.tree[p].Directory? then Outcome(fs, FISH_ERR_ISDIR)
    else if |fs.tree[p].bytes| + |text| > FISH_FILE_MAX then Outcome(fs, FISH_ERR_SPACE)
    else Outcome(fs.(tree := fs.tree[p := File(fs.tree[p].bytes + text)]), FISH_OK)
  }

  // ---------------------------------------------------------------------------
  // Handles
  // ---------------------------------------------------------------------------

  /** The first number from `k` on that is not the number of a used slot. */
  ghost function FreeFrom(where: Places, k: nat): (i: nat)
    ensures k <= i && i !in where && forall j | k <= j < i :: j in where
    decreases set i | i in where && k <= i
  {
    if k !in where then k else
      assert (set i | i in where && k + 1 <= i) == (set i | i in where && k <= i) - {k};
      FreeFrom(where, k + 1)
  }

  /** The slots after a call of `fish_mkdir` or `fish_create` that returned `code`. */
  ghost function Occupy(where: Places, fs: Fs, name: Text, code: int): Places {
    if code == FISH_OK then where[FreeFrom(where, 1) := fs.cwd + [name]] else where
  }

  /** The slots after a call of `fish_remove` that returned `code`. */
  ghost function Vacate(where: Places, fs: Fs, name: Text, code: int): Places {
    if code == FISH_OK then map i | i in where && where[i] != fs.cwd + [name] :: where[i] else where
  }

  /** The handle of a path that is in some slot. */
  ghost function SlotHolding(where: Places, p: Path): (i: int)
    ensures (exists k :: k in where && where[k] == p) ==> i in where && where[i] == p
  {
    if exists k :: k in where && where[k] == p then var i :| i in where && where[i] == p; i else 0
  }

  /** Where `fish_restore_cwd` goes: to the directory that is in the slot now, whichever that is. */
  ghost function Landing(tree: map<Path, Entry>, where: Places, handle: int): Path {
    if handle in where && where[handle] in tree && tree[where[handle]].Directory? then where[handle] else []
  }

  /** Whether `fish_read` finds a file, and its bytes. */
  ghost predicate Readable(fs: Fs, name: Text) {
    var p := fs.cwd + [name];
    p in fs.tree && fs.tree[p].File?
  }
}
