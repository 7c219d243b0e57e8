/** Full path names: how `fish_path` spells them, why no two directories share one, and why
    following one with `fish_chdir` leads back to the directory it names. */
module FishPaths {
  import opened Bytes
  import opened CStrings
  import opened FishTree
  import opened FishSteps
  import opened FishSpec

  // ---------------------------------------------------------------------------
  // Spelling
  // ---------------------------------------------------------------------------

  /** Every name behind a slash of its own. */
  ghost function Joined(p: Path): seq<Byte> {
    if p == [] then [] else [SLASH] + p[0] + Joined(p[1..])
  }

  ghost function PathString(p: Path): seq<Byte> {
    if p == [] then [SLASH] else Joined(p)
  }

  /** The root is spelled "/", and every further name comes behind a slash. */
  lemma PathStringStep(p: Path, name: Text)
    ensures PathString([]) == [47] && PathString([name]) == [47] + name
    ensures p != [] ==> PathString(p + [name]) == PathString(p) + [47] + name
  {
    assert [] + [name] == [name];
    JoinedMore([], name);
    JoinedMore(p, name);
  }

  lemma {:induction false} JoinedMore(p: Path, name: Text)
    ensures Joined(p + [name]) == Joined(p) + [47] + name
  {
    if p == [] {
      assert [] + [name] == [name] && [name][1..] == [];
    } else {
      JoinedMore(p[1..], name);
      assert (p + [name])[1..] == p[1..] + [name];
    }
  }

  /** The bytes in front of the first slash. */
  function Segment(s: seq<Byte>): (r: seq<Byte>)
    ensures |r| <= |s|
  {
    if s == [] || s[0] == SLASH then [] else [s[0]] + Segment(s[1..])
  }

  /** Cuts a path name at its slashes. */
  function Components(s: seq<Byte>): seq<seq<Byte>>
    decreases |s|
  {
    if |s| <= 1 then [] else
      var name := Segment(s[1..]);
      [name] + Components(s[1 + |name|..])
  }

  ghost predicate ValidPath(p: Path) {
    forall k | 0 <= k < |p| :: ValidName(p[k])
  }

  lemma {:induction false} SegmentOf(name: seq<Byte>, rest: seq<Byte>)
    requires SLASH !in name && (rest == [] || rest[0] == SLASH)
    ensures Segment(name + rest) == name
  {
    if name == [] {
      assert name + rest == rest;
    } else {
      SegmentOf(name[1..], rest);
      assert (name + rest)[1..] == name[1..] + rest;
    }
  }

  /** Cutting the spelling of a path gives the path back. */
  lemma {:induction false} ComponentsOfPathString(p: Path)
    requires ValidPath(p)
    ensures Components(PathString(p)) == p
    decreases |p|
  {
    hide ValidName, Segment;
    if p != [] {
      var rest := Joined(p[1..]);
      var s := [SLASH] + p[0] + rest;
      assert ValidName(p[0]) && s[1..] == p[0] + rest && s[1 + |p[0]|..] == rest;
      NoSlash(p[0]);
      SegmentOf(p[0], rest);
      assert ValidPath(p[1..]);
      if |p| > 1 { ComponentsOfPathString(p[1..]); }
      assert Components(s) == [p[0]] + Components(rest);
    }
  }

  lemma NoSlash(name: Text)
    requires ValidName(name)
    ensures name != [] && SLASH !in name && name != [SLASH]
  {
    assert forall k | 0 <= k < |name| :: NameByte(name[k]);
    assert name[0] in name;
  }

  /** Distinct paths are spelled differently. */
  lemma PathStringInjective(p: Path, q: Path)
    requires ValidPath(p) && ValidPath(q) && PathString(p) == PathString(q)
    ensures p == q
  {
    ComponentsOfPathString(p);
    ComponentsOfPathString(q);
  }

  lemma {:induction false} PathValid(ns: seq<Node>, i: int)
    requires IsTree(ns) && 0 <= i < |ns| && ns[i].Used()
    ensures ValidPath(PathOf(ns, i))
    decreases Rank(ns)[i]
  {
    if i != 0 {
      assert Inner(ns, i);
      PathValid(ns, ns[i].parent);
    }
  }

  /** No two nodes of a tree have the same full path name. */
  lemma NamesDistinguishNodes(ns: seq<Node>, i: int, j: int)
    requires IsTree(ns) && 0 <= i < |ns| && ns[i].Used() && 0 <= j < |ns| && ns[j].Used()
    requires PathString(PathOf(ns, i)) == PathString(PathOf(ns, j))
    ensures i == j
  {
    PathValid(ns, i);
    PathValid(ns, j);
    PathStringInjective(PathOf(ns, i), PathOf(ns, j));
    PathInjective(ns, i, j);
  }

  // ---------------------------------------------------------------------------
  // Depth
  // ---------------------------------------------------------------------------

  /** Node `i` and everything above it. */
  ghost function Ancestors(ns: seq<Node>, i: int): set<int>
    requires IsTree(ns) && 0 <= i < |ns| && ns[i].Used()
    decreases Rank(ns)[i]
  {
    if i == 0 then {0} else
      assert Inner(ns, i);
      Ancestors(ns, ns[i].parent) + {i}
  }

  lemma {:induction false} AncestorCount(ns: seq<Node>, i: int)
    requires IsTree(ns) && 0 <= i < |ns| && ns[i].Used()
    ensures Ancestors(ns, i) <= UsedSlots(ns)
    ensures forall k | k in Ancestors(ns, i) :: Rank(ns)[k] <= Rank(ns)[i]
    ensures |Ancestors(ns, i)| == |PathOf(ns, i)| + 1
    decreases Rank(ns)[i]
  {
    if i != 0 {
      assert Inner(ns, i);
      AncestorCount(ns, ns[i].parent);
      assert i !in Ancestors(ns, ns[i].parent);
    }
  }

  /** A chain of 64 slots that never meets itself is shorter than 64 steps. */
  lemma PathShort(ns: seq<Node>, i: int)
    requires IsTree(ns) && 0 <= i < |ns| && ns[i].Used()
    ensures |PathOf(ns, i)| < FISH_MAX_NODES
  {
    AncestorCount(ns, i);
    Subset(Ancestors(ns, i), UsedSlots(ns));
    SlotCount(ns);
  }

  // ---------------------------------------------------------------------------
  // Navigation
  // ---------------------------------------------------------------------------

  /** What every reachable filesystem satisfies, slots left aside. */
  ghost predicate Rooted(fs: Fs) {
    && [] in fs.tree && fs.tree[[]].Directory?
    && (forall p | p in fs.tree && p != [] ::
          && ValidName(p[|p| - 1])
          && p[..|p| - 1] in fs.tree && fs.tree[p[..|p| - 1]].Directory?)
    && fs.cwd in fs.tree && fs.tree[fs.cwd].Directory?
    && |fs.tree| <= FISH_MAX_NODES
    && forall p | p in fs.tree && fs.tree[p].File? :: |fs.tree[p].bytes| <= FISH_FILE_MAX
  }

  lemma TreeRooted(ns: seq<Node>, cur: int)
    requires IsTree(ns) && Folder(ns, cur)
    ensures Rooted(Fs(View(ns), PathOf(ns, cur)))
  {
    var fs := Fs(View(ns), PathOf(ns, cur));
    ViewAt(ns, 0);
    ViewAt(ns, cur);
    FullExactly(ns);
    forall p | p in fs.tree
      ensures p != [] ==> && ValidName(p[|p| - 1])
                          && p[..|p| - 1] in fs.tree && fs.tree[p[..|p| - 1]].Directory?
      ensures fs.tree[p].File? ==> |fs.tree[p].bytes| <= FISH_FILE_MAX
    {
      RootedAt(ns, SlotAt(ns, p));
    }
  }

  lemma RootedAt(ns: seq<Node>, i: int)
    requires IsTree(ns) && 0 <= i < |ns| && ns[i].Used()
    ensures var p := PathOf(ns, i);
            && (p != [] ==> && ValidName(p[|p| - 1])
                            && p[..|p| - 1] in View(ns) && View(ns)[p[..|p| - 1]].Directory?)
            && p in View(ns) && (View(ns)[p].File? ==> |View(ns)[p].bytes| <= FISH_FILE_MAX)
  {
    hide View, Siblings, ValidName;
    ViewAt(ns, i);
    if i != 0 {
      assert Inner(ns, i) && Attached(ns, i);
      ViewAt(ns, ns[i].parent);
      var q := PathOf(ns, ns[i].parent);
      assert PathOf(ns, i)[..|q|] == q;
    }
  }

  /** `fish_chdir` on each name in turn, for as long as none fails. */
  ghost function Follow(fs: Fs, p: Path): Outcome
    decreases |p|
  {
    if p == [] then Outcome(fs, FISH_OK) else
      var step := Chdir(fs, p[0]);
      if step.code != FISH_OK then step else Follow(step.fs, p[1..])
  }

  /** Every directory on the way to a directory is one. */
  lemma {:induction false} PrefixDirectory(fs: Fs, p: Path, k: nat)
    requires Rooted(fs) && p in fs.tree && fs.tree[p].Directory? && k <= |p|
    ensures p[..k] in fs.tree && fs.tree[p[..k]].Directory?
    ensures k < |p| ==> ValidName(p[k])
    decreases |p|
  {
    if k == |p| {
      assert p[..k] == p;
    } else {
      var q := p[..|p| - 1];
      PrefixDirectory(fs, q, k);
      assert q[..k] == p[..k];
    }
  }

  lemma ChdirDown(fs: Fs, name: Text)
    requires ValidName(name) && fs.cwd + [name] in fs.tree && fs.tree[fs.cwd + [name]].Directory?
    ensures Chdir(fs, name) == Outcome(fs.(cwd := fs.cwd + [name]), FISH_OK)
  {
    NoSlash(name);
  }

  lemma {:induction false} FollowFrom(fs: Fs, p: Path, k: nat)
    requires Rooted(fs) && p in fs.tree && fs.tree[p].Directory? && k <= |p|
    ensures Follow(fs.(cwd := p[..k]), p[k..]) == Outcome(fs.(cwd := p), FISH_OK)
    decreases |p| - k
  {
    hide Rooted, ValidName, Chdir;
    PrefixDirectory(fs, p, k);
    if k == |p| {
      assert p[..k] == p && p[k..] == [];
    } else {
      PrefixDirectory(fs, p, k + 1);
      assert p[..k] + [p[k]] == p[..k + 1] && p[k..][1..] == p[k + 1..] && p[k..][0] == p[k];
      ChdirDown(fs.(cwd := p[..k]), p[k]);
      FollowFrom(fs, p, k + 1);
    }
  }

  /** Going to the root and then down the full path of a directory, one `fish_chdir` per name,
      succeeds at every step and arrives at that very node, wherever the walk started. */
  lemma NavigationArrives(ns: seq<Node>, cur: int, i: int)
    requires IsTree(ns) && Folder(ns, cur) && Folder(ns, i)
    ensures var start := Chdir(Fs(View(ns), PathOf(ns, cur)), [SLASH]);
            var end := Follow(start.fs, PathOf(ns, i));
            && start.code == FISH_OK && end == Outcome(Fs(View(ns), PathOf(ns, i)), FISH_OK)
            && forall j | Folder(ns, j) && PathOf(ns, j) == end.fs.cwd :: j == i
  {
    var fs := Fs(View(ns), PathOf(ns, cur));
    var p := PathOf(ns, i);
    TreeRooted(ns, cur);
    ViewAt(ns, i);
    assert p[..0] == [] && p[0..] == p;
    FollowFrom(fs, p, 0);
    forall j | Folder(ns, j) && PathOf(ns, j) == p ensures j == i { PathInjective(ns, j, i); }
  }
}
