/** The node pool of the Fish filesystem as a value: which pools are trees, where each node is,
    and what one step of make, write and remove does to the whole tree. */
module FishTree {
  import opened Bytes
  import opened CStrings

  const FISH_NAME_MAX := 32
  const FISH_MAX_NODES := 64
  const FISH_FILE_MAX := 512

  /** One slot of the pool, with its raw buffers: bytes behind the terminator of `name` and behind
      the first `size` bytes of `data` are leftovers of earlier owners of the slot. */
  datatype Node = Node(name: seq<Byte>, used: int, isDir: int, parent: int, size: nat, data: seq<Byte>) {
    predicate Used() { used != 0 }
    predicate Dir() { isDir != 0 }
    function Title(): Text { TextOf(name) }
    ghost predicate Shaped() {
      && |name| == FISH_NAME_MAX && |data| == FISH_FILE_MAX
      && -0x8000_0000 <= used < 0x8000_0000 && -0x8000_0000 <= isDir < 0x8000_0000
      && -0x8000_0000 <= parent < 0x8000_0000 && size < WORD
    }
  }

  /** A character that may stand in a name. `char` is signed, so a byte above 127 is negative and
      fails the comparison with the space. */
  predicate NameByte(b: Byte) {
    b != SLASH && SPACE < b < 128
  }

  predicate ValidName(s: Text) {
    && 0 < |s| < FISH_NAME_MAX
    && (forall k | 0 <= k < |s| :: NameByte(s[k]))
    && s != [DOT] && s != [DOT, DOT]
  }

  // ---------------------------------------------------------------------------
  // Trees
  // ---------------------------------------------------------------------------

  ghost predicate Pool(ns: seq<Node>) {
    |ns| == FISH_MAX_NODES && forall i | 0 <= i < |ns| :: ns[i].Shaped()
  }

  /** Slot `i` holds a node below the root. */
  ghost predicate Inner(ns: seq<Node>, i: int) {
    1 <= i < |ns| && ns[i].Used()
  }

  /** An inner node is properly named and hangs below a directory. */
  ghost predicate Attached(ns: seq<Node>, i: int)
    requires 0 <= i < |ns|
  {
    && Terminated(ns[i].name) && ValidName(ns[i].Title()) && ns[i].size <= FISH_FILE_MAX
    && 0 <= ns[i].parent < |ns| && ns[ns[i].parent].Used() && ns[ns[i].parent].Dir()
  }

  ghost predicate AllAttached(ns: seq<Node>) {
    forall i | Inner(ns, i) :: Attached(ns, i)
  }

  ghost predicate Siblings(ns: seq<Node>) {
    forall i, j | Inner(ns, i) && Inner(ns, j) && ns[i].parent == ns[j].parent && ns[i].Title() == ns[j].Title() ::
      i == j
  }

  /** `rank` counts the steps to the root, so that parent chains cannot run in circles. */
  ghost predicate Ranks(ns: seq<Node>, rank: seq<nat>) {
    && |rank| == |ns|
    && forall i | Inner(ns, i) && 0 <= ns[i].parent < |ns| :: rank[i] == rank[ns[i].parent] + 1
  }

  ghost predicate Ranked(ns: seq<Node>) {
    exists rank :: Ranks(ns, rank)
  }

  ghost predicate IsTree(ns: seq<Node>) {
    && Pool(ns)
    && ns[0].Used() && ns[0].Dir() && ns[0].parent == -1
    && AllAttached(ns)
    && Siblings(ns)
    && Ranked(ns)
  }

  ghost function Rank(ns: seq<Node>): (rank: seq<nat>)
    requires IsTree(ns)
    ensures Ranks(ns, rank)
  {
    var rank :| Ranks(ns, rank);
    rank
  }

  /** The names on the way from the root to node `i`. */
  type Path = seq<Text>

  ghost function PathOf(ns: seq<Node>, i: int): Path
    requires IsTree(ns) && 0 <= i < |ns| && ns[i].Used()
    decreases Rank(ns)[i]
  {
    if i == 0 then [] else
      assert Inner(ns, i);
      PathOf(ns, ns[i].parent) + [ns[i].Title()]
  }

  lemma {:induction false} PathInjective(ns: seq<Node>, i: int, j: int)
    requires IsTree(ns) && 0 <= i < |ns| && ns[i].Used() && 0 <= j < |ns| && ns[j].Used()
    requires PathOf(ns, i) == PathOf(ns, j)
    ensures i == j
    decreases Rank(ns)[i]
  {
    if i != 0 && j != 0 {
      assert Inner(ns, i) && Inner(ns, j);
      var p, q := PathOf(ns, ns[i].parent), PathOf(ns, ns[j].parent);
      assert PathOf(ns, i)[..|p|] == p && PathOf(ns, j)[..|q|] == q;
      assert PathOf(ns, i)[|p|] == ns[i].Title() && PathOf(ns, j)[|q|] == ns[j].Title();
      PathInjective(ns, ns[i].parent, ns[j].parent);
    }
  }

  /** A pool that keeps the used nodes of another where they are, keeps their paths. */
  lemma {:induction false} PathFrame(ns: seq<Node>, ns': seq<Node>, i: int)
    requires IsTree(ns) && IsTree(ns') && 0 <= i < |ns| && ns[i].Used()
    requires forall k | 0 <= k < |ns| && ns[k].Used() ::
               ns'[k].Used() && ns'[k].parent == ns[k].parent && ns'[k].Title() == ns[k].Title()
    ensures PathOf(ns, i) == PathOf(ns', i)
    decreases Rank(ns)[i]
  {
    if i != 0 {
      assert Inner(ns, i) && Inner(ns', i);
      PathFrame(ns, ns', ns[i].parent);
    }
  }

  // ---------------------------------------------------------------------------
  // The abstract view
  // ---------------------------------------------------------------------------

  datatype Entry = Directory | File(bytes: seq<Byte>)

  function EntryOf(n: Node): Entry
    requires n.size <= |n.data|
  {
    if n.Dir() then Directory else File(n.data[..n.size])
  }

  /** What is stored in a used slot. */
  ghost function EntryAt(ns: seq<Node>, i: int): Entry
    requires IsTree(ns) && 0 <= i < |ns| && ns[i].Used()
  {
    if i == 0 then Directory else
      assert Inner(ns, i) && ns[i].Shaped();
      EntryOf(ns[i])
  }

  ghost function UsedSlots(ns: seq<Node>): set<int> {
    set i | 0 <= i < |ns| && ns[i].Used()
  }

  /** The paths in use. */
  ghost function Paths(ns: seq<Node>): set<Path>
    requires IsTree(ns)
  {
    set i | i in UsedSlots(ns) :: PathOf(ns, i)
  }

  ghost function SlotAt(ns: seq<Node>, p: Path): (i: int)
    requires IsTree(ns) && p in Paths(ns)
    ensures 0 <= i < |ns| && ns[i].Used() && PathOf(ns, i) == p
  {
    var i :| i in UsedSlots(ns) && PathOf(ns, i) == p;
    i
  }

  /** The tree as a map from paths to directories and file contents. */
  ghost function View(ns: seq<Node>): map<Path, Entry>
    requires IsTree(ns)
  {
    map p | p in Paths(ns) :: EntryAt(ns, SlotAt(ns, p))
  }

  /** Which path each used slot holds. */
  type Places = map<int, Path>

  ghost function PlacesOf(ns: seq<Node>): Places
    requires IsTree(ns)
  {
    map i | i in UsedSlots(ns) :: PathOf(ns, i)
  }

  lemma ViewAt(ns: seq<Node>, i: int)
    requires IsTree(ns) && 0 <= i < |ns| && ns[i].Used()
    ensures PathOf(ns, i) in View(ns) && View(ns)[PathOf(ns, i)] == EntryAt(ns, i)
  {
    assert i in UsedSlots(ns);
    PathInjective(ns, i, SlotAt(ns, PathOf(ns, i)));
  }

  // ---------------------------------------------------------------------------
  // Counting: the view has as many entries as there are used slots
  // ---------------------------------------------------------------------------

  lemma {:induction false} CountPaths(ns: seq<Node>, slots: set<int>, paths: set<Path>)
    requires IsTree(ns) && slots <= UsedSlots(ns)
    requires paths == set i | i in slots :: PathOf(ns, i)
    ensures |paths| == |slots|
    decreases |slots|
  {
    if slots == {} {
      assert paths == {};
    } else {
      var i :| i in slots;
      var rest := set k | k in slots - {i} :: PathOf(ns, k);
      CountPaths(ns, slots - {i}, rest);
      assert PathOf(ns, i) !in rest by {
        if PathOf(ns, i) in rest {
          var k :| k in slots - {i} && PathOf(ns, k) == PathOf(ns, i);
          PathInjective(ns, k, i);
        }
      }
      assert paths == rest + {PathOf(ns, i)};
    }
  }

  /** The abstract tree has as many entries as there are used slots. */
  lemma ViewCount(ns: seq<Node>)
    requires IsTree(ns)
    ensures |View(ns)| == |UsedSlots(ns)|
  {
    CountPaths(ns, UsedSlots(ns), Paths(ns));
    assert View(ns).Keys == Paths(ns);
  }

  ghost predicate AllUsed(ns: seq<Node>) {
    forall i | 0 <= i < |ns| :: ns[i].Used()
  }

  /** The tree has 64 entries exactly when no slot is unused. */
  lemma FullExactly(ns: seq<Node>)
    requires IsTree(ns)
    ensures |View(ns)| <= FISH_MAX_NODES
    ensures |View(ns)| == FISH_MAX_NODES <==> AllUsed(ns)
  {
    ViewCount(ns);
    SlotCount(ns);
  }

  lemma SlotCount(ns: seq<Node>)
    ensures |UsedSlots(ns)| <= |ns|
    ensures |UsedSlots(ns)| == |ns| <==> AllUsed(ns)
  {
    var all := Below(|ns|);
    Subset(UsedSlots(ns), all);
    if AllUsed(ns) { assert UsedSlots(ns) == all; }
    if UsedSlots(ns) == all {
      forall i | 0 <= i < |ns| ensures ns[i].Used() { assert i in all; }
    }
  }

  ghost function Below(n: nat): (s: set<int>)
    ensures |s| == n && forall i :: i in s <==> 0 <= i < n
  {
    if n == 0 then {} else Below(n - 1) + {n - 1}
  }

  lemma {:induction false} Subset<T>(a: set<T>, b: set<T>)
    requires a <= b
    ensures |a| <= |b| && (|a| == |b| ==> a == b)
  {
    if |a| == 0 {
      assert a == {};
    } else {
      var x :| x in a;
      Subset(a - {x}, b - {x});
      assert a == a - {x} + {x} && b == b - {x} + {x};
    }
  }
}
