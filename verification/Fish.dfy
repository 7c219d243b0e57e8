/** fs/fish.c: the operations of the Fish filesystem on its node pool. */
module Fish {
  import opened Bytes
  import opened CStrings
  import opened FishTree
  import opened FishSteps
  import opened FishSpec
  import opened FishPaths

  const NONE := -1

  class FishFs {
    const nodes: array<Node>
    /** The slot of the current directory. */
    var current: int

    ghost predicate Shaped()
      reads nodes
    {
      nodes.Length == FISH_MAX_NODES && Pool(nodes[..])
    }

    ghost predicate Valid()
      reads this, nodes
    {
      nodes.Length == FISH_MAX_NODES && IsTree(nodes[..]) && Folder(nodes[..], current)
    }

    /** The filesystem that the pool stands for. */
    ghost function Abs(): Fs
      requires Valid()
      reads this, nodes
    {
      Fs(View(nodes[..]), PathOf(nodes[..], current))
    }

    /** The path in each used slot. */
    ghost function Where(): Places
      requires Valid()
      reads this, nodes
    {
      PlacesOf(nodes[..])
    }

    /** The static pool: every byte is zero until `fish_init`. */
    constructor ()
      ensures Shaped() && fresh(nodes)
    {
      nodes := new Node[FISH_MAX_NODES](_ => ZeroNode());
      current := 0;
      new;
      assert forall i | 0 <= i < |nodes[..]| :: nodes[..][i] == ZeroNode();
    }

    method FishInit()
      requires Shaped()
      modifies `current, nodes
      ensures Shaped() && Valid() && Abs() == EMPTY == Fs(map[[] := Directory], [])
      ensures Where() == map[0 := []] && current == 0
    {
      var i := 0;
      while i < FISH_MAX_NODES
        invariant 0 <= i <= FISH_MAX_NODES
        invariant forall k | 0 <= k < i :: nodes[k] == ZeroNode()
      {
        nodes[i] := ZeroNode();
        i := i + 1;
      }
      nodes[0] := nodes[0].(name := Strcpy(nodes[0].name, [SLASH]), used := 1, isDir := 1, parent := -1, size := 0);
      current := 0;
      InitialTree(nodes[..]);
    }

    // -------------------------------------------------------------------------
    // Helpers
    // -------------------------------------------------------------------------

    /** The slot of the entry `name` of directory `parent`, or -1 when there is none. */
    method FindChild(parent: int, name: Text) returns (r: int)
      requires Valid() && 0 <= parent
      ensures r == NONE || 0 <= r < FISH_MAX_NODES
      ensures r >= 0 ==> IsChild(nodes[..], parent, name, r)
      ensures r < 0 ==> !HasChild(nodes[..], parent, name)
    {
      ghost var ns := nodes[..];
      var i := 0;
      while i < FISH_MAX_NODES
        invariant 0 <= i <= FISH_MAX_NODES
        invariant forall k | 0 <= k < i :: !IsChild(ns, parent, name, k)
      {
        if nodes[i].used != 0 && nodes[i].parent == parent {
          assert Inner(ns, i) && Attached(ns, i) && ns[i] == nodes[i];
          TextOfTerminated(name, []);
          assert name + [0] + [] == name + [0];
          var order := Strcmp(nodes[i].name, name + [0]);
          if order == 0 { return i; }
        }
        assert !IsChild(ns, parent, name, i);
        i := i + 1;
      }
      return NONE;
    }

    /** Slot `i` holds the entry `name` of the current directory. */
    ghost predicate Holds(i: int, name: Text)
      requires Valid()
      reads this, nodes
    {
      var fs := Abs();
      && IsChild(nodes[..], current, name, i)
      && nodes[i].Shaped() && nodes[i].size <= FISH_FILE_MAX
      && PathOf(nodes[..], i) == fs.cwd + [name]
      && fs.cwd + [name] in fs.tree && fs.tree[fs.cwd + [name]] == EntryOf(nodes[i])
    }

    /** `find_child` in the current directory, in terms of paths. */
    method Lookup(name: Text) returns (index: int)
      requires Valid()
      ensures index < 0 <==> Abs().cwd + [name] !in Abs().tree
      ensures index >= 0 ==> Holds(index, name)
    {
      ghost var ns := nodes[..];
      index := FindChild(current, name);
      ChildExactly(ns, current, name);
      if index >= 0 {
        assert HasChild(ns, current, name);
        ChildPath(ns, current, name, index);
        assert ns[index] == nodes[index] && ns[index].Shaped() && Attached(ns, index);
      }
    }

    /** Gives the file in slot `i` a new buffer and size. */
    method SetContents(i: int, size: nat, data: seq<Byte>)
      requires Valid() && Inner(nodes[..], i) && !nodes[i].Dir()
      requires size <= FISH_FILE_MAX && |data| == FISH_FILE_MAX
      modifies nodes
      ensures Valid()
      ensures Abs() == old(Abs()).(tree := old(Abs()).tree[old(PathOf(nodes[..], i)) := File(data[..size])])
      ensures Where() == old(Where())
    {
      ghost var ns := nodes[..];
      nodes[i] := nodes[i].(size := size, data := data);
      assert nodes[..] == ns[i := nodes[i]];
      Rewrite(ns, current, i, size, data);
    }

    /** An unused slot, or -1 when all 64 are taken. */
    method Allocate() returns (r: int)
      requires Valid()
      ensures r == NONE || (1 <= r < FISH_MAX_NODES && !nodes[r].Used() && r == FreeFrom(Where(), 1))
      ensures r == NONE <==> |Abs().tree| == FISH_MAX_NODES
      ensures |Abs().tree| <= FISH_MAX_NODES
    {
      ghost var ns := nodes[..];
      FullExactly(ns);
      var i := 1;
      while i < FISH_MAX_NODES
        invariant 1 <= i <= FISH_MAX_NODES
        invariant forall k | 0 <= k < i :: ns[k].Used()
      {
        if nodes[i].used == 0 {
          assert !ns[i].Used();
          LowestUnused(ns, i);
          return i;
        }
        i := i + 1;
      }
      assert AllUsed(ns);
      return NONE;
    }

    /** Makes an entry of the current directory: an error code, or the slot of the new node. */
    method MakeNode(name: Text, isDir: int) returns (r: int)
      requires Valid() && (isDir == 0 || isDir == 1)
      modifies nodes
      ensures Valid()
      ensures var out := Make(old(Abs()), name, if isDir == 1 then Directory else File([]));
              && Abs() == out.fs && (if out.code == FISH_OK then r > 0 else r == out.code)
              && Where() == Occupy(old(Where()), old(Abs()), name, out.code)
    {
      hide IsTree, View, PathOf, PlacesOf, FreeFrom, ValidName;
      var valid := IsValidName(name);
      if !valid { return FISH_ERR_NAME; }
      var found := Lookup(name);
      if found >= 0 { return FISH_ERR_EXISTS; }
      var index := Allocate();
      if index < 0 { return FISH_ERR_FULL; }
      FillSlot(index, name, isDir);
      return index;
    }

    /** The end of `make_node`: an unused slot becomes an entry of the current directory. */
    method FillSlot(index: int, name: Text, isDir: int)
      requires Valid() && (isDir == 0 || isDir == 1) && 1 <= index < FISH_MAX_NODES && !nodes[index].Used()
      requires ValidName(name) && Abs().cwd + [name] !in Abs().tree
      modifies nodes
      ensures Valid()
      ensures var fs := old(Abs());
              && Abs() == fs.(tree := fs.tree[fs.cwd + [name] := if isDir == 1 then Directory else File([])])
              && Where() == old(Where())[index := fs.cwd + [name]]
    {
      ghost var ns := nodes[..];
      ChildExactly(ns, current, name);
      var slot := nodes[index];
      assert slot == ns[index] && slot.Shaped();
      nodes[index] := slot.(name := Strcpy(slot.name, name), used := 1, isDir := isDir, parent := current, size := 0);
      assert nodes[..] == ns[index := nodes[index]];
      Insert(ns, current, index, nodes[index]);
    }

    // -------------------------------------------------------------------------
    // Directories
    // -------------------------------------------------------------------------

    /** A null name and the empty name take the same branch everywhere and are one value here. */
    method FishMkdir(name: Text) returns (r: int)
      requires Valid()
      modifies nodes
      ensures Valid() && Outcome(Abs(), r) == Make(old(Abs()), name, Directory)
      ensures Where() == Occupy(old(Where()), old(Abs()), name, r)
    {
      hide IsTree, View, PathOf, PlacesOf, FreeFrom;
      var result := MakeNode(name, 1);
      return if result < 0 then result else FISH_OK;
    }

    method FishCreate(name: Text) returns (r: int)
      requires Valid()
      modifies nodes
      ensures Valid() && Outcome(Abs(), r) == Make(old(Abs()), name, File([]))
      ensures Where() == Occupy(old(Where()), old(Abs()), name, r)
    {
      hide IsTree, View, PathOf, PlacesOf, FreeFrom;
      var result := MakeNode(name, 0);
      return if result < 0 then result else FISH_OK;
    }

    method FishChdir(name: Text) returns (r: int)
      requires Valid()
      modifies `current
      ensures Valid() && Outcome(Abs(), r) == Chdir(old(Abs()), name) && Where() == old(Where())
    {
      ghost var ns := nodes[..];
      hide View, PlacesOf, IsTree;
      if name == [] { return FISH_ERR_NOENT; }
      if name == [SLASH] { current := 0; return FISH_OK; }
      if name == [DOT] { return FISH_OK; }
      if name == [DOT, DOT] {
        UpPath(ns, current);
        if nodes[current].parent >= 0 { current := nodes[current].parent; }
        return FISH_OK;
      }
      var index := Lookup(name);
      if index < 0 { return FISH_ERR_NOENT; }
      if nodes[index].isDir == 0 { return FISH_ERR_NOTDIR; }
      current := index;
      return FISH_OK;
    }

    /** The loop of `fish_remove`: whether some used node has this parent. */
    method Occupied(index: int) returns (r: bool)
      requires Valid() && 0 <= index
      ensures r <==> !Childless(nodes[..], index)
    {
      ghost var ns := nodes[..];
      var i := 0;
      while i < FISH_MAX_NODES
        invariant 0 <= i <= FISH_MAX_NODES
        invariant forall k | 0 <= k < i :: !(ns[k].Used() && ns[k].parent == index)
      {
        assert ns[i] == nodes[i];
        if nodes[i].used != 0 && nodes[i].parent == index {
          assert Inner(ns, i);
          return true;
        }
        i := i + 1;
      }
      return false;
    }

    method FishRemove(name: Text) returns (r: int)
      requires Valid()
      modifies nodes
      ensures Valid() && Outcome(Abs(), r) == Remove(old(Abs()), name)
      ensures Where() == Vacate(old(Where()), old(Abs()), name, r)
    {
      ghost var ns := nodes[..];
      var index := Lookup(name);
      if index < 0 { return FISH_ERR_NOENT; }
      if nodes[index].isDir != 0 {
        ChildlessExactly(ns, index);
        var occupied := Occupied(index);
        if occupied { return FISH_ERR_NOTEMPTY; }
      } else {
        FileChildless(ns, index);
      }
      hide IsTree, View, PathOf, PlacesOf, Childless;
      EmptySlot(index, name);
      return FISH_OK;
    }

    /** The end of `fish_remove`: the slot of a childless entry is given back. */
    method EmptySlot(index: int, name: Text)
      requires Valid() && IsChild(nodes[..], current, name, index) && Childless(nodes[..], index)
      modifies nodes
      ensures Valid() && Abs() == old(Abs()).(tree := old(Abs()).tree - {old(Abs()).cwd + [name]})
      ensures Where() == Vacate(old(Where()), old(Abs()), name, FISH_OK)
    {
      ghost var ns := nodes[..];
      DeleteChild(ns, current, name, index);
      hide IsTree, View, PathOf, PlacesOf, Vacate, Childless;
      nodes[index] := nodes[index].(used := 0);
      assert nodes[..] == ns[index := ns[index].(used := 0)];
    }

    // -------------------------------------------------------------------------
    // Files
    // -------------------------------------------------------------------------

    method FishWrite(name: Text, text: Text) returns (r: int)
      requires Valid()
      modifies nodes
      ensures Valid() && Outcome(Abs(), r) == Write(old(Abs()), name, text) && Where() == old(Where())
    {
      hide IsTree, View, PathOf, PlacesOf;
      var index := Lookup(name);
      if index < 0 { return FISH_ERR_NOENT; }
      var n := nodes[index];
      if n.isDir != 0 { return FISH_ERR_ISDIR; }
      var length := |text|;
      if length > FISH_FILE_MAX { return FISH_ERR_SPACE; }
      var data := text + n.data[length..];
      SetContents(index, length, data);
      assert data[..length] == text;
      return FISH_OK;
    }

    method FishAppend(name: Text, text: Text) returns (r: int)
      requires Valid()
      modifies nodes
      ensures Valid() && Outcome(Abs(), r) == Append(old(Abs()), name, text) && Where() == old(Where())
    {
      hide IsTree, View, PathOf, PlacesOf;
      var index := Lookup(name);
      if index < 0 { return FISH_ERR_NOENT; }
      var n := nodes[index];
      if n.isDir != 0 { return FISH_ERR_ISDIR; }
      var length := |text|;
      if n.size + length > FISH_FILE_MAX { return FISH_ERR_SPACE; }
      var data := n.data[..n.size] + text + n.data[n.size + length..];
      SetContents(index, n.size + length, data);
      assert data[..n.size + length] == n.data[..n.size] + text;
      return FISH_OK;
    }

    /** The data buffer of a file and its size; nothing is found for a directory. Of the buffer only
        the first `size` bytes mean anything, and those are exactly the contents. */
    method FishRead(name: Text) returns (found: bool, data: seq<Byte>, size: nat)
      requires Valid()
      ensures found <==> Readable(Abs(), name)
      ensures found ==> size <= |data| && File(data[..size]) == Abs().tree[Abs().cwd + [name]]
    {
      var index := Lookup(name);
      if index < 0 { return false, [], 0; }
      var n := nodes[index];
      if n.isDir != 0 { return false, [], 0; }
      return true, n.data, n.size;
    }

    // -------------------------------------------------------------------------
    // Listing
    // -------------------------------------------------------------------------

    method FishFirst() returns (handle: nat)
      ensures handle == 0
    {
      return 0;
    }

    /** The first entry of the current directory in slot `handle` or later, and the handle to go on
        with; zero when there is none. */
    method FishNext(handle: nat) returns (next: nat, name: Text, isDir: bool, size: nat)
      requires Valid()
      ensures next == 0 ==> forall k: int | handle <= k :: !Listed(nodes[..], current, k)
      ensures next != 0 ==>
                && handle < next <= FISH_MAX_NODES && Listed(nodes[..], current, next - 1)
                && (forall k | handle <= k < next - 1 :: !Listed(nodes[..], current, k))
                && name == nodes[next - 1].Title() && isDir == nodes[next - 1].Dir() && size == nodes[next - 1].size
    {
      ghost var ns := nodes[..];
      var i := handle;
      while i < FISH_MAX_NODES
        invariant handle <= i && (handle <= FISH_MAX_NODES ==> i <= FISH_MAX_NODES)
        invariant forall k | handle <= k < i :: !Listed(ns, current, k)
      {
        assert ns[i] == nodes[i];
        if nodes[i].used != 0 && nodes[i].parent == current {
          return i + 1, nodes[i].Title(), nodes[i].isDir != 0, nodes[i].size;
        }
        i := i + 1;
      }
      return 0, [], false, 0;
    }

    /** The loop of `ls`: every entry of the current directory exactly once, in slot order. */
    method List() returns (slots: seq<int>, names: seq<Text>)
      requires Valid()
      ensures forall a, b | 0 <= a < b < |slots| :: slots[a] < slots[b]
      ensures forall k :: k in slots <==> Listed(nodes[..], current, k)
      ensures |names| == |slots|
      ensures forall a | 0 <= a < |slots| ::
                Listed(nodes[..], current, slots[a]) && names[a] == nodes[..][slots[a]].Title()
      ensures forall name: Text :: name in names <==> Abs().cwd + [name] in Abs().tree
    {
      ghost var ns := nodes[..];
      slots, names := [], [];
      var handle := FishFirst();
      var next, name, isDir, size := FishNext(handle);
      assert nodes[..] == ns;
      while next != 0
        invariant nodes[..] == ns && handle <= FISH_MAX_NODES && ListedBelow(ns, current, handle, slots, names)
        invariant next == 0 ==> forall k: int | handle <= k :: !Listed(ns, current, k)
        invariant next != 0 ==>
                    && handle < next <= FISH_MAX_NODES && Listed(ns, current, next - 1)
                    && (forall k | handle <= k < next - 1 :: !Listed(ns, current, k))
                    && name == ns[next - 1].Title()
        decreases FISH_MAX_NODES - handle
      {
        ListStep(ns, current, handle, next, slots, names);
        slots, names := slots + [next - 1], names + [name];
        handle := next;
        next, name, isDir, size := FishNext(handle);
        assert nodes[..] == ns;
      }
      assert forall k :: k in slots <==> Listed(ns, current, k);
      ListedNames(ns, current, slots, names);
    }

    // -------------------------------------------------------------------------
    // The current directory
    // -------------------------------------------------------------------------

    /** Spells the current directory into a buffer of `size` bytes: as much of the full path name as
        fits in front of a terminator. Nothing behind the terminator is touched. */
    method FishPath(buffer: array<Byte>, size: nat)
      requires Valid() && size <= buffer.Length
      modifies buffer
      ensures size > 0 ==> Spelled(old(buffer[..]), buffer[..], size, PathString(Abs().cwd))
      ensures size == 0 ==> buffer[..] == old(buffer[..])
    {
      if size == 0 { return; }
      ghost var ns := nodes[..];
      var chain := Climb();
      var depth := |chain|;
      if depth == 0 {
        if size >= 2 { buffer[0] := SLASH; buffer[1] := 0; }
        else { buffer[0] := 0; }
        return;
      }
      assert nodes[..] == ns && chain != [];
      Spell(chain, buffer, size);
    }

    /** The second loop of `fish_path`: the names from the root down, each behind a slash. */
    method Spell(chain: seq<int>, buffer: array<Byte>, size: nat)
      requires Slots(nodes[..], chain) && 0 < size <= buffer.Length
      modifies buffer
      ensures Spelled(old(buffer[..]), buffer[..], size, Joined(Titles(nodes[..], chain)))
    {
      ghost var ns, was := nodes[..], buffer[..];
      var pos: nat := 0;
      ghost var done: seq<Byte> := [];
      var i := |chain|;
      assert chain[..i] == chain && was[0..] == was;
      assert Emitted(was, buffer[..], size, done, pos) && Joined(Titles(ns, [])) == [];
      hide Joined, Titles, Emitted, TextOf, Spelled;
      while i > 0
        invariant 0 <= i <= |chain| && nodes[..] == ns && Slots(ns, chain[..i])
        invariant Emitted(was, buffer[..], size, done, pos)
        invariant done + Joined(Titles(ns, chain[..i])) == Joined(Titles(ns, chain))
      {
        i := i - 1;
        JoinedStep(ns, chain, i, done);
        assert ns[chain[i]] == nodes[chain[i]];
        pos := Emit(buffer, size, done, pos, SLASH, was);
        pos := EmitName(buffer, size, done + [SLASH], pos, nodes[chain[i]].name, was);
        done := done + [SLASH] + ns[chain[i]].Title();
        assert nodes[..] == ns;
      }
      assert chain[..i] == [] && done + [] == done;
      Terminate(buffer, size, done, pos, was);
      assert nodes[..] == ns;
    }

    /** The first loop of `fish_path`: the slots of the current directory and its ancestors below the root.
        The bound on `depth` never stops it. */
    method Climb() returns (chain: seq<int>)
      requires Valid()
      ensures Slots(nodes[..], chain) && Abs().cwd == Titles(nodes[..], chain)
    {
      ghost var ns := nodes[..];
      chain := [];
      var node := current;
      PathShort(ns, current);
      hide Rank;
      assert PathOf(ns, current) + [] == PathOf(ns, current);
      while node > 0 && |chain| < FISH_MAX_NODES
        invariant 0 <= node < |ns| && ns[node].Used() && Slots(ns, chain)
        invariant PathOf(ns, current) == PathOf(ns, node) + Titles(ns, chain)
        invariant |PathOf(ns, current)| == |PathOf(ns, node)| + |chain|
        decreases FISH_MAX_NODES - |chain|
      {
        ClimbStep(ns, node, chain);
        assert ns[node] == nodes[node];
        chain := chain + [node];
        node := nodes[node].parent;
      }
    }

    /** The handle is the slot of the current directory. */
    method FishSaveCwd() returns (handle: int)
      requires Valid()
      ensures handle == current && handle in Where() && Where()[handle] == Abs().cwd
      ensures handle == SlotHolding(Where(), Abs().cwd)
      ensures Landing(Abs().tree, Where(), handle) == Abs().cwd
    {
      ViewAt(nodes[..], current);
      SlotIs(nodes[..], current);
      return current;
    }

    /** Goes to the directory that is in the slot of the handle now, and to the root if none is. That
        the directory is the one that was saved is not looked at. */
    method FishRestoreCwd(handle: int)
      requires Valid()
      modifies `current
      ensures Valid() && Where() == old(Where())
      ensures Abs() == old(Abs()).(cwd := Landing(old(Abs()).tree, Where(), handle))
      ensures handle in Where() && Abs().cwd == Where()[handle] ==> current == handle
    {
      LandingSlot(nodes[..], handle);
      if handle >= 0 && handle < FISH_MAX_NODES && nodes[handle].used != 0 && nodes[handle].isDir != 0 {
        current := handle;
      } else {
        current := 0;
      }
    }
  }

  /** Slot `k` is listed for directory `cur`. */
  ghost predicate Listed(ns: seq<Node>, cur: int, k: int) {
    0 <= k < |ns| && ns[k].Used() && ns[k].parent == cur
  }

  /** The entries in slots below `handle`, each once and in order. */
  ghost predicate ListedBelow(ns: seq<Node>, cur: int, handle: int, slots: seq<int>, names: seq<Text>) {
    && (forall a, b | 0 <= a < b < |slots| :: slots[a] < slots[b])
    && (forall k :: k in slots <==> k < handle && Listed(ns, cur, k))
    && |names| == |slots|
    && forall a | 0 <= a < |slots| :: Listed(ns, cur, slots[a]) && names[a] == ns[slots[a]].Title()
  }

  lemma ListStep(ns: seq<Node>, cur: int, handle: int, next: int, slots: seq<int>, names: seq<Text>)
    requires ListedBelow(ns, cur, handle, slots, names)
    requires handle < next && Listed(ns, cur, next - 1) && forall k | handle <= k < next - 1 :: !Listed(ns, cur, k)
    ensures ListedBelow(ns, cur, next, slots + [next - 1], names + [ns[next - 1].Title()])
  {
  }

  lemma ListedNames(ns: seq<Node>, cur: int, slots: seq<int>, names: seq<Text>)
    requires IsTree(ns) && Folder(ns, cur)
    requires forall k :: k in slots <==> Listed(ns, cur, k)
    requires |names| == |slots|
    requires forall a | 0 <= a < |slots| :: Listed(ns, cur, slots[a]) && names[a] == ns[slots[a]].Title()
    ensures forall name: Text :: name in names <==> PathOf(ns, cur) + [name] in View(ns)
  {
    forall name: Text ensures name in names <==> PathOf(ns, cur) + [name] in View(ns) {
      ChildExactly(ns, cur, name);
      if name in names {
        var a :| 0 <= a < |names| && names[a] == name;
        assert IsChild(ns, cur, name, slots[a]);
      }
      if i :| IsChild(ns, cur, name, i) {
        assert Listed(ns, cur, i);
        var a :| 0 <= a < |slots| && slots[a] == i;
        assert names[a] == name;
      }
    }
  }

  // ---------------------------------------------------------------------------
  // Writing into a bounded buffer
  // ---------------------------------------------------------------------------

  ghost predicate Slots(ns: seq<Node>, chain: seq<int>) {
    forall k | 0 <= k < |chain| :: Inner(ns, chain[k]) && Terminated(ns[chain[k]].name)
  }

  /** Names from the last slot of the chain to the first. */
  ghost function Titles(ns: seq<Node>, chain: seq<int>): Path
    requires Slots(ns, chain)
  {
    if chain == [] then [] else [ns[chain[|chain| - 1]].Title()] + Titles(ns, chain[..|chain| - 1])
  }

  lemma ClimbStep(ns: seq<Node>, node: int, chain: seq<int>)
    requires IsTree(ns) && Inner(ns, node) && Slots(ns, chain)
    ensures Slots(ns, chain + [node]) && 0 <= ns[node].parent < |ns| && ns[ns[node].parent].Used()
    ensures PathOf(ns, ns[node].parent) + Titles(ns, chain + [node]) == PathOf(ns, node) + Titles(ns, chain)
    ensures |PathOf(ns, node)| == |PathOf(ns, ns[node].parent)| + 1
  {
    assert Attached(ns, node);
    assert (chain + [node])[..|chain|] == chain;
  }

  lemma JoinedStep(ns: seq<Node>, chain: seq<int>, i: nat, done: seq<Byte>)
    requires i < |chain| && Slots(ns, chain[..i + 1])
    ensures Slots(ns, chain[..i]) && Inner(ns, chain[i]) && Terminated(ns[chain[i]].name)
    ensures done + Joined(Titles(ns, chain[..i + 1]))
         == done + [SLASH] + ns[chain[i]].Title() + Joined(Titles(ns, chain[..i]))
  {
    var c := chain[..i + 1];
    assert c[..i] == chain[..i] && c[i] == chain[i];
    assert forall k | 0 <= k < i :: chain[..i][k] == c[k];
    assert Titles(ns, c)[1..] == Titles(ns, chain[..i]);
  }

  function Fit(length: nat, size: nat): nat
    requires size > 0
  {
    if length < size then length else size - 1
  }

  /** So far the text `done` has been sent to the buffer, and `pos` is behind what fitted. */
  ghost predicate Emitted(was: seq<Byte>, now: seq<Byte>, size: nat, done: seq<Byte>, pos: nat) {
    && 0 < size <= |was| == |now| && pos == Fit(|done|, size)
    && now == done[..pos] + was[pos..]
  }

  /** The buffer holds what fits of `text`, a terminator, and its old bytes. */
  ghost predicate Spelled(was: seq<Byte>, now: seq<Byte>, size: nat, text: seq<Byte>)
    requires size > 0
  {
    var length := Fit(|text|, size);
    size <= |was| == |now| && now == text[..length] + [0] + was[length + 1..]
  }

  /** A buffer with room for the text reads as the text, and a shorter one as the first characters of it. */
  lemma SpelledReads(was: seq<Byte>, now: seq<Byte>, size: nat, text: Text)
    requires size > 0 && Spelled(was, now, size, text)
    ensures Terminated(now) && TextOf(now) == if |text| < size then text else text[..size - 1]
    ensures forall k | 0 <= k < |now| && k > |TextOf(now)| :: now[k] == was[k]
  {
    var shown: Text := text[..Fit(|text|, size)];
    TextOfTerminated(shown, was[Fit(|text|, size) + 1..]);
    assert now[|shown|] == 0;
  }

  /** Writes one character if a terminator still fits behind it. */
  method Emit(buffer: array<Byte>, size: nat, ghost done: seq<Byte>, pos: nat, b: Byte, ghost was: seq<Byte>)
      returns (r: nat)
    requires Emitted(was, buffer[..], size, done, pos)
    modifies buffer
    ensures Emitted(was, buffer[..], size, done + [b], r)
  {
    if pos + 1 < size {
      buffer[pos] := b;
      r := pos + 1;
    } else {
      r := pos;
    }
  }

  method Terminate(buffer: array<Byte>, size: nat, ghost done: seq<Byte>, pos: nat, ghost was: seq<Byte>)
    requires Emitted(was, buffer[..], size, done, pos)
    modifies buffer
    ensures Spelled(was, buffer[..], size, done)
  {
    buffer[pos] := 0;
  }

  method EmitName(buffer: array<Byte>, size: nat, ghost done: seq<Byte>, pos: nat, name: seq<Byte>,
                  ghost was: seq<Byte>)
      returns (r: nat)
    requires Terminated(name) && Emitted(was, buffer[..], size, done, pos)
    modifies buffer
    ensures Emitted(was, buffer[..], size, done + TextOf(name), r)
  {
    r := pos;
    var j := 0;
    ghost var text := TextOf(name);
    assert done + text[..0] == done;
    while name[j] != 0
      invariant j <= |text|
      invariant Emitted(was, buffer[..], size, done + text[..j], r)
      decreases |text| - j
    {
      r := Emit(buffer, size, done + text[..j], r, name[j], was);
      assert done + text[..j] + [name[j]] == done + text[..j + 1];
      j := j + 1;
    }
    assert text[..j] == text;
  }

  function ZeroNode(): Node {
    Node(seq(FISH_NAME_MAX, _ => 0), 0, 0, 0, 0, seq(FISH_FILE_MAX, _ => 0))
  }

  /** The pool of `fish_init` is the tree that holds nothing but the root. */
  lemma InitialTree(ns: seq<Node>)
    requires |ns| == FISH_MAX_NODES && ns[0].Shaped() && ns[0].Used() && ns[0].Dir() && ns[0].parent == -1
    requires forall k | 1 <= k < |ns| :: ns[k] == ZeroNode()
    ensures IsTree(ns) && View(ns) == EMPTY.tree && PathOf(ns, 0) == []
  {
    assert forall k :: !Inner(ns, k);
    assert Ranks(ns, seq(|ns|, _ => 0));
    assert UsedSlots(ns) == {0};
    assert PathOf(ns, 0) == [];
    ViewIs(ns, map[[] := Directory]);
  }

  /** The parent of a directory is one step up, and the root has none. */
  lemma UpPath(ns: seq<Node>, cur: int)
    requires IsTree(ns) && Folder(ns, cur)
    ensures ns[cur].parent >= 0 <==> PathOf(ns, cur) != []
    ensures PathOf(ns, cur) != [] ==>
              && Folder(ns, ns[cur].parent)
              && PathOf(ns, ns[cur].parent) == PathOf(ns, cur)[..|PathOf(ns, cur)| - 1]
  {
    if cur != 0 {
      assert Inner(ns, cur);
      var p := PathOf(ns, ns[cur].parent);
      assert PathOf(ns, cur) == p + [ns[cur].Title()];
    }
  }

  /** `fish_remove` does not look for children of a file; the tree invariant says there are none. */
  lemma FileChildless(ns: seq<Node>, i: int)
    requires IsTree(ns) && Inner(ns, i) && !ns[i].Dir()
    ensures Childless(ns, i)
  {
  }

  lemma NotOwnChild(ns: seq<Node>, cur: int, i: int)
    requires IsTree(ns) && Inner(ns, i) && ns[i].parent == cur
    ensures i != cur
  {
  }

  lemma LowestUnused(ns: seq<Node>, i: nat)
    requires IsTree(ns) && 1 <= i < |ns| && !ns[i].Used() && forall k | 0 <= k < i :: ns[k].Used()
    ensures i == FreeFrom(PlacesOf(ns), 1)
  {
    hide IsTree, PathOf;
    var where := PlacesOf(ns);
    assert i !in where && forall k | 1 <= k < i :: k in where;
  }

  /** A path is in one slot only, so taking the slot away is taking the path away. */
  lemma OnlyPlace(ns: seq<Node>, i: int)
    requires IsTree(ns) && 0 <= i < |ns| && ns[i].Used()
    ensures var where := PlacesOf(ns);
            where - {i} == map k | k in where && where[k] != PathOf(ns, i) :: where[k]
  {
    var where := PlacesOf(ns);
    forall k | k in where ensures k == i <==> where[k] == PathOf(ns, i) {
      if where[k] == PathOf(ns, i) { PathInjective(ns, k, i); }
    }
    assert i in UsedSlots(ns);
  }

  lemma SlotIs(ns: seq<Node>, i: int)
    requires IsTree(ns) && 0 <= i < |ns| && ns[i].Used()
    ensures SlotHolding(PlacesOf(ns), PathOf(ns, i)) == i
  {
    var where := PlacesOf(ns);
    assert i in where && where[i] == PathOf(ns, i);
    PathInjective(ns, SlotHolding(where, PathOf(ns, i)), i);
  }

  /** `Delete` for an entry of the current directory. */
  lemma DeleteChild(ns: seq<Node>, cur: int, name: Text, i: int)
    requires IsTree(ns) && Folder(ns, cur) && IsChild(ns, cur, name, i) && Childless(ns, i)
    ensures var ns' := ns[i := ns[i].(used := 0)];
            && IsTree(ns') && Folder(ns', cur) && PathOf(ns', cur) == PathOf(ns, cur)
            && View(ns') == View(ns) - {PathOf(ns, cur) + [name]}
            && PlacesOf(ns') == Vacate(PlacesOf(ns), Fs(View(ns), PathOf(ns, cur)), name, FISH_OK)
  {
    ChildPath(ns, cur, name, i);
    NotOwnChild(ns, cur, i);
    hide IsTree, View, PathOf, PlacesOf, Childless;
    Delete(ns, cur, i);
    OnlyPlace(ns, i);
  }

  /** The test of `fish_restore_cwd` in terms of paths. A slot that holds the root is slot 0. */
  lemma LandingSlot(ns: seq<Node>, handle: int)
    requires IsTree(ns)
    ensures Landing(View(ns), PlacesOf(ns), handle) == if Folder(ns, handle) then PathOf(ns, handle) else []
  {
    if 0 <= handle < |ns| && ns[handle].Used() {
      ViewAt(ns, handle);
      if PathOf(ns, handle) == [] { PathInjective(ns, handle, 0); }
    }
  }

  /** `valid_name` */
  method IsValidName(name: Text) returns (ok: bool)
    ensures ok == ValidName(name)
    ensures ok <==>
              && 1 <= |name| <= 31 && (forall k | 0 <= k < |name| :: 33 <= name[k] <= 127 && name[k] != 47)
              && name != [46] && name != [46, 46]
  {
    if name == [] { return false; }
    var i := 0;
    while i < |name|
      invariant 0 <= i <= |name|
      invariant i < FISH_NAME_MAX
      invariant forall k | 0 <= k < i :: NameByte(name[k])
    {
      if i >= FISH_NAME_MAX - 1 { return false; }
      if name[i] == SLASH || name[i] <= SPACE || name[i] >= 128 { return false; }
      i := i + 1;
    }
    return name != [DOT] && name != [DOT, DOT];
  }
}
