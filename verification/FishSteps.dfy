/** One step of make, write and remove on the node pool, and its effect on the tree of paths. */
module FishSteps {
  import opened Bytes
  import opened CStrings
  import opened FishTree

  ghost predicate Folder(ns: seq<Node>, i: int) {
    0 <= i < |ns| && ns[i].Used() && ns[i].Dir()
  }

  /** Slot `i` holds the entry `name` of directory `cur`. */
  ghost predicate IsChild(ns: seq<Node>, cur: int, name: Text, i: int) {
    Inner(ns, i) && ns[i].parent == cur && ns[i].Title() == name
  }

  ghost predicate HasChild(ns: seq<Node>, cur: int, name: Text) {
    exists i :: IsChild(ns, cur, name, i)
  }

  // ---------------------------------------------------------------------------
  // Lookup
  // ---------------------------------------------------------------------------

  lemma ChildPath(ns: seq<Node>, cur: int, name: Text, i: int)
    requires IsTree(ns) && Folder(ns, cur) && IsChild(ns, cur, name, i)
    ensures PathOf(ns, i) == PathOf(ns, cur) + [name]
    ensures PathOf(ns, i) in View(ns) && View(ns)[PathOf(ns, i)] == EntryAt(ns, i)
  {
    ViewAt(ns, i);
  }

  /** The directory has an entry of that name exactly when the path is in the tree. */
  lemma ChildExactly(ns: seq<Node>, cur: int, name: Text)
    requires IsTree(ns) && Folder(ns, cur)
    ensures HasChild(ns, cur, name) <==> PathOf(ns, cur) + [name] in View(ns)
  {
    var p := PathOf(ns, cur);
    if i :| IsChild(ns, cur, name, i) {
      ChildPath(ns, cur, name, i);
    }
    if p + [name] in View(ns) {
      var j := SlotAt(ns, p + [name]);
      assert j != 0 && Inner(ns, j);
      var q := PathOf(ns, ns[j].parent);
      assert (q + [ns[j].Title()])[..|q|] == q && (p + [name])[..|p|] == p;
      assert (q + [ns[j].Title()])[|q|] == ns[j].Title() && (p + [name])[|p|] == name;
      PathInjective(ns, ns[j].parent, cur);
      assert IsChild(ns, cur, name, j);
    }
  }

  /** A map that has exactly the paths of the used slots, with what is stored there, is the view. */
  lemma ViewIs(ns: seq<Node>, m: map<Path, Entry>)
    requires IsTree(ns)
    requires forall i | i in UsedSlots(ns) :: PathOf(ns, i) in m && m[PathOf(ns, i)] == EntryAt(ns, i)
    requires forall q | q in m :: q in Paths(ns)
    ensures View(ns) == m
  {
  }

  /** Node by node, `ns'` shows what `ns` shows. */
  ghost predicate Shows(ns: seq<Node>, ns': seq<Node>, i: int)
    requires IsTree(ns) && IsTree(ns')
  {
    && 0 <= i < |ns| && ns[i].Used() && ns'[i].Used()
    && PathOf(ns', i) == PathOf(ns, i) && EntryAt(ns', i) == EntryAt(ns, i)
  }

  /** When one slot shows a new entry and all others show what they did, the view changes in one place. */
  lemma ViewUpdated(ns: seq<Node>, ns': seq<Node>, slot: int, p: Path, e: Entry)
    requires IsTree(ns) && IsTree(ns') && slot in UsedSlots(ns')
    requires PathOf(ns', slot) == p && EntryAt(ns', slot) == e
    requires forall i | i in UsedSlots(ns') && i != slot :: Shows(ns, ns', i)
    requires forall i | i in UsedSlots(ns) && i != slot :: Shows(ns, ns', i)
    requires slot in UsedSlots(ns) ==> PathOf(ns, slot) == p
    ensures View(ns') == View(ns)[p := e]
  {
    var m := View(ns)[p := e];
    forall i | i in UsedSlots(ns')
      ensures PathOf(ns', i) in m && m[PathOf(ns', i)] == EntryAt(ns', i)
    {
      if i != slot { OtherSlot(ns, ns', slot, i); }
    }
    forall q | q in m ensures q in Paths(ns') {
      if q != p { OtherPath(ns, ns', slot, p, q); }
    }
    ViewIs(ns', m);
  }

  lemma OtherSlot(ns: seq<Node>, ns': seq<Node>, slot: int, i: int)
    requires IsTree(ns) && IsTree(ns') && slot in UsedSlots(ns') && i in UsedSlots(ns') && i != slot
    requires Shows(ns, ns', i)
    ensures PathOf(ns', i) != PathOf(ns', slot)
    ensures PathOf(ns', i) in View(ns) && View(ns)[PathOf(ns', i)] == EntryAt(ns', i)
  {
    hide EntryAt, View;
    ViewAt(ns, i);
    if PathOf(ns', i) == PathOf(ns', slot) { PathInjective(ns', i, slot); }
  }

  lemma OtherPath(ns: seq<Node>, ns': seq<Node>, slot: int, p: Path, q: Path)
    requires IsTree(ns) && IsTree(ns') && q in View(ns) && q != p
    requires slot in UsedSlots(ns) ==> PathOf(ns, slot) == p
    requires forall i | i in UsedSlots(ns) && i != slot :: Shows(ns, ns', i)
    ensures q in Paths(ns')
  {
  }

  // ---------------------------------------------------------------------------
  // Making a node
  // ---------------------------------------------------------------------------

  /** A fresh node of directory `cur` that is about to go into an unused slot. */
  ghost predicate Fresh(ns: seq<Node>, cur: int, slot: int, n: Node) {
    && 1 <= slot < |ns| && !ns[slot].Used() && Folder(ns, cur)
    && n.Shaped() && n.Used() && n.parent == cur && n.size == 0
    && Terminated(n.name) && ValidName(n.Title()) && !HasChild(ns, cur, n.Title())
  }

  lemma InsertIsTree(ns: seq<Node>, cur: int, slot: int, n: Node)
    requires IsTree(ns) && Fresh(ns, cur, slot, n)
    ensures IsTree(ns[slot := n])
  {
    InsertSiblings(ns, cur, slot, n);
    InsertAttached(ns, cur, slot, n);
    InsertRanks(ns, cur, slot, n);
    hide Siblings, AllAttached, Ranked, ValidName;
  }

  lemma InsertAttached(ns: seq<Node>, cur: int, slot: int, n: Node)
    requires IsTree(ns) && Fresh(ns, cur, slot, n)
    ensures AllAttached(ns[slot := n])
  {
    hide Siblings, ValidName, Ranks;
    var ns' := ns[slot := n];
    forall i | Inner(ns', i) ensures Attached(ns', i) {
      assert i != slot ==> Inner(ns, i) && Attached(ns, i);
    }
  }

  lemma InsertRanks(ns: seq<Node>, cur: int, slot: int, n: Node)
    requires IsTree(ns) && Fresh(ns, cur, slot, n)
    ensures Ranked(ns[slot := n])
  {
    hide Siblings, ValidName;
    var ns', rank := ns[slot := n], Rank(ns);
    var rank' := rank[slot := rank[cur] + 1];
    forall i | Inner(ns', i) && 0 <= ns'[i].parent < |ns'| ensures rank'[i] == rank'[ns'[i].parent] + 1 {
      assert i != slot ==> Inner(ns, i) && Attached(ns, i);
    }
    assert Ranks(ns', rank');
  }

  /** A pool that keeps some of the nodes, with all their ancestors, is a tree again. */
  lemma SubTree(ns: seq<Node>, ns': seq<Node>)
    requires IsTree(ns) && Pool(ns') && ns'[0].Used() && ns'[0].Dir() && ns'[0].parent == -1
    requires forall k | Inner(ns', k) ::
               && Inner(ns, k) && ns'[k].name == ns[k].name && ns'[k].parent == ns[k].parent
               && ns'[k].size <= FISH_FILE_MAX && Folder(ns', ns[k].parent)
    ensures IsTree(ns')
  {
    hide ValidName;
    assert Ranks(ns', Rank(ns));
    assert Siblings(ns');
    forall k | Inner(ns', k) ensures Attached(ns', k) {
      assert Attached(ns, k);
    }
  }

  lemma InsertSiblings(ns: seq<Node>, cur: int, slot: int, n: Node)
    requires IsTree(ns) && Fresh(ns, cur, slot, n)
    ensures Siblings(ns[slot := n])
  {
    hide Ranks, Attached, ValidName;
    var ns' := ns[slot := n];
    forall i, j | Inner(ns', i) && Inner(ns', j) && ns'[i].parent == ns'[j].parent && ns'[i].Title() == ns'[j].Title()
      ensures i == j
    {
      assert !IsChild(ns, cur, n.Title(), i) && !IsChild(ns, cur, n.Title(), j);
    }
  }

  /** Putting a fresh node into an unused slot adds exactly its path to the tree. An empty file
      shows none of the bytes that the slot still holds. */
  lemma Insert(ns: seq<Node>, cur: int, slot: int, n: Node)
    requires IsTree(ns) && Fresh(ns, cur, slot, n)
    ensures var ns' := ns[slot := n];
            && IsTree(ns') && Folder(ns', cur) && PathOf(ns', cur) == PathOf(ns, cur)
            && View(ns') == View(ns)[PathOf(ns, cur) + [n.Title()] := if n.Dir() then Directory else File([])]
            && PlacesOf(ns') == PlacesOf(ns)[slot := PathOf(ns, cur) + [n.Title()]]
  {
    var ns' := ns[slot := n];
    InsertIsTree(ns, cur, slot, n);
    var p := PathOf(ns, cur) + [n.Title()];
    var e := if n.Dir() then Directory else File([]);
    forall i | i in UsedSlots(ns)
      ensures Shows(ns, ns', i)
    {
      PathFrame(ns, ns', i);
    }
    assert cur in UsedSlots(ns) && Inner(ns', slot);
    assert Shows(ns, ns', cur);
    assert PathOf(ns', slot) == p && EntryAt(ns', slot) == e;
    ViewUpdated(ns, ns', slot, p, e);
  }

  // ---------------------------------------------------------------------------
  // Changing the contents of a file
  // ---------------------------------------------------------------------------

  lemma RewriteIsTree(ns: seq<Node>, i: int, size: nat, data: seq<Byte>)
    requires IsTree(ns) && Inner(ns, i) && size <= FISH_FILE_MAX && |data| == FISH_FILE_MAX
    ensures IsTree(ns[i := ns[i].(size := size, data := data)])
  {
    var ns' := ns[i := ns[i].(size := size, data := data)];
    hide ValidName, Siblings, Ranks;
    assert forall k | Inner(ns', k) :: Inner(ns, k) && Attached(ns, k);
    SubTree(ns, ns');
  }

  /** Rewriting a file changes its own contents and nothing else. */
  lemma Rewrite(ns: seq<Node>, cur: int, i: int, size: nat, data: seq<Byte>)
    requires IsTree(ns) && Folder(ns, cur) && Inner(ns, i) && !ns[i].Dir()
    requires size <= FISH_FILE_MAX && |data| == FISH_FILE_MAX
    ensures var ns' := ns[i := ns[i].(size := size, data := data)];
            && IsTree(ns') && Folder(ns', cur) && PathOf(ns', cur) == PathOf(ns, cur)
            && View(ns') == View(ns)[PathOf(ns, i) := File(data[..size])] && PlacesOf(ns') == PlacesOf(ns)
  {
    var ns' := ns[i := ns[i].(size := size, data := data)];
    RewriteIsTree(ns, i, size, data);
    forall k | k in UsedSlots(ns)
      ensures ns'[k].Used() && PathOf(ns', k) == PathOf(ns, k) && (k != i ==> Shows(ns, ns', k))
    {
      PathFrame(ns, ns', k);
    }
    assert cur in UsedSlots(ns) && i in UsedSlots(ns) && i in UsedSlots(ns');
    hide IsTree, PathOf, Ranks;
    ViewUpdated(ns, ns', i, PathOf(ns, i), File(data[..size]));
  }

  // ---------------------------------------------------------------------------
  // Removing a node
  // ---------------------------------------------------------------------------

  ghost predicate Childless(ns: seq<Node>, i: int) {
    forall k | Inner(ns, k) :: ns[k].parent != i
  }

  lemma DeleteIsTree(ns: seq<Node>, i: int)
    requires IsTree(ns) && Inner(ns, i) && Childless(ns, i)
    ensures IsTree(ns[i := ns[i].(used := 0)])
  {
    var ns' := ns[i := ns[i].(used := 0)];
    hide ValidName, Siblings, Ranks;
    assert forall k | Inner(ns', k) :: Inner(ns, k) && Attached(ns, k);
    SubTree(ns, ns');
  }

  /** Clearing the used flag of a childless node takes exactly its path out of the tree. */
  lemma Delete(ns: seq<Node>, cur: int, i: int)
    requires IsTree(ns) && Folder(ns, cur) && Inner(ns, i) && Childless(ns, i) && i != cur
    ensures var ns' := ns[i := ns[i].(used := 0)];
            && IsTree(ns') && Folder(ns', cur) && PathOf(ns', cur) == PathOf(ns, cur)
            && View(ns') == View(ns) - {PathOf(ns, i)} && PlacesOf(ns') == PlacesOf(ns) - {i}
  {
    hide IsTree, PathOf, EntryAt, View, Childless;
    var ns' := ns[i := ns[i].(used := 0)];
    DeleteShows(ns, i);
    assert cur in UsedSlots(ns');
    ViewDeleted(ns, ns', i);
  }

  lemma DeleteShows(ns: seq<Node>, i: int)
    requires IsTree(ns) && Inner(ns, i) && Childless(ns, i)
    ensures var ns' := ns[i := ns[i].(used := 0)];
            && IsTree(ns') && UsedSlots(ns') == UsedSlots(ns) - {i}
            && forall k | k in UsedSlots(ns') :: Shows(ns', ns, k)
  {
    var ns' := ns[i := ns[i].(used := 0)];
    DeleteIsTree(ns, i);
    forall k | k in UsedSlots(ns')
      ensures Shows(ns', ns, k)
    {
      PathFrame(ns', ns, k);
    }
  }

  lemma ViewDeleted(ns: seq<Node>, ns': seq<Node>, slot: int)
    requires IsTree(ns) && IsTree(ns') && slot in UsedSlots(ns)
    requires UsedSlots(ns') == UsedSlots(ns) - {slot}
    requires forall i | i in UsedSlots(ns') :: Shows(ns', ns, i)
    ensures View(ns') == View(ns) - {PathOf(ns, slot)}
  {
    hide IsTree, PathOf, EntryAt;
    var m := View(ns) - {PathOf(ns, slot)};
    forall i | i in UsedSlots(ns')
      ensures PathOf(ns', i) in m && m[PathOf(ns', i)] == EntryAt(ns', i)
    {
      assert Shows(ns', ns, i);
      ViewAt(ns, i);
      if PathOf(ns, i) == PathOf(ns, slot) { PathInjective(ns, i, slot); }
    }
    forall q | q in m ensures q in Paths(ns') {
      var i := SlotAt(ns, q);
      assert i in UsedSlots(ns');
      assert Shows(ns', ns, i);
    }
    ViewIs(ns', m);
  }

  /** A directory is childless exactly when no path in the tree is one step longer than its own. */
  lemma ChildlessExactly(ns: seq<Node>, i: int)
    requires IsTree(ns) && Folder(ns, i)
    ensures Childless(ns, i) <==> forall name: Text :: PathOf(ns, i) + [name] !in View(ns)
  {
    forall name: Text ensures PathOf(ns, i) + [name] in View(ns) <==> HasChild(ns, i, name) {
      ChildExactly(ns, i, name);
    }
    if !Childless(ns, i) {
      var k :| Inner(ns, k) && ns[k].parent == i;
      assert IsChild(ns, i, ns[k].Title(), k);
      assert HasChild(ns, i, ns[k].Title());
    }
  }
}
