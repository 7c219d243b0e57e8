/** Whole runs of the heap interface, at the level of the block list. */
module HeapRuns {
  import opened Bytes
  import opened HeapLayout

  /** A call of the interface, or a store by a caller into the bytes it was given. A live block stands
      for the pointer that was handed out for it. */
  datatype Call =
    | Kmalloc(size: nat)
    | Kcalloc(count: nat, size: nat)
    | Kfree(block: Block)
    | Poke(block: Block, index: nat, value: Byte)

  /** The list that `heap_init` sets up: one free block over the whole arena. */
  const INITIAL: seq<Block> := [Block(0, HEAP_SIZE - HEADER, true)]

  /** The block list and the bytes of every live block. */
  datatype Moment = Moment(blocks: seq<Block>, contents: map<Block, seq<Byte>>)

  /** What a call does to the list and to the contents. */
  ghost predicate Follows(was: Moment, call: Call, now: Moment) {
    && Stepped(was, call, now)
    && (forall b | b in was.contents && call != Kfree(b) ::
          b in now.contents && now.contents[b] == Poked(was.contents[b], b, call))
    && (call.Kcalloc? ==> forall b | b in now.contents && b !in was.contents ::
          Zeroed(now.contents[b], call.count * call.size))
  }

  ghost predicate Zeroed(s: seq<Byte>, count: nat) {
    count <= |s| && forall k | 0 <= k < count :: s[k] == 0
  }

  /** Along any such trace, a block that is live at some moment and not freed after it ends with what it
      held then, changed by the stores into it: this covers blocks that were handed out on the way. */
  lemma {:induction false} KeptSince(trace: seq<Moment>, calls: seq<Call>, k: nat, b: Block)
    requires |trace| == |calls| + 1 && forall j | 0 <= j < |calls| :: Follows(trace[j], calls[j], trace[j + 1])
    requires k <= |calls| && b in trace[k].contents && Kfree(b) !in calls[k..]
    ensures b in trace[|calls|].contents
    ensures trace[|calls|].contents[b] == Pokes(trace[k].contents[b], b, calls[k..])
    decreases |calls| - k
  {
    if k < |calls| {
      assert calls[k..][0] == calls[k] && calls[k..][1..] == calls[k + 1..];
      assert Follows(trace[k], calls[k], trace[k + 1]);
      KeptSince(trace, calls, k + 1, b);
    }
  }

  lemma KeptFromStart(trace: seq<Moment>, calls: seq<Call>)
    requires |trace| == |calls| + 1 && forall j | 0 <= j < |calls| :: Follows(trace[j], calls[j], trace[j + 1])
    ensures forall b | b in trace[0].contents && Kfree(b) !in calls ::
              b in trace[|calls|].contents && trace[|calls|].contents[b] == Pokes(trace[0].contents[b], b, calls)
  {
    assert calls[0..] == calls;
    forall b | b in trace[0].contents && Kfree(b) !in calls
      ensures b in trace[|calls|].contents && trace[|calls|].contents[b] == Pokes(trace[0].contents[b], b, calls)
    {
      KeptSince(trace, calls, 0, b);
    }
  }

  /** The list and the live blocks fit each other before and after the call. */
  ghost predicate Stepped(was: Moment, call: Call, now: Moment) {
    && Legal(was.blocks, call) && now.blocks == After(was.blocks, call)
    && was.contents.Keys == Live(was.blocks) && now.contents.Keys == Live(now.blocks)
  }

  lemma TakeFollows(was: Moment, call: Call, now: Moment, b: Block)
    requires Stepped(was, call, now) && (call.Kmalloc? || call.Kcalloc?)
    requires b !in was.contents && b in now.contents && now.contents == was.contents[b := now.contents[b]]
    requires call.Kcalloc? ==> Zeroed(now.contents[b], call.count * call.size)
    ensures Follows(was, call, now)
  {
    hide Legal, After, Live, Zeroed;
  }

  lemma SameFollows(was: Moment, call: Call, now: Moment)
    requires Stepped(was, call, now) && (call.Kmalloc? || call.Kcalloc?) && now.contents == was.contents
    ensures Follows(was, call, now)
  {
    hide Legal, After, Live, Zeroed;
  }

  lemma FreeFollows(was: Moment, b: Block, now: Moment)
    requires Stepped(was, Kfree(b), now) && now.contents == was.contents - {b}
    ensures Follows(was, Kfree(b), now)
  {
    hide Legal, After, Live;
  }

  lemma StoreFollows(was: Moment, call: Call, now: Moment)
    requires Stepped(was, call, now) && call.Poke? && call.block in was.contents
    requires now.contents == was.contents[call.block := Poked(was.contents[call.block], call.block, call)]
    ensures Follows(was, call, now)
  {
    hide Legal, After, Live;
  }

  lemma InitialWellFormed()
    ensures WellFormed(INITIAL) && Live(INITIAL) == {}
    ensures INITIAL == [Block(0, 262132, true)] && Total(INITIAL, false) == 0
  {
  }

  /** The list after `kmalloc(size)`. */
  function AfterMalloc(bs: seq<Block>, size: nat): seq<Block>
    requires size < WORD
  {
    if size == 0 then bs
    else
      var n := AlignUp(size);
      var i := FirstFit(bs, n);
      if i < |bs| then Take(bs, i, n) else bs
  }

  /** `kcalloc` multiplies modulo 2^32 and divides back to see whether the product wrapped. */
  predicate CallocRejects(count: nat, size: nat) {
    count != 0 && (count * size) % WORD / count != size
  }

  function AfterCalloc(bs: seq<Block>, count: nat, size: nat): seq<Block> {
    if CallocRejects(count, size) then bs else AfterMalloc(bs, count * size % WORD)
  }

  ghost function IndexOf(bs: seq<Block>, b: Block): (i: nat)
    requires b in bs
    ensures i < |bs| && bs[i] == b
  {
    var i :| 0 <= i < |bs| && bs[i] == b;
    i
  }

  /** The list after `kfree` of a live block. */
  ghost function AfterFree(bs: seq<Block>, b: Block): seq<Block>
    requires b in Live(bs)
  {
    Release(bs, IndexOf(bs, b))
  }

  /** `kcalloc` clears no more than the block it got. */
  ghost predicate CallocContained(count: nat, size: nat) {
    count * size <= WORD - ALIGNMENT || count * size >= WORD
  }

  /** Arguments are 32-bit values, `kcalloc` stays inside the block it gets, if it gets one, only live
      blocks are freed, and callers store inside their blocks. */
  ghost predicate Legal(bs: seq<Block>, call: Call) {
    match call
    case Kmalloc(size) => size < WORD
    case Kcalloc(count, size) =>
      && count < WORD && size < WORD
      && (CallocContained(count, size) || !HasRoom(bs, AlignUp(count * size % WORD)))
    case Kfree(b) => b in Live(bs)
    case Poke(b, index, value) => b in Live(bs) && index < b.size
  }

  ghost function After(bs: seq<Block>, call: Call): seq<Block>
    requires Legal(bs, call)
  {
    match call
    case Kmalloc(size) => AfterMalloc(bs, size)
    case Kcalloc(count, size) => AfterCalloc(bs, count, size)
    case Kfree(b) => AfterFree(bs, b)
    case Poke(b, index, value) => bs
  }

  /** What a call leaves in the bytes `s` of block `b`, if it does not free it. */
  ghost function Poked(s: seq<Byte>, b: Block, call: Call): seq<Byte> {
    if call.Poke? && call.block == b && call.index < |s| then s[call.index := call.value] else s
  }

  /** The bytes of block `b` after a run that does not free it: what was stored there, in order. */
  ghost function Pokes(s: seq<Byte>, b: Block, calls: seq<Call>): seq<Byte>
    decreases |calls|
  {
    if calls == [] then s else Pokes(Poked(s, b, calls[0]), b, calls[1..])
  }

  ghost predicate LegalRun(bs: seq<Block>, calls: seq<Call>)
    decreases |calls|
  {
    calls == [] || (Legal(bs, calls[0]) && LegalRun(After(bs, calls[0]), calls[1..]))
  }

  ghost function Run(bs: seq<Block>, calls: seq<Call>): seq<Block>
    requires LegalRun(bs, calls)
    decreases |calls|
  {
    if calls == [] then bs else Run(After(bs, calls[0]), calls[1..])
  }

  /** The division test of `kcalloc` rejects exactly the products that do not fit 32 bits. */
  lemma CallocRejectsOverflow(count: nat, size: nat)
    requires count < WORD && size < WORD
    ensures CallocRejects(count, size) <==> count * size >= WORD
  {
    if count != 0 {
      DivideBack(count, size);
      SmallQuotient(count * size % WORD, count, size);
    }
  }

  /** The seven products that `align_up` wraps to zero pass the division test, get a block that is
      too small, and are cleared beyond its end. For every other product the bytes that `kcalloc`
      clears lie inside the block it hands out. */
  lemma CallocContainedExactly(bs: seq<Block>, count: nat, size: nat)
    requires WellFormed(bs) && count < WORD && size < WORD && 0 < count * size < WORD
    requires FirstFit(bs, AlignUp(count * size)) < |bs|
    ensures var i := FirstFit(bs, AlignUp(count * size));
            && !CallocRejects(count, size)
            && (count * size <= Carve(bs[i], AlignUp(count * size))[0].size <==> CallocContained(count, size))
  {
    CallocRejectsOverflow(count, size);
    AlignUpRounds(count * size);
  }

  /** A concrete such call on a fresh heap: `kcalloc(1, 0xffffffff)` gets a block of no bytes at all. */
  lemma CallocOverrun()
    ensures !CallocRejects(1, WORD - 1) && !CallocContained(1, WORD - 1)
    ensures AfterCalloc(INITIAL, 1, WORD - 1) == [Block(0, 0, false), Block(HEADER, HEAP_SIZE - 2 * HEADER, true)]
  {
  }

  lemma SmallQuotient(total: nat, count: nat, size: nat)
    requires count > 0
    ensures total < count * size ==> total / count < size
  {
  }

  lemma DivideBack(count: nat, size: nat)
    requires count > 0
    ensures count * size / count == size
  {
    var q := count * size / count;
    assert count * size == count * q + count * size % count;
    if q < size { MulMonotone(count, q + 1, size); }
    if q > size { MulMonotone(count, size + 1, q); }
  }

  lemma MallocWellFormed(bs: seq<Block>, size: nat)
    requires WellFormed(bs) && size < WORD
    ensures WellFormed(AfterMalloc(bs, size))
  {
    var n := AlignUp(size);
    var i := FirstFit(bs, n);
    if size != 0 && i < |bs| { TakeWellFormed(bs, i, n); }
  }

  /** Every run of the interface keeps the list well formed: it tiles the arena, offsets and
      sizes are multiples of 4 and no two neighbours are both free. */
  lemma {:induction false} RunWellFormed(bs: seq<Block>, calls: seq<Call>)
    requires WellFormed(bs) && LegalRun(bs, calls)
    ensures WellFormed(Run(bs, calls))
    decreases |calls|
  {
    if calls != [] {
      match calls[0] {
        case Kmalloc(size) => MallocWellFormed(bs, size);
        case Kcalloc(count, size) => MallocWellFormed(bs, count * size % WORD);
        case Kfree(b) => ReleaseWellFormed(bs, IndexOf(bs, b));
        case Poke(b, index, value) =>
      }
      RunWellFormed(After(bs, calls[0]), calls[1..]);
    }
  }

  /** Two runs that end with the same live blocks end with identical heaps. */
  lemma SameLiveSameHeap(calls: seq<Call>, calls': seq<Call>)
    requires LegalRun(INITIAL, calls) && LegalRun(INITIAL, calls')
    requires Live(Run(INITIAL, calls)) == Live(Run(INITIAL, calls'))
    ensures Run(INITIAL, calls) == Run(INITIAL, calls')
  {
    InitialWellFormed();
    RunWellFormed(INITIAL, calls);
    RunWellFormed(INITIAL, calls');
    Canonical(Run(INITIAL, calls), Run(INITIAL, calls'), 0, HEAP_SIZE);
  }

  /** A run after which nothing is live has restored the state of `heap_init`. */
  lemma NothingLiveIsInitial(calls: seq<Call>)
    requires LegalRun(INITIAL, calls) && Live(Run(INITIAL, calls)) == {}
    ensures Run(INITIAL, calls) == INITIAL
  {
    InitialWellFormed();
    SameLiveSameHeap(calls, []);
  }

  function Frees(blocks: seq<Block>): seq<Call> {
    seq(|blocks|, i requires 0 <= i < |blocks| => Kfree(blocks[i]))
  }

  ghost predicate Distinct(blocks: seq<Block>) {
    forall i, j | 0 <= i < j < |blocks| :: blocks[i] != blocks[j]
  }

  ghost function Members(blocks: seq<Block>): set<Block> {
    set b | b in blocks
  }

  lemma {:induction false} FreesRemove(bs: seq<Block>, blocks: seq<Block>)
    requires WellFormed(bs) && Distinct(blocks)
    requires forall b | b in blocks :: b in Live(bs)
    ensures LegalRun(bs, Frees(blocks))
    ensures WellFormed(Run(bs, Frees(blocks)))
    ensures Live(Run(bs, Frees(blocks))) == Live(bs) - Members(blocks)
    decreases |blocks|
  {
    if blocks != [] {
      var b := blocks[0];
      assert b in blocks;
      ReleaseWellFormed(bs, IndexOf(bs, b));
      assert Frees(blocks)[1..] == Frees(blocks[1..]);
      FreesRemove(AfterFree(bs, b), blocks[1..]);
      assert blocks == [b] + blocks[1..];
    }
  }

  /** Any two orders of freeing the same live blocks are possible and give the same heap. */
  lemma FreeOrderIrrelevant(bs: seq<Block>, one: seq<Block>, other: seq<Block>)
    requires WellFormed(bs) && Distinct(one) && Distinct(other)
    requires forall b | b in one :: b in Live(bs)
    requires Members(one) == Members(other)
    ensures LegalRun(bs, Frees(one)) && LegalRun(bs, Frees(other))
    ensures Run(bs, Frees(one)) == Run(bs, Frees(other))
  {
    forall b | b in other ensures b in Live(bs) { assert b in Members(other); }
    FreesRemove(bs, one);
    FreesRemove(bs, other);
    Canonical(Run(bs, Frees(one)), Run(bs, Frees(other)), 0, HEAP_SIZE);
  }

  /** `kfree` directly after a `kmalloc` that succeeded restores the exact list. */
  lemma FreeUndoesMalloc(bs: seq<Block>, size: nat)
    requires WellFormed(bs) && 0 < size < WORD && FirstFit(bs, AlignUp(size)) < |bs|
    ensures var i := FirstFit(bs, AlignUp(size));
            var taken := AfterMalloc(bs, size);
            i < |taken| && taken[i] in Live(taken) && AfterFree(taken, taken[i]) == bs
  {
    var n := AlignUp(size);
    var i := FirstFit(bs, n);
    var taken := Take(bs, i, n);
    TakeWellFormed(bs, i, n);
    ReleaseUndoesTake(bs, i, n);
    TilesBounds(taken, 0, HEAP_SIZE);
    hide Tiles, Coalesced, Aligned, Take, Release;
    assert taken[i] in Live(taken);
    assert IndexOf(taken, taken[i]) == i;
  }
}
