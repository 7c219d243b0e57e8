/** kernel/heap.c: the allocator itself, working in place on the bytes of its arena. */
module Heap {
  import opened Bytes
  import opened HeapLayout
  import opened HeapMemory
  import opened HeapRuns
  import Memory

  /** The null pointer. */
  const NULL := 0

  class KernelHeap {
    /** The address of the arena, so that pointers are 32-bit numbers and none is null. */
    const base: nat
    const arena: array<Byte>
    /** The list head, null until `heap_init`. */
    var first: nat
    /** The list that the headers in the arena spell out. */
    ghost var blocks: seq<Block>

    ghost predicate Placed() {
      0 < base && base + HEAP_SIZE <= WORD && arena.Length == HEAP_SIZE
    }

    /** The headers form a linked list that tiles the arena. */
    ghost predicate Linked()
      reads this, arena
    {
      && Placed() && first == base
      && blocks != [] && Tiles(blocks, 0, HEAP_SIZE) && Aligned(blocks)
      && Encodes(arena[..], base, blocks, NULL)
    }

    /** Between calls: not initialised yet, or a coalesced list. */
    ghost predicate Valid()
      reads this, arena
    {
      if first == NULL then Placed() && blocks == [] else Linked() && Coalesced(blocks)
    }

    ghost function Contents(): (contents: map<Block, seq<Byte>>)
      requires Valid()
      reads this, arena
      ensures contents.Keys == Live(blocks)
    {
      assert Inside(arena[..], blocks) by {
        if blocks != [] { TilesBounds(blocks, 0, HEAP_SIZE); }
      }
      Payloads(arena[..], blocks)
    }

    ghost function Now(): Moment
      requires Valid()
      reads this, arena
    {
      Moment(blocks, Contents())
    }

    /** The pointer handed out for a block. */
    ghost function Pointer(b: Block): nat { base + b.off + HEADER }

    constructor (address: nat)
      requires 0 < address && address + HEAP_SIZE <= WORD
      ensures Valid() && first == NULL && base == address && fresh(arena)
    {
      base := address;
      arena := new Byte[HEAP_SIZE];
      first := NULL;
      blocks := [];
    }

    /** The bytes that a live pointer is good for are the contents of its block: they lie in the arena, and
        the header of its own or of any other block is not among them. */
    lemma PointerReaches(b: Block)
      requires Valid() && first != NULL && b in Live(blocks)
      ensures base + 12 <= Pointer(b) && Pointer(b) - base + b.size <= HEAP_SIZE
      ensures Contents()[b] == arena[Pointer(b) - base..Pointer(b) - base + b.size]
      ensures forall c | c in blocks ::
                c.off + 12 <= Pointer(b) - base || Pointer(b) - base + b.size <= c.off
    {
      hide Encodes, Tiles, Coalesced, Aligned;
      TilesBounds(blocks, 0, HEAP_SIZE);
      forall c | c in blocks
        ensures c.off + 12 <= Pointer(b) - base || Pointer(b) - base + b.size <= c.off
      {
        var i :| 0 <= i < |blocks| && blocks[i] == b;
        var j :| 0 <= j < |blocks| && blocks[j] == c;
      }
    }

    /** What two live pointers are good for does not overlap, and a header lies between. */
    lemma PointersApart(b: Block, c: Block)
      requires Valid() && first != NULL && b in Live(blocks) && c in Live(blocks) && b != c
      ensures Pointer(b) + b.size + 12 <= Pointer(c) || Pointer(c) + c.size + 12 <= Pointer(b)
    {
      hide Encodes, Tiles, Coalesced, Aligned;
      TilesBounds(blocks, 0, HEAP_SIZE);
      var i :| 0 <= i < |blocks| && blocks[i] == b;
      var j :| 0 <= j < |blocks| && blocks[j] == c;
    }

    // -------------------------------------------------------------------------
    // Words of the arena
    // -------------------------------------------------------------------------

    function Load(address: nat): nat
      requires Placed() && base <= address && address + 4 <= base + HEAP_SIZE
      reads arena
    {
      Word(arena[..], address - base)
    }

    method Store(address: nat, value: nat)
      requires Placed() && base <= address && address + 4 <= base + HEAP_SIZE && value < WORD
      modifies arena
      ensures Word(arena[..], address - base) == value
      ensures Agree(old(arena[..]), arena[..], 0, address - base)
      ensures Agree(old(arena[..]), arena[..], address - base + 4, HEAP_SIZE)
    {
      var o := address - base;
      var w := Word32(value);
      arena[o], arena[o + 1], arena[o + 2], arena[o + 3] := w[0], w[1], w[2], w[3];
    }

    /** Fills in a whole header. */
    method StoreHeader(address: nat, size: nat, free: bool, next: nat)
      requires Placed() && base <= address && address + HEADER <= base + HEAP_SIZE && size < WORD && next < WORD
      modifies arena
      ensures HeaderIs(arena[..], Block(address - base, size, free), next)
      ensures Agree(old(arena[..]), arena[..], 0, address - base)
      ensures Agree(old(arena[..]), arena[..], address - base + HEADER, HEAP_SIZE)
    {
      var o := address - base;
      Store(address, size);
      ghost var m1 := arena[..];
      Store(address + 4, if free then 1 else 0);
      ghost var m2 := arena[..];
      Store(address + 8, next);
      WordFrame(m1, arena[..], o);
      WordFrame(m2, arena[..], o + 4);
    }

    /** What the header of block `i` says, for walking the list. */
    lemma Header(i: nat)
      requires Linked() && i < |blocks|
      ensures blocks[i].End() <= HEAP_SIZE
      ensures HeaderIs(arena[..], blocks[i], Link(base, blocks[i + 1..], NULL))
      ensures i + 1 < |blocks| ==>
                Link(base, blocks[i + 1..], NULL) == base + blocks[i].End() == base + blocks[i + 1].off
      ensures i + 1 == |blocks| ==> Link(base, blocks[i + 1..], NULL) == NULL
    {
      TilesBounds(blocks, 0, HEAP_SIZE);
      HeaderAt(arena[..], base, blocks, NULL, i);
      OffAtNext(blocks, i, 0, HEAP_SIZE);
    }

    /** Reads the three header words of block `i`. */
    method Inspect(b: nat, ghost i: nat) returns (size: nat, free: bool, next: nat)
      requires Linked() && i < |blocks| && b == base + blocks[i].off
      ensures size == blocks[i].size && free == blocks[i].free
      ensures next == if i + 1 < |blocks| then base + blocks[i + 1].off else NULL
    {
      Header(i);
      size, free, next := Load(b), Load(b + 4) != 0, Load(b + 8);
    }

    // -------------------------------------------------------------------------
    // The interface
    // -------------------------------------------------------------------------

    method HeapInit()
      requires Valid()
      modifies this, arena
      ensures Valid() && first == base && blocks == INITIAL == [Block(0, 262132, true)]
      ensures Word(arena[..], 0) == 262132 && Word(arena[..], 4) == 1 && Word(arena[..], 8) == 0
    {
      first := base;
      StoreHeader(first, HEAP_SIZE - HEADER, true, NULL);
      blocks := INITIAL;
      InitialWellFormed();
      assert blocks[1..] == [];
    }

    /** Gives a block a new size and a new successor; its free flag stays. */
    method Relink(b: nat, size: nat, next: nat, ghost block: Block, ghost was: nat)
      requires Placed() && HeaderIs(arena[..], block, was) && b == base + block.off && size < WORD && next < WORD
      modifies arena
      ensures HeaderIs(arena[..], block.(size := size), next)
      ensures Agree(old(arena[..]), arena[..], 0, block.off)
      ensures Agree(old(arena[..]), arena[..], block.off + HEADER, HEAP_SIZE)
    {
      Store(b, size);
      ghost var m1 := arena[..];
      Store(b + 8, next);
      WordFrame(m1, arena[..], block.off);
      WordFrame(old(arena[..]), arena[..], block.off + 4);
    }

    /** `split` */
    method SplitBlock(b: nat, wanted: nat, ghost i: nat)
      requires Linked() && i < |blocks| && b == base + blocks[i].off && blocks[i].Fits(wanted) && wanted % 4 == 0
      modifies arena, `blocks
      ensures Linked() && Agree(old(arena[..]), arena[..], 0, old(blocks[i].off))
      ensures Agree(old(arena[..]), arena[..], old(blocks[i].End()), HEAP_SIZE)
      ensures blocks == old(blocks[..i]) + Split(old(blocks[i]), wanted) + old(blocks[i + 1..])
    {
      hide Word;
      Header(i);
      ghost var was, mem := blocks, arena[..];
      if Load(b) < wanted + HEADER + ALIGNMENT {
        assert blocks == blocks[..i] + [blocks[i]] + blocks[i + 1..];
        return;
      }
      var rest := b + HEADER + wanted;
      StoreHeader(rest, Load(b) - wanted - HEADER, true, Load(b + 8));
      ghost var m1 := arena[..];
      ghost var link := Link(base, was[i + 1..], NULL);
      HeaderFrame(mem, m1, was[i], link);
      Relink(b, wanted, rest, was[i], link);
      HeaderFrame(m1, arena[..], Block(rest - base, was[i].size - wanted - HEADER, true), link);
      blocks := was[..i] + Split(was[i], wanted) + was[i + 1..];
      SplitEncodes(mem, arena[..], base, was, i, wanted);
    }

    /** Sets the free flag of block `i`. */
    method Mark(b: nat, free: bool, ghost i: nat)
      requires Linked() && i < |blocks| && b == base + blocks[i].off
      modifies arena, `blocks
      ensures Linked() && blocks == old(blocks)[i := old(blocks)[i].(free := free)]
      ensures Agree(old(arena[..]), arena[..], 0, old(blocks[i].off))
      ensures Agree(old(arena[..]), arena[..], old(blocks[i].off) + HEADER, HEAP_SIZE)
    {
      hide Encodes, Tiles, Aligned, Word;
      Header(i);
      ghost var was, mem := blocks, arena[..];
      Store(b + 4, if free then 1 else 0);
      WordFrame(mem, arena[..], b - base);
      WordFrame(mem, arena[..], b - base + 8);
      blocks := was[i := was[i].(free := free)];
      MarkEncodes(mem, arena[..], base, was, i, free);
    }

    /** Walks the list and takes the first free block that is large enough.

        A null result means size zero, a heap that is not initialised, or no room: every stretch
        of the arena that could hold a header and the rounded size meets a live block. Any other
        result is a new live block; the contents of all others are as before. Its size is at least
        what was asked for exactly when `align_up` did not wrap. */
    method Kmalloc(size: nat) returns (p: nat)
      requires Valid() && size < WORD
      modifies arena, `blocks
      ensures Valid() && blocks == AfterMalloc(old(blocks), size)
      ensures first != NULL && size != 0 ==> (p != NULL <==> HasRoom(old(blocks), AlignUp(size)))
      ensures first == NULL || size == 0 ==> p == NULL
      ensures p == NULL ==> blocks == old(blocks) && arena[..] == old(arena[..])
      ensures p != NULL ==>
                var i := FirstFit(old(blocks), AlignUp(size));
                && i < |blocks| && i < |old(blocks)| && p == Pointer(blocks[i]) && blocks[i].off == old(blocks)[i].off
                && blocks[i] !in old(Contents()) && blocks[i] in Contents()
                && Contents() == old(Contents())[blocks[i] := Contents()[blocks[i]]]
                && (blocks[i].size >= size <==> size <= WORD - ALIGNMENT) && blocks[i].size < AlignUp(size) + 20
                && base + 12 <= p && p - base + blocks[i].size <= HEAP_SIZE
                && Contents()[blocks[i]] == arena[p - base..p - base + blocks[i].size]
    {
      hide Encodes, Tiles, Payloads, Live, HasRoom, Coalesced, Split, AlignUp, Aligned, FirstFit, Carve, Take;
      if size == 0 { return NULL; }
      var wanted := AlignUp(size);
      if first != NULL { FirstFitComplete(blocks, wanted); }
      var b := FindFit(wanted);
      if b == NULL { return NULL; }
      ghost var i := FirstFit(blocks, wanted);
      LargeEnough(blocks[i], size);
      p := Handout(b, wanted, i);
      PointerReaches(blocks[i]);
    }

    /** The loop of `kmalloc`: the address of the first block that fits, or null. */
    method FindFit(wanted: nat) returns (b: nat)
      requires Valid()
      ensures b == NULL <==> FirstFit(blocks, wanted) == |blocks|
      ensures b != NULL ==>
                var i := FirstFit(blocks, wanted);
                first != NULL && b == base + blocks[i].off && blocks[i].End() <= HEAP_SIZE
    {
      if first != NULL { TilesBounds(blocks, 0, HEAP_SIZE); }
      hide FirstFit, Encodes, Tiles, Aligned, Coalesced;
      b := first;
      ghost var i := 0;
      assert blocks[0..] == blocks;
      while b != NULL
        invariant i <= |blocks| && b == Link(base, blocks[i..], NULL)
        invariant forall j | 0 <= j < i :: !blocks[j].Fits(wanted)
        decreases |blocks| - i
      {
        var size, free, next := Inspect(b, i);
        if free && size >= wanted {
          FirstFitIs(blocks, wanted, i);
          return;
        }
        b := next;
        i := i + 1;
      }
      FirstFitIs(blocks, wanted, i);
    }

    /** The successful end of `kmalloc`. */
    method Handout(b: nat, wanted: nat, ghost i: nat) returns (p: nat)
      requires Valid() && first != NULL && i < |blocks| && b == base + blocks[i].off && blocks[i].Fits(wanted)
      requires wanted % 4 == 0
      modifies arena, `blocks
      ensures Valid() && blocks == Take(old(blocks), i, wanted)
      ensures i < |blocks| && blocks[i] == Carve(old(blocks)[i], wanted)[0] && p == Pointer(blocks[i])
      ensures blocks[i] !in old(Contents()) && blocks[i] in Contents()
      ensures Contents() == old(Contents())[blocks[i] := Contents()[blocks[i]]]
    {
      hide Encodes, HeaderIs, Split, Payload;
      ghost var was, mem := blocks, arena[..];
      Header(i);
      SplitBlock(b, wanted, i);
      Mark(b, false, i);
      assert blocks == Take(was, i, wanted);
      TakeWellFormed(was, i, wanted);
      OffAtNext(was, i, 0, HEAP_SIZE);
      PayloadsKept(mem, arena[..], was, i, i + 1);
      TilesBounds(blocks, 0, HEAP_SIZE);
      TakenContents(mem, arena[..], was, blocks, i);
      p := b + HEADER;
    }

    /** As `kmalloc`, with the bytes asked for cleared; products of 2^32 and more get nothing. Excluded
        are the calls that clear bytes behind their block. */
    method Kcalloc(count: nat, size: nat) returns (p: nat)
      requires Valid() && count < WORD && size < WORD
      requires CallocContained(count, size) || first == NULL || !HasRoom(blocks, AlignUp(count * size % WORD))
      modifies arena, `blocks
      ensures Valid() && blocks == AfterCalloc(old(blocks), count, size)
      ensures first == NULL || count * size == 0 || count * size >= WORD ==> p == NULL
      ensures first != NULL && 0 < count * size < WORD ==>
                (p != NULL <==> HasRoom(old(blocks), AlignUp(count * size)))
      ensures p == NULL ==> blocks == old(blocks) && arena[..] == old(arena[..])
      ensures p != NULL ==>
                var i := FirstFit(old(blocks), AlignUp(count * size));
                && i < |blocks| && i < |old(blocks)| && p == Pointer(blocks[i]) && blocks[i].off == old(blocks)[i].off
                && blocks[i] !in old(Contents()) && blocks[i] in Contents()
                && Contents() == old(Contents())[blocks[i] := Contents()[blocks[i]]]
                && Zeroed(Contents()[blocks[i]], count * size)
      ensures p != NULL ==>
                var bytes, total := Contents()[blocks[FirstFit(old(blocks), AlignUp(count * size))]], count * size;
                total <= |bytes| && forall k | 0 <= k < total :: bytes[k] == 0
    {
      hide Encodes, Tiles, Payloads, Zeroed, HasRoom, Coalesced, AlignUp, Aligned, Live, FirstFit, AfterMalloc;
      CallocRejectsOverflow(count, size);
      var total := count * size % WORD;
      if count != 0 && total / count != size { return NULL; }
      p := ZeroedBlock(total);
      if p != NULL { ZeroedBytes(Contents()[blocks[FirstFit(old(blocks), AlignUp(total))]], total); }
    }

    /** The part of `kcalloc` behind the overflow test. */
    method ZeroedBlock(total: nat) returns (p: nat)
      requires Valid() && total < WORD
      requires total <= WORD - ALIGNMENT || first == NULL || !HasRoom(blocks, AlignUp(total))
      modifies arena, `blocks
      ensures Valid() && blocks == AfterMalloc(old(blocks), total)
      ensures first == NULL || total == 0 ==> p == NULL
      ensures first != NULL && total != 0 ==> (p != NULL <==> HasRoom(old(blocks), AlignUp(total)))
      ensures p == NULL ==> blocks == old(blocks) && arena[..] == old(arena[..])
      ensures p != NULL ==>
                var i := FirstFit(old(blocks), AlignUp(total));
                && i < |blocks| && i < |old(blocks)| && p == Pointer(blocks[i]) && blocks[i].off == old(blocks)[i].off
                && blocks[i] !in old(Contents()) && blocks[i] in Contents()
                && Contents() == old(Contents())[blocks[i] := Contents()[blocks[i]]]
                && Zeroed(Contents()[blocks[i]], total)
    {
      hide Encodes, Tiles, Payload;
      p := Kmalloc(total);
      if p != NULL {
        ghost var i := FirstFit(old(blocks), AlignUp(total));
        Clear(p, total, i);
      }
    }

    /** `memset(p, 0, total)` on a block that was just handed out. */
    method Clear(p: nat, total: nat, ghost i: nat)
      requires Valid() && first != NULL && i < |blocks| && !blocks[i].free
      requires p == Pointer(blocks[i]) && total <= blocks[i].size
      modifies arena
      ensures Valid() && blocks[i] in Contents()
      ensures Contents() == old(Contents())[blocks[i] := Contents()[blocks[i]]]
      ensures Zeroed(Contents()[blocks[i]], total)
    {
      hide Encodes, HeaderIs;
      Header(i);
      ghost var mem := arena[..];
      Memory.Memset(arena, p - base, 0, total);
      PayloadWrite(mem, arena[..], base, blocks, i);
      ClearedContents(mem, arena[..], blocks, i, total);
    }

    /** The list in the arena becomes `Merge` of what it was, and no byte of a live block changes. */
    method Coalesce()
      requires Linked()
      modifies arena, `blocks
      ensures Linked() && blocks == Merge(old(blocks))
      ensures SamePayloads(old(arena[..]), arena[..], old(blocks), blocks)
    {
      hide Encodes, SamePayloads, Aligned, Tiles, Merge, FusedAt;
      SamePayloadsReflexive(arena[..], blocks);
      FirstAtZero(blocks);
      var b := first;
      ghost var i := 0;
      assert blocks[..0] == [] && blocks[0..] == blocks;
      var size, free, next := Inspect(b, i);
      while next != NULL
        invariant Linked() && i < |blocks| && b == base + blocks[i].off
        invariant free == blocks[i].free && next == if i + 1 < |blocks| then base + blocks[i + 1].off else NULL
        invariant blocks[..i] + Merge(blocks[i..]) == Merge(old(blocks))
        invariant SamePayloads(old(arena[..]), arena[..], old(blocks), blocks)
        decreases |blocks| - i
      {
        var _, nextFree, _ := Inspect(next, i + 1);
        if free && nextFree {
          ghost var was, mem := blocks, arena[..];
          MergeStep(was, i);
          FuseNext(b, next, i);
          SamePayloadsTransitive(old(arena[..]), mem, arena[..], old(blocks), was, blocks);
        } else {
          MergeSkip(blocks, i);
          b := next;
          i := i + 1;
        }
        size, free, next := Inspect(b, i);
      }
      MergeLast(blocks, i);
    }

    /** The merging branch: block `i` absorbs its free successor. */
    method FuseNext(b: nat, next: nat, ghost i: nat)
      requires Linked() && i + 1 < |blocks| && b == base + blocks[i].off && next == base + blocks[i + 1].off
      requires blocks[i].free && blocks[i + 1].free
      modifies arena, `blocks
      ensures Linked() && blocks == FusedAt(old(blocks), i)
      ensures |blocks| == |old(blocks)| - 1 && blocks[i].off == old(blocks)[i].off
      ensures SamePayloads(old(arena[..]), arena[..], old(blocks), blocks)
    {
      hide Encodes, Tiles, Aligned, SamePayloads, Word;
      ghost var was, mem := blocks, arena[..];
      Header(i);
      Header(i + 1);
      Relink(b, Load(b) + HEADER + Load(next), Load(next + 8), was[i], Link(base, was[i + 1..], NULL));
      blocks := FusedAt(was, i);
      FuseEncodes(mem, arena[..], base, was, i);
    }

    /** Takes exactly the block of a live pointer out of the contents; null changes no byte. */
    method Kfree(pointer: nat)
      requires Valid()
      requires pointer != NULL ==> exists b :: b in Live(blocks) && pointer == Pointer(b)
      modifies arena, `blocks
      ensures Valid()
      ensures pointer == NULL ==> blocks == old(blocks) && arena[..] == old(arena[..])
      ensures forall b | b in Live(old(blocks)) && pointer == Pointer(b) ::
                blocks == AfterFree(old(blocks), b) && Contents() == old(Contents()) - {b}
    {
      if pointer == NULL { return; }
      ghost var victim :| victim in Live(blocks) && pointer == Pointer(victim);
      ghost var i := IndexOf(blocks, victim);
      TilesBounds(blocks, 0, HEAP_SIZE);
      assert forall b | b in Live(blocks) && pointer == Pointer(b) :: b == victim;
      FreeBlock(pointer - HEADER, i);
    }

    /** The part of `kfree` behind the null test, on the header `b` of block `i`. */
    method FreeBlock(b: nat, ghost i: nat)
      requires Valid() && i < |blocks| && !blocks[i].free && b == base + blocks[i].off
      modifies arena, `blocks
      ensures Valid() && blocks == Release(old(blocks), i)
      ensures Contents() == old(Contents()) - {old(blocks)[i]}
    {
      ghost var was, mem := blocks, arena[..];
      Header(i);
      Mark(b, true, i);
      ghost var marked := blocks;
      OffAtNext(marked, i, 0, HEAP_SIZE);
      PayloadsKept(mem, arena[..], marked, i, i + 1);
      assert SamePayloads(mem, arena[..], marked, marked);
      Coalesce();
      ReleaseWellFormed(was, i);
      TilesBounds(was, 0, HEAP_SIZE);
      TilesBounds(blocks, 0, HEAP_SIZE);
      FreedContents(mem, arena[..], was, blocks, i);
    }

    /** Any sequence of calls and stores does to the arena what it does to the list. The trace has the list
        and the contents of all live blocks before each call and at the end, and every call takes one
        moment to the next: a store changes its byte, `kcalloc` hands out cleared bytes, and all other bytes
        of blocks that stay live are kept. */
    method Replay(calls: seq<Call>) returns (ghost trace: seq<Moment>)
      requires Valid() && first != NULL && LegalRun(blocks, calls)
      modifies arena, `blocks
      ensures Valid() && blocks == Run(old(blocks), calls)
      ensures |trace| == |calls| + 1
      ensures trace[0] == old(Now()) && trace[|calls|] == Now()
      ensures forall k | 0 <= k < |calls| :: Follows(trace[k], calls[k], trace[k + 1])
      ensures forall b | b in old(Contents()) && Call.Kfree(b) !in calls ::
                b in Contents() && Contents()[b] == Pokes(old(Contents())[b], b, calls)
      decreases |calls|
    {
      hide Follows, Legal, After, Encodes, Tiles, Coalesced, Aligned, Payloads, Live;
      trace := [Now()];
      if calls == [] { return; }
      Perform(calls[0]);
      ghost var rest := Replay(calls[1..]);
      trace := trace + rest;
      KeptFromStart(trace, calls);
    }

    method Perform(call: Call)
      requires Valid() && first != NULL && Legal(blocks, call)
      modifies arena, `blocks
      ensures Valid() && blocks == After(old(blocks), call)
      ensures Follows(old(Now()), call, Now())
    {
      hide Follows, Encodes, Tiles, Coalesced, Aligned, Payloads, Live, AfterMalloc, AfterFree, Zeroed, Poked, HasRoom;
      ghost var was := Now();
      match call {
        case Kmalloc(size) =>
          var p := Kmalloc(size);
          if p == NULL { SameFollows(was, call, Now()); }
          else { TakeFollows(was, call, Now(), blocks[FirstFit(was.blocks, AlignUp(size))]); }
        case Kcalloc(count, size) =>
          var p := Kcalloc(count, size);
          if p == NULL { SameFollows(was, call, Now()); }
          else { TakeFollows(was, call, Now(), blocks[FirstFit(was.blocks, AlignUp(count * size))]); }
        case Kfree(b) =>
          assert base + b.off + HEADER == Pointer(b);
          Kfree(base + b.off + HEADER);
          FreeFollows(was, b, Now());
        case Poke(b, index, value) =>
          ClientStore(base + b.off + HEADER, b, index, value);
          StoreFollows(was, call, Now());
      }
    }

    /** A caller's store through the pointer it was given. */
    method ClientStore(p: nat, ghost b: Block, index: nat, value: Byte)
      requires Valid() && first != NULL && b in Live(blocks) && p == Pointer(b) && index < b.size
      modifies arena
      ensures Valid() && b in old(Contents())
      ensures base <= p && p - base + index < HEAP_SIZE && arena[..] == old(arena[..])[p - base + index := value]
      ensures Contents() == old(Contents())[b := Poked(old(Contents())[b], b, Poke(b, index, value))]
    {
      hide Encodes, HeaderIs, Tiles, Aligned, Coalesced, Payload, Poked;
      ghost var mem, i := arena[..], IndexOf(blocks, b);
      TilesBounds(blocks, 0, HEAP_SIZE);
      arena[p - base + index] := value;
      PayloadWrite(mem, arena[..], base, blocks, i);
      OtherPayloadsKept(mem, arena[..], blocks, i);
      WrittenContents(mem, arena[..], blocks, i);
      PokedPayload(mem, arena[..], b, index, value);
    }

    /** Bytes in use, bytes free and number of blocks; together with the headers they make
        up the whole arena. */
    method HeapStats() returns (used: nat, available: nat, count: nat)
      requires Valid()
      ensures used == Total(blocks, false) && available == Total(blocks, true) && count == |blocks|
      ensures first != NULL ==> used + available + HEADER * count == HEAP_SIZE
    {
      used, available, count := 0, 0, 0;
      if first != NULL { BytesConserved(blocks, 0, HEAP_SIZE); }
      var b := first;
      assert blocks[0..] == blocks;
      while b != NULL
        invariant count <= |blocks| && b == Link(base, blocks[count..], NULL)
        invariant used + Total(blocks[count..], false) == Total(blocks, false)
        invariant available + Total(blocks[count..], true) == Total(blocks, true)
        decreases |blocks| - count
      {
        var size, free, next := Inspect(b, count);
        assert blocks[count..][0] == blocks[count] && blocks[count..][1..] == blocks[count + 1..];
        if free { available := available + size; }
        else { used := used + size; }
        b := next;
        count := count + 1;
      }
    }
  }

  /** The block cut off for a size is large enough exactly when `align_up` did not wrap. */
  lemma LargeEnough(b: Block, size: nat)
    requires 0 < size < WORD && b.Fits(AlignUp(size)) && b.End() <= HEAP_SIZE
    ensures Carve(b, AlignUp(size))[0].size >= size <==> size <= WORD - ALIGNMENT
  {
    AlignUpRounds(size);
  }

  // ---------------------------------------------------------------------------
  // Steps of the proofs above
  // ---------------------------------------------------------------------------

  /** The same blocks are live, with the same contents. */
  ghost predicate SamePayloads(mem: seq<Byte>, mem': seq<Byte>, bs: seq<Block>, bs': seq<Block>) {
    && Live(bs) == Live(bs') && |mem| == |mem'|
    && forall b | b in Live(bs) :: b.End() <= |mem| && Payload(mem', b) == Payload(mem, b)
  }

  lemma SamePayloadsReflexive(mem: seq<Byte>, bs: seq<Block>)
    requires |mem| == HEAP_SIZE && Tiles(bs, 0, HEAP_SIZE)
    ensures SamePayloads(mem, mem, bs, bs)
  {
    TilesBounds(bs, 0, HEAP_SIZE);
  }

  lemma FirstAtZero(bs: seq<Block>)
    requires bs != [] && Tiles(bs, 0, HEAP_SIZE)
    ensures bs[0].off == 0
  {
  }

  lemma SamePayloadsTransitive(m1: seq<Byte>, m2: seq<Byte>, m3: seq<Byte>,
                               b1: seq<Block>, b2: seq<Block>, b3: seq<Block>)
    requires SamePayloads(m1, m2, b1, b2) && SamePayloads(m2, m3, b2, b3)
    ensures SamePayloads(m1, m3, b1, b3)
  {
  }

  lemma TakenContents(mem: seq<Byte>, mem': seq<Byte>, bs: seq<Block>, bs': seq<Block>, i: nat)
    requires Inside(mem, bs) && Inside(mem', bs') && |mem| == |mem'| && i < |bs'|
    requires Live(bs') == Live(bs) + {bs'[i]}
    requires forall b | b in Live(bs) :: Payload(mem', b) == Payload(mem, b)
    ensures bs'[i] in Payloads(mem', bs')
    ensures Payloads(mem', bs') == Payloads(mem, bs)[bs'[i] := Payloads(mem', bs')[bs'[i]]]
  {
  }

  lemma ClearedPayload(mem: seq<Byte>, b: Block, total: nat)
    requires b.End() <= |mem| && total <= b.size
    requires forall k | b.off + HEADER <= k < b.off + HEADER + total :: mem[k] == 0
    ensures Zeroed(Payload(mem, b), total)
  {
  }

  lemma ZeroedBytes(s: seq<Byte>, total: nat)
    requires Zeroed(s, total)
    ensures total <= |s| && forall k | 0 <= k < total :: s[k] == 0
  {
  }

  lemma PokedPayload(mem: seq<Byte>, mem': seq<Byte>, b: Block, index: nat, value: Byte)
    requires b.End() <= |mem| && index < b.size && mem' == mem[b.off + HEADER + index := value]
    ensures Payload(mem', b) == Poked(Payload(mem, b), b, Poke(b, index, value))
  {
  }

  lemma ClearedContents(mem: seq<Byte>, mem': seq<Byte>, bs: seq<Block>, i: nat, total: nat)
    requires |mem| == HEAP_SIZE && Tiles(bs, 0, HEAP_SIZE) && i < |bs| && !bs[i].free && total <= bs[i].size
    requires Agree(mem, mem', 0, bs[i].off + HEADER) && Agree(mem, mem', bs[i].off + HEADER + total, HEAP_SIZE)
    requires forall k | bs[i].off + HEADER <= k < bs[i].off + HEADER + total && k < |mem'| :: mem'[k] == 0
    ensures Inside(mem, bs) && bs[i] in Payloads(mem', bs)
    ensures Payloads(mem', bs) == Payloads(mem, bs)[bs[i] := Payloads(mem', bs)[bs[i]]]
    ensures Zeroed(Payloads(mem', bs)[bs[i]], total)
  {
    hide Tiles, Zeroed, Payload, Live;
    TilesBounds(bs, 0, HEAP_SIZE);
    ClearedPayload(mem', bs[i], total);
    OtherPayloadsKept(mem, mem', bs, i);
    WrittenContents(mem, mem', bs, i);
  }

  lemma WrittenContents(mem: seq<Byte>, mem': seq<Byte>, bs: seq<Block>, i: nat)
    requires Inside(mem, bs) && |mem| == |mem'| && i < |bs| && !bs[i].free
    requires forall b | b in Live(bs) && b != bs[i] :: Payload(mem', b) == Payload(mem, b)
    ensures bs[i] in Payloads(mem', bs) && Payloads(mem', bs)[bs[i]] == Payload(mem', bs[i])
    ensures Payloads(mem', bs) == Payloads(mem, bs)[bs[i] := Payloads(mem', bs)[bs[i]]]
  {
  }

  lemma FreedContents(mem: seq<Byte>, mem': seq<Byte>, bs: seq<Block>, bs': seq<Block>, i: nat)
    requires Inside(mem, bs) && Inside(mem', bs') && |mem| == |mem'| && i < |bs|
    requires Live(bs') == Live(bs) - {bs[i]}
    requires forall b | b in Live(bs') :: Payload(mem', b) == Payload(mem, b)
    ensures Payloads(mem', bs') == Payloads(mem, bs) - {bs[i]}
  {
  }

  ghost function FusedAt(bs: seq<Block>, i: nat): seq<Block>
    requires i + 1 < |bs|
  {
    bs[..i] + [Fuse(bs[i], bs[i + 1])] + bs[i + 2..]
  }

  lemma MergeStep(bs: seq<Block>, i: nat)
    requires i + 1 < |bs| && bs[i].free && bs[i + 1].free
    ensures var bs' := FusedAt(bs, i);
            bs'[..i] + Merge(bs'[i..]) == bs[..i] + Merge(bs[i..])
  {
    var bs' := FusedAt(bs, i);
    assert bs'[..i] == bs[..i];
    assert bs'[i..] == [Fuse(bs[i], bs[i + 1])] + bs[i..][2..];
  }

  lemma MergeLast(bs: seq<Block>, i: nat)
    requires i + 1 == |bs|
    ensures bs[..i] + Merge(bs[i..]) == bs
  {
  }

  lemma MergeSkip(bs: seq<Block>, i: nat)
    requires i + 1 < |bs| && !(bs[i].free && bs[i + 1].free)
    ensures bs[..i + 1] + Merge(bs[i + 1..]) == bs[..i] + Merge(bs[i..])
  {
  }

  /** Relinking block `i` past its free successor in memory is fusing the two in the list. */
  lemma FuseEncodes(mem: seq<Byte>, mem': seq<Byte>, base: nat, bs: seq<Block>, i: nat)
    requires |mem| == HEAP_SIZE && Tiles(bs, 0, HEAP_SIZE) && Encodes(mem, base, bs, NULL) && Aligned(bs)
    requires i + 1 < |bs| && bs[i].free && bs[i + 1].free
    requires Agree(mem, mem', 0, bs[i].off) && Agree(mem, mem', bs[i].off + HEADER, HEAP_SIZE)
    requires HeaderIs(mem', Fuse(bs[i], bs[i + 1]), Link(base, bs[i + 2..], NULL))
    ensures var bs' := FusedAt(bs, i);
            && Tiles(bs', 0, HEAP_SIZE) && Encodes(mem', base, bs', NULL) && Aligned(bs')
            && SamePayloads(mem, mem', bs, bs')
  {
    hide Encodes, HeaderIs, Word, Payload;
    var mid := [Fuse(bs[i], bs[i + 1])];
    OneEncodes(mem', base, mid[0], Link(base, bs[i + 2..], NULL));
    OffAtNext(bs, i, 0, HEAP_SIZE);
    OffAtNext(bs, i + 1, 0, HEAP_SIZE);
    EncodesSplice(mem, mem', base, bs, i, i + 2, mid);
    TilesSplice(bs, i, i + 2, mid, 0, HEAP_SIZE);
    FuseAligned(bs, i);
    AlignedSplice(bs, i, i + 2, mid);
    FuseLive(bs, i);
    PayloadsKept(mem, mem', bs, i, i + 2);
  }

  lemma FuseLive(bs: seq<Block>, i: nat)
    requires i + 1 < |bs| && bs[i].free && bs[i + 1].free
    ensures Live(FusedAt(bs, i)) == Live(bs)
  {
  }

  /** Writing into the payload of one block does not disturb the list. */
  lemma PayloadWrite(mem: seq<Byte>, mem': seq<Byte>, base: nat, bs: seq<Block>, i: nat)
    requires |mem| == HEAP_SIZE && Tiles(bs, 0, HEAP_SIZE) && Encodes(mem, base, bs, NULL)
    requires i < |bs| && Agree(mem, mem', 0, bs[i].off + HEADER) && Agree(mem, mem', bs[i].End(), HEAP_SIZE)
    ensures Encodes(mem', base, bs, NULL)
  {
    hide Encodes, HeaderIs, Word;
    TilesBounds(bs, 0, HEAP_SIZE);
    HeaderAt(mem, base, bs, NULL, i);
    HeaderFrame(mem, mem', bs[i], Link(base, bs[i + 1..], NULL));
    OneEncodes(mem', base, bs[i], Link(base, bs[i + 1..], NULL));
    OffAtNext(bs, i, 0, HEAP_SIZE);
    EncodesSplice(mem, mem', base, bs, i, i + 1, [bs[i]]);
    assert bs == bs[..i] + [bs[i]] + bs[i + 1..];
  }

  /** Rewriting the free flag of block `i` in memory is rewriting it in the list. */
  lemma MarkEncodes(mem: seq<Byte>, mem': seq<Byte>, base: nat, bs: seq<Block>, i: nat, free: bool)
    requires |mem| == HEAP_SIZE && Tiles(bs, 0, HEAP_SIZE) && Encodes(mem, base, bs, NULL) && Aligned(bs)
    requires i < |bs|
    requires Agree(mem, mem', 0, bs[i].off) && Agree(mem, mem', bs[i].off + HEADER, HEAP_SIZE)
    requires HeaderIs(mem', bs[i].(free := free), Link(base, bs[i + 1..], NULL))
    ensures var bs' := bs[i := bs[i].(free := free)];
            Tiles(bs', 0, HEAP_SIZE) && Encodes(mem', base, bs', NULL) && Aligned(bs')
  {
    hide Encodes, HeaderIs, Word;
    var b := bs[i].(free := free);
    OneEncodes(mem', base, b, Link(base, bs[i + 1..], NULL));
    assert bs[i := b] == bs[..i] + [b] + bs[i + 1..];
    assert bs[i] in bs;
    OffAtNext(bs, i, 0, HEAP_SIZE);
    EncodesSplice(mem, mem', base, bs, i, i + 1, [b]);
    TilesSplice(bs, i, i + 1, [b], 0, HEAP_SIZE);
    AlignedSplice(bs, i, i + 1, [b]);
  }

  lemma OneEncodes(mem: seq<Byte>, base: nat, b: Block, next: nat)
    requires HeaderIs(mem, b, next)
    ensures Encodes(mem, base, [b], next)
  {
    assert [b][1..] == [];
  }

  lemma HeaderFrame(mem: seq<Byte>, mem': seq<Byte>, b: Block, next: nat)
    requires HeaderIs(mem, b, next) && Agree(mem, mem', b.off, b.off + HEADER)
    ensures HeaderIs(mem', b, next)
  {
  }

  /** The five header words that `split` writes turn the list into the one with block `i` cut in two. */
  lemma SplitEncodes(mem: seq<Byte>, mem': seq<Byte>, base: nat, bs: seq<Block>, i: nat, wanted: nat)
    requires |mem| == HEAP_SIZE && Tiles(bs, 0, HEAP_SIZE) && Encodes(mem, base, bs, NULL) && Aligned(bs)
    requires i < |bs| && bs[i].Fits(wanted) && wanted % 4 == 0 && |Split(bs[i], wanted)| == 2
    requires Agree(mem, mem', 0, bs[i].off) && Agree(mem, mem', bs[i].End(), HEAP_SIZE)
    requires HeaderIs(mem', Split(bs[i], wanted)[0], base + bs[i].off + HEADER + wanted)
    requires HeaderIs(mem', Split(bs[i], wanted)[1], Link(base, bs[i + 1..], NULL))
    ensures var bs' := bs[..i] + Split(bs[i], wanted) + bs[i + 1..];
            Tiles(bs', 0, HEAP_SIZE) && Encodes(mem', base, bs', NULL) && Aligned(bs')
  {
    var halves := Split(bs[i], wanted);
    assert halves[1..] == [halves[1]] && halves[1..][1..] == [];
    OffAtNext(bs, i, 0, HEAP_SIZE);
    assert Encodes(mem', base, halves[1..], Link(base, bs[i + 1..], NULL));
    EncodesSplice(mem, mem', base, bs, i, i + 1, halves);
    TilesSplice(bs, i, i + 1, halves, 0, HEAP_SIZE);
    SplitAligned(bs, i, wanted);
    AlignedSplice(bs, i, i + 1, halves);
  }
}
