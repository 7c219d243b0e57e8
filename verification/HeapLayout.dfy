/** The block list of the kernel heap as a value: what `split`, `kmalloc`, `coalesce` and
    `kfree` do to it, and why the list is determined by the live blocks alone. */
module HeapLayout {
  import opened Bytes

  const HEAP_SIZE := 256 * 1024
  const ALIGNMENT := 8
  /** sizeof(struct block) on the 32-bit target: size, free and next. */
  const HEADER := 12

  /** A block: its header starts `off` bytes into the arena and `size` usable bytes follow it. */
  datatype Block = Block(off: nat, size: nat, free: bool) {
    function End(): nat { off + HEADER + size }
    predicate Fits(n: nat) { free && size >= n }
  }

  // ---------------------------------------------------------------------------
  // Tiling
  // ---------------------------------------------------------------------------

  /** The blocks cover `[start, end)` exactly, in address order, without gap or overlap. */
  ghost predicate Tiles(bs: seq<Block>, start: nat, end: nat) {
    if bs == [] then start == end
    else bs[0].off == start && Tiles(bs[1..], bs[0].End(), end)
  }

  /** Where the blocks from index `i` on begin. */
  ghost function OffAt(bs: seq<Block>, i: nat, end: nat): nat
    requires i <= |bs|
  {
    if i < |bs| then bs[i].off else end
  }

  lemma {:induction false} TilesCut(bs: seq<Block>, i: nat, start: nat, end: nat)
    requires Tiles(bs, start, end) && i <= |bs|
    ensures start <= OffAt(bs, i, end) <= end
    ensures Tiles(bs[..i], start, OffAt(bs, i, end)) && Tiles(bs[i..], OffAt(bs, i, end), end)
    decreases |bs|
  {
    if bs == [] {
    } else if i == 0 {
      TilesCut(bs[1..], 0, bs[0].End(), end);
      assert bs[0..] == bs;
    } else {
      TilesCut(bs[1..], i - 1, bs[0].End(), end);
      assert bs[1..][..i - 1] == bs[..i][1..];
      assert bs[1..][i - 1..] == bs[i..];
    }
  }

  lemma {:induction false} TilesJoin(a: seq<Block>, b: seq<Block>, start: nat, mid: nat, end: nat)
    requires Tiles(a, start, mid) && Tiles(b, mid, end)
    ensures Tiles(a + b, start, end)
    decreases |a|
  {
    if a == [] {
      assert a + b == b;
    } else {
      TilesJoin(a[1..], b, a[0].End(), mid, end);
      assert (a + b)[1..] == a[1..] + b;
    }
  }

  /** Replacing the blocks `i..k` by others that tile the same stretch keeps the tiling. */
  lemma TilesSplice(bs: seq<Block>, i: nat, k: nat, mid: seq<Block>, start: nat, end: nat)
    requires Tiles(bs, start, end) && i <= k <= |bs|
    requires Tiles(mid, OffAt(bs, i, end), OffAt(bs, k, end))
    ensures Tiles(bs[..i] + mid + bs[k..], start, end)
  {
    TilesCut(bs, i, start, end);
    TilesCut(bs, k, start, end);
    TilesJoin(bs[..i], mid, start, OffAt(bs, i, end), OffAt(bs, k, end));
    TilesJoin(bs[..i] + mid, bs[k..], start, OffAt(bs, k, end), end);
  }

  /** Every block of a tiling lies inside the stretch, and earlier blocks end before later ones begin. */
  lemma {:induction false} TilesBounds(bs: seq<Block>, start: nat, end: nat)
    requires Tiles(bs, start, end)
    ensures start <= end
    ensures forall i | 0 <= i < |bs| :: start <= bs[i].off && bs[i].End() <= end
    ensures forall i, j | 0 <= i < j < |bs| :: bs[i].End() <= bs[j].off
  {
    if bs != [] {
      TilesBounds(bs[1..], bs[0].End(), end);
      assert forall i | 1 <= i < |bs| :: bs[i] == bs[1..][i - 1];
    }
  }

  // ---------------------------------------------------------------------------
  // The well-formed lists
  // ---------------------------------------------------------------------------

  /** No two neighbours are both free. */
  ghost predicate Coalesced(bs: seq<Block>) {
    |bs| > 1 ==> !(bs[0].free && bs[1].free) && Coalesced(bs[1..])
  }

  ghost predicate Aligned(bs: seq<Block>) {
    forall b | b in bs :: b.off % 4 == 0 && b.size % 4 == 0
  }

  ghost predicate WellFormed(bs: seq<Block>) {
    Tiles(bs, 0, HEAP_SIZE) && Coalesced(bs) && Aligned(bs)
  }

  /** The blocks that have been handed out and not given back. */
  ghost function Live(bs: seq<Block>): set<Block> {
    set b | b in bs && !b.free
  }

  lemma LiveConcat(a: seq<Block>, b: seq<Block>)
    ensures Live(a + b) == Live(a) + Live(b)
  {
  }

  lemma {:induction false} CoalescedCut(bs: seq<Block>, i: nat)
    requires Coalesced(bs) && i <= |bs|
    ensures Coalesced(bs[..i]) && Coalesced(bs[i..])
    ensures 0 < i < |bs| ==> !(bs[i - 1].free && bs[i].free)
    decreases |bs|
  {
    if i == 0 {
      assert bs[0..] == bs;
    } else if bs == [] {
    } else {
      CoalescedCut(bs[1..], i - 1);
      assert bs[1..][..i - 1] == bs[..i][1..];
      assert bs[1..][i - 1..] == bs[i..];
    }
  }

  lemma {:induction false} CoalescedJoin(a: seq<Block>, b: seq<Block>)
    requires Coalesced(a) && Coalesced(b)
    requires a != [] && b != [] ==> !(a[|a| - 1].free && b[0].free)
    ensures Coalesced(a + b)
    decreases |a|
  {
    if a == [] {
      assert a + b == b;
    } else {
      CoalescedJoin(a[1..], b);
      assert (a + b)[1..] == a[1..] + b;
    }
  }

  // ---------------------------------------------------------------------------
  // The list is a function of the live blocks
  // ---------------------------------------------------------------------------

  /** Two coalesced tilings of the same stretch with the same live blocks are the same list. */
  lemma {:induction false} Canonical(a: seq<Block>, b: seq<Block>, start: nat, end: nat)
    requires Tiles(a, start, end) && Tiles(b, start, end)
    requires Coalesced(a) && Coalesced(b)
    requires Live(a) == Live(b)
    ensures a == b
    decreases |a|
  {
    TilesBounds(a, start, end);
    TilesBounds(b, start, end);
    if a == [] || b == [] {
      assert a == [] && b == [];
    } else {
      SameHead(a, b, start, end);
      assert Live(a[1..]) == Live(b[1..]) by {
        TailLive(a, start, end);
        TailLive(b, start, end);
      }
      Canonical(a[1..], b[1..], a[0].End(), end);
      assert a == [a[0]] + a[1..] && b == [b[0]] + b[1..];
    }
  }

  lemma SameHead(a: seq<Block>, b: seq<Block>, start: nat, end: nat)
    requires Tiles(a, start, end) && Tiles(b, start, end) && a != [] && b != []
    requires Coalesced(a) && Coalesced(b)
    requires Live(a) == Live(b)
    ensures a[0] == b[0]
  {
    TilesBounds(a, start, end);
    TilesBounds(b, start, end);
    if !a[0].free {
      assert a[0] in Live(b);
    } else if !b[0].free {
      assert b[0] in Live(a);
    } else {
      if |a| > 1 { assert a[1] == a[1..][0] && a[1].off == a[0].End() && a[1] in Live(b); }
      if |b| > 1 { assert b[1] == b[1..][0] && b[1].off == b[0].End() && b[1] in Live(a); }
    }
  }

  lemma TailLive(bs: seq<Block>, start: nat, end: nat)
    requires Tiles(bs, start, end) && bs != []
    ensures Live(bs[1..]) == Live(bs) - {bs[0]}
  {
    TilesBounds(bs, start, end);
    assert forall x | x in bs[1..] :: exists i | 1 <= i < |bs| :: bs[i] == x;
    assert forall x | x in bs && x != bs[0] :: x in bs[1..];
  }

  // ---------------------------------------------------------------------------
  // Allocation
  // ---------------------------------------------------------------------------

  /** `align_up`, with the wrap-around of 32-bit addition: the sum is reduced modulo 2^32
      and its three low bits are cleared. */
  function AlignUp(value: nat): (r: nat)
    requires value < WORD
    ensures r < WORD && r % ALIGNMENT == 0
  {
    var sum := (value + (ALIGNMENT - 1)) % WORD;
    sum - sum % ALIGNMENT
  }

  /** The result is the least multiple of 8 that is no smaller, if and only if the size is at most
      2^32 - 8; for every larger size it is zero. */
  lemma AlignUpRounds(value: nat)
    requires value < WORD
    ensures value <= AlignUp(value) < value + 8 <==> value <= 0x1_0000_0000 - 8
    ensures value > 0x1_0000_0000 - 8 ==> AlignUp(value) == 0
    ensures AlignUp(value) % 8 == 0
  {
  }

  /** The index of the first block that can hold `n` bytes, or the length of the list. */
  function FirstFit(bs: seq<Block>, n: nat): (i: nat)
    ensures i <= |bs|
    ensures i < |bs| ==> bs[i].Fits(n)
    ensures forall j | 0 <= j < i :: !bs[j].Fits(n)
  {
    if bs == [] then 0
    else if bs[0].Fits(n) then 0
    else
      var k := FirstFit(bs[1..], n);
      assert forall j | 1 <= j < 1 + k :: bs[j] == bs[1..][j - 1];
      1 + k
  }

  /** A search that stopped at `i` has found the first fit. */
  lemma FirstFitIs(bs: seq<Block>, n: nat, i: nat)
    requires i <= |bs| && forall j | 0 <= j < i :: !bs[j].Fits(n)
    requires i < |bs| ==> bs[i].Fits(n)
    ensures FirstFit(bs, n) == i
  {
    hide FirstFit;
  }

  /** What `split` makes of a free block from which `n` bytes are wanted: the remainder
      becomes a block of its own when it can hold a header and 8 more bytes. */
  function Split(b: Block, n: nat): (s: seq<Block>)
    requires b.Fits(n)
    ensures s != [] && s[0].off == b.off && s[0].Fits(n) && s[0].size < n + 20
    ensures |s| > 1 ==> |s| == 2 && s[0].size == n && s[1].free && s[1].size >= 8
    ensures Tiles(s, b.off, b.End())
  {
    if b.size < n + HEADER + ALIGNMENT then [b]
    else
      var halves := [b.(size := n), Block(b.off + HEADER + n, b.size - n - HEADER, true)];
      assert halves[1..] == [halves[1]];
      halves
  }

  /** `kmalloc` hands out the first part. */
  function Carve(b: Block, n: nat): (s: seq<Block>)
    requires b.Fits(n)
    ensures |s| == |Split(b, n)| && s[0] == Split(b, n)[0].(free := false)
    ensures Tiles(s, b.off, b.End())
  {
    var halves := Split(b, n);
    var s := halves[0 := halves[0].(free := false)];
    assert s[1..] == halves[1..];
    s
  }

  function Take(bs: seq<Block>, i: nat, n: nat): seq<Block>
    requires i < |bs| && bs[i].Fits(n)
  {
    bs[..i] + Carve(bs[i], n) + bs[i + 1..]
  }

  lemma OffAtNext(bs: seq<Block>, i: nat, start: nat, end: nat)
    requires Tiles(bs, start, end) && i < |bs|
    ensures OffAt(bs, i + 1, end) == bs[i].End()
  {
    TilesCut(bs, i, start, end);
    assert bs[i..][0] == bs[i] && bs[i..][1..] == bs[i + 1..];
    if i + 1 < |bs| { assert bs[i + 1..][0] == bs[i + 1]; }
  }

  lemma LiveSplice(bs: seq<Block>, i: nat, mid: seq<Block>)
    requires i < |bs|
    ensures Live(bs[..i] + mid + bs[i + 1..]) == Live(bs[..i]) + Live(mid) + Live(bs[i + 1..])
    ensures Live(bs) == Live(bs[..i]) + Live([bs[i]]) + Live(bs[i + 1..])
  {
  }

  lemma SplitAligned(bs: seq<Block>, i: nat, n: nat)
    requires Aligned(bs) && i < |bs| && bs[i].Fits(n) && n % 4 == 0
    ensures Aligned(Split(bs[i], n)) && Aligned(Carve(bs[i], n))
  {
    var b := bs[i];
    assert b in bs && b.off % 4 == 0 && b.size % 4 == 0;
    assert (b.off + HEADER + n) % 4 == 0 && (b.size - n - HEADER) % 4 == 0;
    hide Tiles;
  }

  lemma AlignedSplice(bs: seq<Block>, i: nat, k: nat, mid: seq<Block>)
    requires Aligned(bs) && Aligned(mid) && i <= k <= |bs|
    ensures Aligned(bs[..i] + mid + bs[k..])
  {
  }

  /** Taking a block keeps the list well formed and makes exactly one more block live. */
  lemma TakeWellFormed(bs: seq<Block>, i: nat, n: nat)
    requires WellFormed(bs) && i < |bs| && bs[i].Fits(n) && n % 4 == 0
    ensures WellFormed(Take(bs, i, n))
    ensures Live(Take(bs, i, n)) == Live(bs) + {Carve(bs[i], n)[0]}
    ensures Carve(bs[i], n)[0] !in Live(bs)
    ensures |Take(bs, i, n)| > i && Take(bs, i, n)[i] == Carve(bs[i], n)[0]
  {
    var mid := Carve(bs[i], n);
    OffAtNext(bs, i, 0, HEAP_SIZE);
    TilesSplice(bs, i, i + 1, mid, 0, HEAP_SIZE);
    TakeCoalesced(bs, i, n);
    SplitAligned(bs, i, n);
    AlignedSplice(bs, i, i + 1, mid);
    TakeLive(bs, i, n);
  }

  lemma TakeLive(bs: seq<Block>, i: nat, n: nat)
    requires Tiles(bs, 0, HEAP_SIZE) && i < |bs| && bs[i].Fits(n)
    ensures Live(Take(bs, i, n)) == Live(bs) + {Carve(bs[i], n)[0]}
    ensures Carve(bs[i], n)[0] !in Live(bs)
  {
    var mid := Carve(bs[i], n);
    FreeIsNotLive(bs, i);
    assert Live(mid) == {mid[0]} && Live([bs[i]]) == {};
    hide Tiles, Live, Carve;
    LiveSplice(bs, i, mid);
  }

  /** No live block starts where a free one does. */
  lemma FreeIsNotLive(bs: seq<Block>, i: nat)
    requires Tiles(bs, 0, HEAP_SIZE) && i < |bs| && bs[i].free
    ensures forall b | b in Live(bs) :: b.off != bs[i].off
  {
    TilesBounds(bs, 0, HEAP_SIZE);
    hide Tiles;
  }

  lemma TakeCoalesced(bs: seq<Block>, i: nat, n: nat)
    requires Coalesced(bs) && i < |bs| && bs[i].Fits(n)
    ensures Coalesced(Take(bs, i, n))
  {
    var mid := Carve(bs[i], n);
    CoalescedCut(bs, i);
    CoalescedCut(bs, i + 1);
    CoalescedJoin(bs[..i], mid);
    CoalescedJoin(bs[..i] + mid, bs[i + 1..]);
  }

  // ---------------------------------------------------------------------------
  // Coalescing
  // ---------------------------------------------------------------------------

  /** One block in the place of two neighbours. */
  function Fuse(a: Block, b: Block): Block {
    a.(size := a.size + HEADER + b.size)
  }

  lemma FuseAligned(bs: seq<Block>, i: nat)
    requires Aligned(bs) && i + 1 < |bs|
    ensures Aligned([Fuse(bs[i], bs[i + 1])])
  {
    var a, b := bs[i], bs[i + 1];
    assert a in bs && b in bs;
    assert (a.size + HEADER + b.size) % 4 == 0;
  }

  /** The whole `coalesce` pass: a merged block is looked at again, any other is passed over. */
  function Merge(bs: seq<Block>): seq<Block>
    decreases |bs|
  {
    if |bs| < 2 then bs
    else if bs[0].free && bs[1].free then Merge([Fuse(bs[0], bs[1])] + bs[2..])
    else [bs[0]] + Merge(bs[1..])
  }

  /** The pass merges every maximal run of free blocks and leaves the live blocks alone. */
  lemma {:induction false} MergeCoalesces(bs: seq<Block>, start: nat, end: nat)
    requires Tiles(bs, start, end) && Aligned(bs)
    ensures Tiles(Merge(bs), start, end) && Aligned(Merge(bs)) && Coalesced(Merge(bs))
    ensures Live(Merge(bs)) == Live(bs)
    ensures bs != [] ==> Merge(bs) != [] && Merge(bs)[0].free == bs[0].free
    decreases |bs|
  {
    if |bs| < 2 {
    } else if bs[0].free && bs[1].free {
      var next := [Fuse(bs[0], bs[1])] + bs[2..];
      assert bs[1..][1..] == bs[2..] && next[1..] == bs[2..];
      assert bs == [bs[0], bs[1]] + bs[2..];
      LiveConcat([bs[0], bs[1]], bs[2..]);
      LiveConcat([Fuse(bs[0], bs[1])], bs[2..]);
      MergeCoalesces(next, start, end);
    } else {
      MergeCoalesces(bs[1..], bs[0].End(), end);
      var r := Merge(bs);
      assert r[1..] == Merge(bs[1..]) && r[1] == r[1..][0];
      assert bs == [bs[0]] + bs[1..];
      LiveConcat([bs[0]], bs[1..]);
      LiveConcat([bs[0]], Merge(bs[1..]));
    }
  }

  /** `kfree`: mark block `i` free, then coalesce. */
  function Release(bs: seq<Block>, i: nat): seq<Block>
    requires i < |bs|
  {
    Merge(bs[i := bs[i].(free := true)])
  }

  lemma ReleaseWellFormed(bs: seq<Block>, i: nat)
    requires WellFormed(bs) && i < |bs| && !bs[i].free
    ensures WellFormed(Release(bs, i))
    ensures Live(Release(bs, i)) == Live(bs) - {bs[i]}
  {
    var b := bs[i].(free := true);
    var marked := bs[i := b];
    OffAtNext(bs, i, 0, HEAP_SIZE);
    TilesSplice(bs, i, i + 1, [b], 0, HEAP_SIZE);
    assert marked == bs[..i] + [b] + bs[i + 1..];
    MergeCoalesces(marked, 0, HEAP_SIZE);
    TilesBounds(bs, 0, HEAP_SIZE);
    assert forall k | 0 <= k < |bs| && k != i :: marked[k] == bs[k];
    assert Live(marked) == Live(bs) - {bs[i]};
  }

  // ---------------------------------------------------------------------------
  // Round trip and completeness
  // ---------------------------------------------------------------------------

  /** Giving back what was just taken restores the exact list there was before. */
  lemma ReleaseUndoesTake(bs: seq<Block>, i: nat, n: nat)
    requires WellFormed(bs) && i < |bs| && bs[i].Fits(n) && n % 4 == 0
    ensures |Take(bs, i, n)| > i && Release(Take(bs, i, n), i) == bs
  {
    TakeWellFormed(bs, i, n);
    ReleaseWellFormed(Take(bs, i, n), i);
    Canonical(Release(Take(bs, i, n), i), bs, 0, HEAP_SIZE);
  }

  /** No header or payload of a live block meets `[a, a + len)`. */
  ghost predicate Vacant(bs: seq<Block>, a: nat, len: nat) {
    forall b | b in bs && !b.free :: b.End() <= a || a + len <= b.off
  }

  /** Some stretch of the arena that can hold a header and `n` bytes is vacant. */
  ghost predicate HasRoom(bs: seq<Block>, n: nat) {
    exists a: nat {:trigger Vacant(bs, a, HEADER + n)} ::
      a + HEADER + n <= HEAP_SIZE && Vacant(bs, a, HEADER + n)
  }

  lemma {:induction false} VacantStretchFits(bs: seq<Block>, start: nat, end: nat, a: nat, n: nat)
    requires Tiles(bs, start, end) && Coalesced(bs)
    requires start <= a && a + HEADER + n <= end && Vacant(bs, a, HEADER + n)
    ensures FirstFit(bs, n) < |bs|
    decreases |bs|
  {
    TilesBounds(bs, start, end);
    if bs[0].Fits(n) {
    } else if a >= bs[0].End() {
      VacantStretchFits(bs[1..], bs[0].End(), end, a, n);
    } else {
      // The stretch starts inside the first block and runs past its end, into a live block.
      SecondBlock(bs, start, end);
      assert false;
    }
  }

  /** The block that first fit takes is the lowest one that can hold `n` bytes. */
  lemma FirstFitLowest(bs: seq<Block>, n: nat, b: Block)
    requires WellFormed(bs) && b in bs && b.Fits(n)
    ensures FirstFit(bs, n) < |bs| && bs[FirstFit(bs, n)].off <= b.off
  {
    TilesBounds(bs, 0, HEAP_SIZE);
    var j :| 0 <= j < |bs| && bs[j] == b;
  }

  lemma SecondBlock(bs: seq<Block>, start: nat, end: nat)
    requires Tiles(bs, start, end) && bs != []
    ensures |bs| > 1 ==> bs[1].off == bs[0].End()
    ensures |bs| == 1 ==> bs[0].End() == end
  {
  }

  /** First fit fails only when there is really no room: a block of `n` bytes is found if and
      only if some stretch of the arena that can hold a header and `n` bytes meets no live block. */
  lemma FirstFitComplete(bs: seq<Block>, n: nat)
    requires WellFormed(bs)
    ensures FirstFit(bs, n) < |bs| <==> HasRoom(bs, n)
  {
    TilesBounds(bs, 0, HEAP_SIZE);
    var i := FirstFit(bs, n);
    if i < |bs| {
      assert Vacant(bs, bs[i].off, HEADER + n);
    }
    if a: nat {:trigger Vacant(bs, a, HEADER + n)} :|
        a + HEADER + n <= HEAP_SIZE && Vacant(bs, a, HEADER + n) {
      VacantStretchFits(bs, 0, HEAP_SIZE, a, n);
    }
  }

  // ---------------------------------------------------------------------------
  // Accounting
  // ---------------------------------------------------------------------------

  /** Usable bytes in the free blocks, or in the live ones. */
  function Total(bs: seq<Block>, free: bool): nat {
    if bs == [] then 0 else (if bs[0].free == free then bs[0].size else 0) + Total(bs[1..], free)
  }

  /** Used bytes, free bytes and headers add up to the stretch that is tiled. */
  lemma {:induction false} BytesConserved(bs: seq<Block>, start: nat, end: nat)
    requires Tiles(bs, start, end)
    ensures Total(bs, false) + Total(bs, true) + HEADER * |bs| == end - start
  {
    if bs != [] { BytesConserved(bs[1..], bs[0].End(), end); }
  }

  lemma {:induction false} TotalConcat(a: seq<Block>, b: seq<Block>, free: bool)
    ensures Total(a + b, free) == Total(a, free) + Total(b, free)
  {
    if a == [] {
      assert a + b == b;
    } else {
      TotalConcat(a[1..], b, free);
      assert (a + b)[1..] == a[1..] + b;
    }
  }

  lemma TotalAt(bs: seq<Block>, i: nat, mid: seq<Block>, free: bool)
    requires i < |bs|
    ensures Total(bs, free) == Total(bs[..i], free) + Total([bs[i]], free) + Total(bs[i + 1..], free)
    ensures Total(bs[..i] + mid + bs[i + 1..], free)
         == Total(bs[..i], free) + Total(mid, free) + Total(bs[i + 1..], free)
  {
    hide Total;
    assert bs == bs[..i] + [bs[i]] + bs[i + 1..];
    TotalConcat(bs[..i] + [bs[i]], bs[i + 1..], free);
    TotalConcat(bs[..i], [bs[i]], free);
    TotalConcat(bs[..i] + mid, bs[i + 1..], free);
    TotalConcat(bs[..i], mid, free);
  }

  /** Handing out a block adds its size to the bytes in use. */
  lemma UsedAfterTake(bs: seq<Block>, i: nat, n: nat)
    requires i < |bs| && bs[i].Fits(n)
    ensures Total(Take(bs, i, n), false) == Total(bs, false) + Carve(bs[i], n)[0].size
  {
    var s := Carve(bs[i], n);
    TotalAt(bs, i, s, false);
    assert s[1..] == [] || (s[1..] == [s[1]] && s[1..][1..] == []);
  }

  /** Giving a block back takes its size off them, however much is merged. */
  lemma UsedAfterRelease(bs: seq<Block>, i: nat)
    requires i < |bs| && !bs[i].free
    ensures Total(Release(bs, i), false) + bs[i].size == Total(bs, false)
  {
    var b := bs[i].(free := true);
    TotalAt(bs, i, [b], false);
    assert bs[i := b] == bs[..i] + [b] + bs[i + 1..];
    UsedAfterMerge(bs[i := b]);
  }

  lemma {:induction false} UsedAfterMerge(bs: seq<Block>)
    ensures Total(Merge(bs), false) == Total(bs, false)
    decreases |bs|
  {
    if |bs| < 2 {
    } else if bs[0].free && bs[1].free {
      var next := [Fuse(bs[0], bs[1])] + bs[2..];
      UsedAfterMerge(next);
      assert next[1..] == bs[2..] == bs[1..][1..];
    } else {
      UsedAfterMerge(bs[1..]);
      assert ([bs[0]] + Merge(bs[1..]))[1..] == Merge(bs[1..]);
    }
  }
}
