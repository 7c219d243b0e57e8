/** How the block list and the payloads of the live blocks lie in the bytes of the arena. */
module HeapMemory {
  import opened Bytes
  import opened HeapLayout

  /** The header in front of block `b` holds its size, its free flag and the link `next`. */
  ghost predicate HeaderIs(mem: seq<Byte>, b: Block, next: nat) {
    && b.off + HEADER <= |mem|
    && Word(mem, b.off) == b.size
    && Word(mem, b.off + 4) == (if b.free then 1 else 0)
    && Word(mem, b.off + 8) == next
  }

  /** The address of the first block of a list, or `after` when there is none. */
  ghost function Link(base: nat, bs: seq<Block>, after: nat): nat {
    if bs == [] then after else base + bs[0].off
  }

  /** The headers in `mem` form the linked list `bs`, whose last link is `after`. */
  ghost predicate Encodes(mem: seq<Byte>, base: nat, bs: seq<Block>, after: nat) {
    bs != [] ==> HeaderIs(mem, bs[0], Link(base, bs[1..], after)) && Encodes(mem, base, bs[1..], after)
  }

  ghost predicate Agree(mem: seq<Byte>, mem': seq<Byte>, lo: nat, hi: nat) {
    |mem| == |mem'| && forall k | lo <= k < hi && k < |mem| :: mem[k] == mem'[k]
  }

  lemma {:induction false} EncodesCut(mem: seq<Byte>, base: nat, bs: seq<Block>, after: nat, i: nat)
    requires Encodes(mem, base, bs, after) && i <= |bs|
    ensures Encodes(mem, base, bs[..i], Link(base, bs[i..], after))
    ensures Encodes(mem, base, bs[i..], after)
    decreases |bs|
  {
    if i == 0 {
      assert bs[0..] == bs;
    } else {
      EncodesCut(mem, base, bs[1..], after, i - 1);
      assert bs[1..][..i - 1] == bs[..i][1..];
      assert bs[1..][i - 1..] == bs[i..];
    }
  }

  lemma {:induction false} EncodesJoin(mem: seq<Byte>, base: nat, a: seq<Block>, b: seq<Block>, after: nat)
    requires Encodes(mem, base, a, Link(base, b, after)) && Encodes(mem, base, b, after)
    ensures Encodes(mem, base, a + b, after)
    decreases |a|
  {
    if a == [] {
      assert a + b == b;
    } else {
      EncodesJoin(mem, base, a[1..], b, after);
      assert (a + b)[1..] == a[1..] + b;
    }
  }

  lemma HeaderAt(mem: seq<Byte>, base: nat, bs: seq<Block>, after: nat, i: nat)
    requires Encodes(mem, base, bs, after) && i < |bs|
    ensures HeaderIs(mem, bs[i], Link(base, bs[i + 1..], after))
  {
    EncodesCut(mem, base, bs, after, i);
    assert bs[i..][1..] == bs[i + 1..];
  }

  lemma {:induction false} EncodesFrame(mem: seq<Byte>, mem': seq<Byte>, base: nat, bs: seq<Block>, after: nat,
                                        start: nat, end: nat)
    requires Encodes(mem, base, bs, after) && Tiles(bs, start, end)
    requires Agree(mem, mem', start, end)
    ensures Encodes(mem', base, bs, after)
    decreases |bs|
  {
    if bs != [] {
      TilesBounds(bs, start, end);
      EncodesFrame(mem, mem', base, bs[1..], after, bs[0].End(), end);
      WordFrame(mem, mem', bs[0].off);
      WordFrame(mem, mem', bs[0].off + 4);
      WordFrame(mem, mem', bs[0].off + 8);
    }
  }

  /** A change confined to the blocks `i..k`, which it replaces by `mid`, keeps the rest of the
      linked list. */
  lemma EncodesSplice(mem: seq<Byte>, mem': seq<Byte>, base: nat, bs: seq<Block>, i: nat, k: nat, mid: seq<Block>)
    requires |mem| == HEAP_SIZE && Tiles(bs, 0, HEAP_SIZE) && Encodes(mem, base, bs, 0)
    requires i < k <= |bs| && mid != [] && mid[0].off == bs[i].off
    requires Agree(mem, mem', 0, bs[i].off) && Agree(mem, mem', OffAt(bs, k, HEAP_SIZE), HEAP_SIZE)
    requires Encodes(mem', base, mid, Link(base, bs[k..], 0))
    ensures Encodes(mem', base, bs[..i] + mid + bs[k..], 0)
  {
    hide Word, HeaderIs;
    KeptAfter(mem, mem', base, bs, k);
    KeptBefore(mem, mem', base, bs, i);
    EncodesJoin(mem', base, mid, bs[k..], 0);
    JoinInFront(mem', base, bs[..i], mid, bs[k..]);
  }

  lemma JoinInFront(mem: seq<Byte>, base: nat, a: seq<Block>, mid: seq<Block>, b: seq<Block>)
    requires mid != [] && Encodes(mem, base, a, base + mid[0].off) && Encodes(mem, base, mid + b, 0)
    ensures Encodes(mem, base, a + mid + b, 0)
  {
    assert a + mid + b == a + (mid + b);
    assert Link(base, mid + b, 0) == base + mid[0].off;
    EncodesJoin(mem, base, a, mid + b, 0);
  }

  lemma KeptAfter(mem: seq<Byte>, mem': seq<Byte>, base: nat, bs: seq<Block>, k: nat)
    requires |mem| == HEAP_SIZE && Tiles(bs, 0, HEAP_SIZE) && Encodes(mem, base, bs, 0) && k <= |bs|
    requires Agree(mem, mem', OffAt(bs, k, HEAP_SIZE), HEAP_SIZE)
    ensures Encodes(mem', base, bs[k..], 0)
  {
    EncodesCut(mem, base, bs, 0, k);
    TilesCut(bs, k, 0, HEAP_SIZE);
    EncodesFrame(mem, mem', base, bs[k..], 0, OffAt(bs, k, HEAP_SIZE), HEAP_SIZE);
  }

  lemma KeptBefore(mem: seq<Byte>, mem': seq<Byte>, base: nat, bs: seq<Block>, i: nat)
    requires |mem| == HEAP_SIZE && Tiles(bs, 0, HEAP_SIZE) && Encodes(mem, base, bs, 0) && i < |bs|
    requires Agree(mem, mem', 0, bs[i].off)
    ensures Encodes(mem', base, bs[..i], base + bs[i].off)
  {
    hide HeaderIs;
    EncodesCut(mem, base, bs, 0, i);
    TilesCut(bs, i, 0, HEAP_SIZE);
    EncodesFrame(mem, mem', base, bs[..i], base + bs[i].off, 0, bs[i].off);
  }

  // ---------------------------------------------------------------------------
  // Payloads
  // ---------------------------------------------------------------------------

  /** The bytes a caller may use. */
  ghost function Payload(mem: seq<Byte>, b: Block): seq<Byte>
    requires b.End() <= |mem|
  {
    mem[b.off + HEADER..b.End()]
  }

  ghost predicate Inside(mem: seq<Byte>, bs: seq<Block>) {
    forall b | b in bs :: b.End() <= |mem|
  }

  /** The contents of every live block. */
  ghost function Payloads(mem: seq<Byte>, bs: seq<Block>): map<Block, seq<Byte>>
    requires Inside(mem, bs)
  {
    map b | b in Live(bs) :: Payload(mem, b)
  }

  /** Changing bytes only inside blocks of which none is live leaves every live payload alone. */
  lemma PayloadsKept(mem: seq<Byte>, mem': seq<Byte>, bs: seq<Block>, i: nat, k: nat)
    requires |mem| == HEAP_SIZE && Tiles(bs, 0, HEAP_SIZE) && i < k <= |bs|
    requires forall j | i <= j < k :: bs[j].free
    requires Agree(mem, mem', 0, bs[i].off) && Agree(mem, mem', OffAt(bs, k, HEAP_SIZE), HEAP_SIZE)
    ensures Inside(mem, bs) && forall b | b in Live(bs) :: Payload(mem', b) == Payload(mem, b)
  {
    TilesBounds(bs, 0, HEAP_SIZE);
    forall b | b in Live(bs)
      ensures Payload(mem', b) == Payload(mem, b)
    {
      var j :| 0 <= j < |bs| && bs[j] == b;
      assert j < i || j >= k;
    }
  }

  /** Changing bytes only inside block `i` leaves the payload of every other block alone. */
  lemma OtherPayloadsKept(mem: seq<Byte>, mem': seq<Byte>, bs: seq<Block>, i: nat)
    requires |mem| == HEAP_SIZE && Tiles(bs, 0, HEAP_SIZE) && i < |bs|
    requires Agree(mem, mem', 0, bs[i].off) && Agree(mem, mem', bs[i].End(), HEAP_SIZE)
    ensures Inside(mem, bs) && forall b | b in Live(bs) && b != bs[i] :: Payload(mem', b) == Payload(mem, b)
  {
    TilesBounds(bs, 0, HEAP_SIZE);
    forall b | b in Live(bs) && b != bs[i]
      ensures Payload(mem', b) == Payload(mem, b)
    {
      var j :| 0 <= j < |bs| && bs[j] == b;
      assert j < i || i < j;
    }
  }
}
