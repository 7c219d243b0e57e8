/** Saving Fish to disk and loading it again: the node pool as raw memory, the superblock in front of
    it, and the two operations of fs/fish.c. */
module FishImage {
  import opened Bytes
  import opened FishTree
  import opened FishSteps
  import opened FishSpec
  import opened Fish
  import opened Disk
  import Memory

  /** sizeof(struct node): 32 bytes of name, four words, 512 bytes of data. */
  const NODE_SIZE := 560
  const NODE_BYTES := FISH_MAX_NODES * NODE_SIZE

  const FISH_MAGIC := 0x4853_4946
  const FISH_VERSION := 1
  const FISH_START_LBA := 2048
  const SUPERBLOCK_SIZE := 20

  // ---------------------------------------------------------------------------
  // Nodes as memory
  // ---------------------------------------------------------------------------

  /** The word that stores an `int`, and back. */
  function Unsigned(x: int): nat
    requires -0x8000_0000 <= x < 0x8000_0000
  {
    if x < 0 then x + WORD else x
  }

  function Signed(w: nat): (x: int)
    requires w < WORD
    ensures -0x8000_0000 <= x < 0x8000_0000 && Unsigned(x) == w
  {
    if w >= 0x8000_0000 then w - WORD else w
  }

  function NodeMemory(n: Node): (m: seq<Byte>)
    requires n.Shaped()
    ensures |m| == NODE_SIZE
  {
    n.name + Word32(Unsigned(n.used)) + Word32(Unsigned(n.isDir)) + Word32(Unsigned(n.parent)) + Word32(n.size) + n.data
  }

  function NodeAt(m: seq<Byte>, at: nat): (n: Node)
    requires at + NODE_SIZE <= |m|
    ensures n.Shaped()
  {
    Node(m[at..at + 32], Signed(Word(m, at + 32)), Signed(Word(m, at + 36)), Signed(Word(m, at + 40)),
         Word(m, at + 44), m[at + 48..at + NODE_SIZE])
  }

  function PoolMemory(ns: seq<Node>): (m: seq<Byte>)
    requires forall i | 0 <= i < |ns| :: ns[i].Shaped()
    ensures |m| == NODE_SIZE * |ns|
  {
    if ns == [] then [] else NodeMemory(ns[0]) + PoolMemory(ns[1..])
  }

  function PoolOf(m: seq<Byte>): (ns: seq<Node>)
    requires |m| == NODE_BYTES
    ensures Pool(ns)
  {
    seq(FISH_MAX_NODES, i requires 0 <= i < FISH_MAX_NODES => NodeAt(m, NODE_SIZE * i))
  }

  /** Reading a node out of its own memory gives the node back, leftovers included. */
  lemma NodeRoundTrip(n: Node, front: seq<Byte>, back: seq<Byte>)
    requires n.Shaped()
    ensures NodeAt(front + NodeMemory(n) + back, |front|) == n
  {
  }

  lemma {:induction false} PoolMemoryAt(ns: seq<Node>, i: nat, front: seq<Byte>)
    requires i < |ns| && forall k | 0 <= k < |ns| :: ns[k].Shaped()
    ensures NodeAt(front + PoolMemory(ns), |front| + NODE_SIZE * i) == ns[i]
    decreases |ns|
  {
    hide NodeMemory, NodeAt, Word, Word32;
    var head, tail := NodeMemory(ns[0]), PoolMemory(ns[1..]);
    assert front + PoolMemory(ns) == front + head + tail;
    if i == 0 {
      NodeRoundTrip(ns[0], front, tail);
    } else {
      PoolMemoryAt(ns[1..], i - 1, front + head);
    }
  }

  /** The pool is restored from its memory, every byte of it. */
  lemma PoolRoundTrip(ns: seq<Node>)
    requires Pool(ns)
    ensures PoolOf(PoolMemory(ns)) == ns
  {
    var m := PoolMemory(ns);
    forall i | 0 <= i < |ns| ensures PoolOf(m)[i] == ns[i] {
      PoolMemoryAt(ns, i, []);
      assert [] + m == m;
    }
  }

  lemma NodeMemoryOf(m: seq<Byte>, at: nat)
    requires at + NODE_SIZE <= |m|
    ensures NodeMemory(NodeAt(m, at)) == m[at..at + NODE_SIZE]
  {
    Word32OfWord(m, at + 32);
    Word32OfWord(m, at + 36);
    Word32OfWord(m, at + 40);
    Word32OfWord(m, at + 44);
    hide Word, Word32;
    assert m[at..at + NODE_SIZE] == m[at..at + 32] + m[at + 32..at + 36] + m[at + 36..at + 40] + m[at + 40..at + 44]
                                  + m[at + 44..at + 48] + m[at + 48..at + NODE_SIZE];
  }

  lemma {:induction false} PoolMemoryFrom(m: seq<Byte>, k: nat)
    requires |m| == NODE_BYTES && k <= FISH_MAX_NODES
    ensures PoolMemory(PoolOf(m)[k..]) == m[NODE_SIZE * k..]
    decreases FISH_MAX_NODES - k
  {
    hide NodeMemory, NodeAt;
    if k < FISH_MAX_NODES {
      assert PoolOf(m)[k..][1..] == PoolOf(m)[k + 1..];
      PoolMemoryFrom(m, k + 1);
      NodeMemoryOf(m, NODE_SIZE * k);
      assert m[NODE_SIZE * k..] == m[NODE_SIZE * k..NODE_SIZE * k + NODE_SIZE] + m[NODE_SIZE * (k + 1)..];
    }
  }

  /** Every memory of the right length is the memory of a pool. */
  lemma PoolMemoryOf(m: seq<Byte>)
    requires |m| == NODE_BYTES
    ensures PoolMemory(PoolOf(m)) == m
  {
    PoolMemoryFrom(m, 0);
    assert PoolOf(m)[0..] == PoolOf(m) && m[0..] == m;
  }

  // ---------------------------------------------------------------------------
  // The superblock
  // ---------------------------------------------------------------------------

  function Superblock(current: nat): (sb: seq<Byte>)
    requires current < WORD
    ensures |sb| == SUPERBLOCK_SIZE
  {
    Word32(FISH_MAGIC) + Word32(FISH_VERSION) + Word32(FISH_MAX_NODES) + Word32(NODE_SIZE) + Word32(current)
  }

  /** What `fish_load` demands of the first sector. */
  predicate Recognised(sector: seq<Byte>)
    requires |sector| == SECTOR
  {
    && Word(sector, 0) == FISH_MAGIC && Word(sector, 4) == FISH_VERSION
    && Word(sector, 8) == FISH_MAX_NODES && Word(sector, 12) == NODE_SIZE
  }

  function SuperSector(current: nat): (s: seq<Byte>)
    requires current < WORD
    ensures |s| == SECTOR
  {
    Superblock(current) + Zeros(SECTOR - SUPERBLOCK_SIZE)
  }

  /** The first sector is accepted if and only if its first 16 bytes are those that `fish_save` writes: four
      letters and the words 1, 64 and 560. */
  lemma RecognisedExactly(sector: seq<Byte>, current: nat)
    requires |sector| == SECTOR && current < WORD
    ensures Recognised(sector) <==> sector[..16] == SuperSector(current)[..16]
    ensures SuperSector(current)[..16] == [70, 73, 83, 72, 1, 0, 0, 0, 64, 0, 0, 0, 48, 2, 0, 0]
  {
    hide SuperSector, Superblock, Word;
    SuperSectorStart(current);
    SuperSectorRecognised(current);
    var t := SuperSector(current);
    if Recognised(sector) {
      SameWord(sector, t, 0);
      SameWord(sector, t, 4);
      SameWord(sector, t, 8);
      SameWord(sector, t, 12);
    } else if sector[..16] == t[..16] {
      SamePrefix(sector, t);
    }
  }

  lemma SuperSectorStart(current: nat)
    requires current < WORD
    ensures SuperSector(current)[..16] == [70, 73, 83, 72, 1, 0, 0, 0, 64, 0, 0, 0, 48, 2, 0, 0]
  {
  }

  lemma SameWord(a: seq<Byte>, b: seq<Byte>, off: nat)
    requires off + 4 <= |a| && off + 4 <= |b| && Word(a, off) == Word(b, off)
    ensures a[off] == b[off] && a[off + 1] == b[off + 1] && a[off + 2] == b[off + 2] && a[off + 3] == b[off + 3]
  {
    hide Word, Word32;
    Word32OfWord(a, off);
    Word32OfWord(b, off);
    var x, y := a[off..off + 4], b[off..off + 4];
    assert x[0] == a[off] && x[1] == a[off + 1] && x[2] == a[off + 2] && x[3] == a[off + 3];
    assert y[0] == b[off] && y[1] == b[off + 1] && y[2] == b[off + 2] && y[3] == b[off + 3];
  }

  lemma SamePrefix(a: seq<Byte>, b: seq<Byte>)
    requires |a| >= 16 && |b| >= 16 && a[..16] == b[..16]
    ensures Word(a, 0) == Word(b, 0) && Word(a, 4) == Word(b, 4)
    ensures Word(a, 8) == Word(b, 8) && Word(a, 12) == Word(b, 12)
  {
    forall k | 0 <= k < 16 ensures a[k] == b[k] { assert a[..16][k] == b[..16][k]; }
  }

  /** Where the fields of a node lie: the name, then `used`, `is_dir`, `parent` and `size` as little-endian
      words, then the data. The parent of the root, -1, is stored as four bytes 255. */
  lemma NodeLayout(n: Node)
    requires n.Shaped()
    ensures var m := NodeMemory(n);
            && m[..32] == n.name && m[48..] == n.data
            && (Word(m, 32) - n.used) % WORD == 0 && (Word(m, 36) - n.isDir) % WORD == 0
            && (Word(m, 40) - n.parent) % WORD == 0 && Word(m, 44) == n.size
            && (n.parent == -1 ==> m[40..44] == [255, 255, 255, 255])
  {
  }

  lemma SuperSectorRecognised(current: nat)
    requires current < WORD
    ensures Recognised(SuperSector(current)) && Word(SuperSector(current), 16) == current
  {
  }

  /** The disk holds the image of a completed save of this pool and directory. */
  ghost predicate HoldsImage(sectors: map<nat, seq<Byte>>, ns: seq<Node>, current: nat)
    requires Pool(ns) && current < WORD
  {
    && Content(sectors, FISH_START_LBA) == SuperSector(current)
    && Holds(sectors, FISH_START_LBA + 1, PoolMemory(ns))
  }

  // ---------------------------------------------------------------------------
  // The operations
  // ---------------------------------------------------------------------------

  const NODE_SECTORS := SectorsFor(NODE_BYTES)

  /** Of the superblock and the pool the first `k` sectors have been written, and none behind the next one. */
  ghost predicate SavedUpTo(was: map<nat, seq<Byte>>, now: map<nat, seq<Byte>>, ns: seq<Node>, current: nat, k: nat)
    requires Pool(ns) && current < WORD
  {
    && k <= 1 + NODE_SECTORS
    && (k > 0 ==> Content(now, FISH_START_LBA) == SuperSector(current))
    && (forall s: nat | s + 1 < k :: Content(now, FISH_START_LBA + 1 + s) == Chunk(PoolMemory(ns), s))
    && OnlyWithin(was, now, FISH_START_LBA, if k < 1 + NODE_SECTORS then k + 1 else k)
  }

  /** Byte by byte: the first `k` sectors hold the superblock and the pool, and the sectors behind the next one
      hold what they did. */
  lemma SavedBytes(was: map<nat, seq<Byte>>, now: map<nat, seq<Byte>>, ns: seq<Node>, current: nat, k: nat, at: nat)
    requires Pool(ns) && current < WORD && SavedUpTo(was, now, ns, current, k) && at < 35840
    ensures k > 0 ==> Content(now, 2048) == SuperSector(current)
    ensures at / 512 + 1 < k ==>
              var sector := Content(now, 2049 + at / 512);
              |sector| == 512 && sector[at % 512] == PoolMemory(ns)[at]
    ensures forall lba: nat | lba < 2048 || lba > 2048 + k :: Content(now, lba) == Content(was, lba)
  {
    hide PoolMemory, Content, SuperSector;
    var s: nat := at / 512;
    if s + 1 < k {
      assert Content(now, FISH_START_LBA + 1 + s) == Chunk(PoolMemory(ns), s);
      assert 512 * s + at % 512 == at;
    }
  }

  lemma NothingSaved(was: map<nat, seq<Byte>>)
    ensures OnlyWithin(was, was, FISH_START_LBA, 1 + NODE_SECTORS)
  {
  }

  lemma FirstFailed(was: map<nat, seq<Byte>>, now: map<nat, seq<Byte>>, ns: seq<Node>, current: nat)
    requires Pool(ns) && current < WORD
    requires forall other: nat | other != FISH_START_LBA :: Content(now, other) == Content(was, other)
    ensures SavedUpTo(was, now, ns, current, 0) && OnlyWithin(was, now, FISH_START_LBA, 1 + NODE_SECTORS)
  {
    hide Content, PoolMemory, SuperSector;
  }

  lemma FirstWritten(was: map<nat, seq<Byte>>, mid: map<nat, seq<Byte>>, now: map<nat, seq<Byte>>,
                     ns: seq<Node>, current: nat, k: nat)
    requires Pool(ns) && current < WORD && k <= NODE_SECTORS && mid == was[FISH_START_LBA := SuperSector(current)]
    requires WrittenUpTo(mid, now, FISH_START_LBA + 1, PoolMemory(ns), k)
    ensures SavedUpTo(was, now, ns, current, 1 + k) && OnlyWithin(was, now, FISH_START_LBA, 1 + NODE_SECTORS)
    ensures k == NODE_SECTORS ==> HoldsImage(now, ns, current)
  {
    hide PoolMemory, SuperSector, Chunk;
    assert Content(now, FISH_START_LBA) == Content(mid, FISH_START_LBA) == SuperSector(current);
  }

  /** Writes the superblock and then the pool. Success means that the disk holds the whole image, and
      comes exactly when there is a disk and every transfer works; no other sector is touched. A save that
      fails on the way has written everything in front of the failing transfer and nothing behind it. */
  method FishSave(fish: FishFs, disk: AtaDisk) returns (r: int)
    requires fish.Shaped() && 0 <= fish.current < FISH_MAX_NODES && disk.Valid()
    modifies disk`transfers, disk`sectors
    ensures disk.Valid()
    ensures r == FISH_OK ==> HoldsImage(disk.sectors, fish.nodes[..], fish.current)
    ensures r == FISH_ERR_NODISK <==> !disk.present
    ensures r == FISH_OK <==> disk.present && old(disk.Works(1 + NODE_SECTORS))
    ensures r == FISH_OK || r == FISH_ERR_NODISK || r == FISH_ERR_IO
    ensures !disk.present ==> disk.sectors == old(disk.sectors) && disk.transfers == old(disk.transfers)
    ensures disk.present ==>
              && disk.transfers == old(disk.transfers) + Attempts(disk.fate, old(disk.transfers), 1 + NODE_SECTORS)
              && SavedUpTo(old(disk.sectors), disk.sectors, fish.nodes[..], fish.current,
                           Leading(disk.fate, old(disk.transfers), 1 + NODE_SECTORS))
    ensures OnlyWithin(old(disk.sectors), disk.sectors, FISH_START_LBA, 1 + NODE_SECTORS)
    ensures forall lba: nat | lba < 2048 || lba > 2118 :: Content(disk.sectors, lba) == Content(old(disk.sectors), lba)
  {
    hide SavedUpTo, HoldsImage, PoolMemory, Leading, Attempts;
    NothingSaved(disk.sectors);
    if !disk.present { return FISH_ERR_NODISK; }
    r := SaveImage(disk, fish.nodes[..], fish.current);
  }

  /** The part of `fish_save` behind the test for a disk. */
  method SaveImage(disk: AtaDisk, ns: seq<Node>, current: nat) returns (r: int)
    requires Pool(ns) && current < WORD && disk.Valid() && disk.present
    modifies disk`transfers, disk`sectors
    ensures disk.Valid() && (r == FISH_OK || r == FISH_ERR_IO)
    ensures r == FISH_OK <==> old(disk.Works(1 + NODE_SECTORS))
    ensures r == FISH_OK ==> HoldsImage(disk.sectors, ns, current)
    ensures disk.transfers == old(disk.transfers) + Attempts(disk.fate, old(disk.transfers), 1 + NODE_SECTORS)
    ensures SavedUpTo(old(disk.sectors), disk.sectors, ns, current,
                      Leading(disk.fate, old(disk.transfers), 1 + NODE_SECTORS))
    ensures OnlyWithin(old(disk.sectors), disk.sectors, FISH_START_LBA, 1 + NODE_SECTORS)
  {
    hide Content, SuperSector, Leading, Attempts, WrittenUpTo, SavedUpTo, OnlyWithin, Holds, HoldsImage;
    hide SectorsFor, PoolMemory;
    ghost var was, t := disk.sectors, disk.transfers;
    LeadingStep(disk.fate, t, NODE_SECTORS);
    LeadingAll(disk.fate, t, 1 + NODE_SECTORS);
    var result := WriteSuperblock(disk, current);
    if result != 0 {
      FirstFailed(was, disk.sectors, ns, current);
      return FISH_ERR_IO;
    }
    ghost var mid := disk.sectors;
    var ok := WritePool(disk, ns);
    LeadingAll(disk.fate, t + 1, NODE_SECTORS);
    FirstWritten(was, mid, disk.sectors, ns, current, Leading(disk.fate, t + 1, NODE_SECTORS));
    return if ok then FISH_OK else FISH_ERR_IO;
  }

  method WriteSuperblock(disk: AtaDisk, current: nat) returns (r: int)
    requires current < WORD && disk.Valid() && disk.present
    modifies disk`transfers, disk`sectors
    ensures disk.Valid() && disk.transfers == old(disk.transfers) + 1
    ensures r == 0 <==> disk.fate(old(disk.transfers)).Fine?
    ensures r == 0 ==> disk.sectors == old(disk.sectors)[FISH_START_LBA := SuperSector(current)]
    ensures forall other: nat | other != FISH_START_LBA ::
              Content(disk.sectors, other) == Content(old(disk.sectors), other)
  {
    hide SuperSector, Content;
    var sector := new Byte[SECTOR];
    FillSuperblock(sector, current);
    r := disk.Write(FISH_START_LBA, sector);
  }

  method WritePool(disk: AtaDisk, ns: seq<Node>) returns (ok: bool)
    requires Pool(ns) && disk.Valid() && disk.present
    modifies disk`transfers, disk`sectors
    ensures disk.Valid()
    ensures ok <==> Leading(disk.fate, old(disk.transfers), NODE_SECTORS) == NODE_SECTORS
    ensures disk.transfers == old(disk.transfers) + Attempts(disk.fate, old(disk.transfers), NODE_SECTORS)
    ensures WrittenUpTo(old(disk.sectors), disk.sectors, FISH_START_LBA + 1, PoolMemory(ns),
                        Leading(disk.fate, old(disk.transfers), NODE_SECTORS))
  {
    hide PoolMemory, WrittenUpTo, Leading, Attempts, Holds, OnlyWithin;
    LeadingAll(disk.fate, disk.transfers, NODE_SECTORS);
    ok := SaveMemory(disk, FISH_START_LBA + 1, PoolMemory(ns));
  }

  method FillSuperblock(sector: array<Byte>, current: nat)
    requires sector.Length == SECTOR && current < WORD
    modifies sector
    ensures sector[..] == SuperSector(current)
  {
    hide Superblock, SuperSector;
    var sb := Superblock(current);
    Memory.Memset(sector, 0, 0, SECTOR);
    Memory.Memcpy(sector, 0, sb, 0, SUPERBLOCK_SIZE);
    PaddedSuperblock(sector[..], current);
  }

  lemma PaddedSuperblock(sector: seq<Byte>, current: nat)
    requires current < WORD && |sector| == SECTOR && sector[..SUPERBLOCK_SIZE] == Superblock(current)
    requires forall k | SUPERBLOCK_SIZE <= k < SECTOR :: sector[k] == 0
    ensures sector == SuperSector(current)
  {
  }

  /** The pool that the sectors behind the superblock hold. */
  ghost function StoredPool(sectors: map<nat, seq<Byte>>): (ns: seq<Node>)
    requires WholeSectors(sectors)
    ensures Pool(ns)
  {
    PoolOf(Stored(sectors, FISH_START_LBA + 1, NODE_BYTES))
  }

  /** The current directory that a superblock asks for, or the root. */
  ghost function SavedCurrent(sector: seq<Byte>, ns: seq<Node>): nat
    requires |sector| == SECTOR
  {
    if Folder(ns, Word(sector, 16)) then Word(sector, 16) else 0
  }

  /** The disk, the first transfer and the superblock let `fish_load` go on to the pool. */
  ghost predicate Admitted(disk: AtaDisk)
    requires disk.Valid()
    reads disk
  {
    disk.present && disk.Works(1) && Recognised(Content(disk.sectors, FISH_START_LBA))
  }

  /** What `fish_load` returns. */
  ghost function LoadCode(disk: AtaDisk): int
    requires disk.Valid()
    reads disk
  {
    if !disk.present then FISH_ERR_NODISK
    else if !disk.Works(1) then FISH_ERR_IO
    else if !Recognised(Content(disk.sectors, FISH_START_LBA)) then FISH_ERR_FORMAT
    else if !disk.Works(1 + NODE_SECTORS) then FISH_ERR_IO
    else if !Folder(StoredPool(disk.sectors), 0) then FISH_ERR_FORMAT
    else FISH_OK
  }

  /** How many transfers it makes. */
  ghost function LoadTransfers(disk: AtaDisk): nat
    requires disk.Valid()
    reads disk
  {
    if !disk.present then 0
    else if !Admitted(disk) then 1
    else 1 + Attempts(disk.fate, disk.transfers + 1, NODE_SECTORS)
  }

  /** The disk holds the image of a save, so that is what is stored. */
  lemma ImageStored(sectors: map<nat, seq<Byte>>, ns: seq<Node>, cur: nat)
    requires WholeSectors(sectors) && Pool(ns) && cur < WORD && HoldsImage(sectors, ns, cur)
    ensures Recognised(Content(sectors, FISH_START_LBA)) && StoredPool(sectors) == ns
    ensures Folder(ns, cur) ==> SavedCurrent(Content(sectors, FISH_START_LBA), ns) == cur
  {
    hide Word, Word32, Superblock, NodeAt, NodeMemory, Zeros, Content;
    SuperSectorRecognised(cur);
    HeldIsStored(sectors, FISH_START_LBA + 1, PoolMemory(ns));
    PoolRoundTrip(ns);
  }

  /** Reads an image back, for any disk whatever. Without a disk, or when the first sector cannot be read
      or is not a superblock of this version, nothing changes. When all of the pool can be read, it is what
      the sectors hold and the current directory is the one that the superblock names, if that is a directory
      of the pool; a pool without a root makes the filesystem empty. When a transfer in between fails, the
      pool is overwritten up to there and the current directory stays. */
  method FishLoad(fish: FishFs, disk: AtaDisk) returns (r: int)
    requires fish.Shaped() && disk.Valid()
    modifies fish`current, fish.nodes, disk`transfers
    ensures fish.Shaped() && disk.Valid()
    ensures r == old(LoadCode(disk))
    ensures r == FISH_ERR_NODISK <==> !disk.present
    ensures r == FISH_OK <==>
              && disk.present && old(disk.Works(1 + NODE_SECTORS)) && Recognised(Content(disk.sectors, FISH_START_LBA))
              && Folder(StoredPool(disk.sectors), 0)
    ensures r == FISH_OK ==> Folder(fish.nodes[..], 0) && Folder(fish.nodes[..], fish.current)
    ensures disk.transfers == old(disk.transfers) + old(LoadTransfers(disk))
    ensures !old(Admitted(disk)) ==> fish.nodes[..] == old(fish.nodes[..]) && fish.current == old(fish.current)
    ensures r == FISH_OK ==>
              && fish.nodes[..] == StoredPool(disk.sectors)
              && fish.current == SavedCurrent(Content(disk.sectors, FISH_START_LBA), fish.nodes[..])
    ensures r == FISH_OK ==>
              var wanted := Word(Content(disk.sectors, FISH_START_LBA), 16);
              fish.current == if Folder(fish.nodes[..], wanted) then wanted else 0
    ensures old(Admitted(disk)) && r == FISH_ERR_FORMAT ==>
              fish.Valid() && fish.Abs() == EMPTY && fish.Where() == map[0 := []] && fish.current == 0
    ensures old(Admitted(disk)) && r == FISH_ERR_IO ==>
              && fish.current == old(fish.current)
              && CopiedUpTo(disk.sectors, FISH_START_LBA + 1,
                            PoolMemory(old(fish.nodes[..])), PoolMemory(fish.nodes[..]),
                            Leading(disk.fate, old(disk.transfers) + 1, NODE_SECTORS))
  {
    hide Word, Stored, PoolOf, Content, Folder, Leading, Attempts, CopiedUpTo, PoolMemory;
    hide IsTree, View, PathOf, PlacesOf;
    if !disk.present { return FISH_ERR_NODISK; }
    var sector := new Byte[SECTOR];
    var result := disk.Read(FISH_START_LBA, sector);
    if result != 0 { return FISH_ERR_IO; }
    var first := sector[..];
    if Word(first, 0) != FISH_MAGIC { return FISH_ERR_FORMAT; }
    if Word(first, 4) != FISH_VERSION { return FISH_ERR_FORMAT; }
    if Word(first, 8) != FISH_MAX_NODES { return FISH_ERR_FORMAT; }
    if Word(first, 12) != NODE_SIZE { return FISH_ERR_FORMAT; }
    var ok := LoadPool(fish, disk);
    if !ok { return FISH_ERR_IO; }
    r := Settle(fish, first);
  }

  /** The sector loop of `fish_load`, on the bytes of the pool. */
  method LoadPool(fish: FishFs, disk: AtaDisk) returns (ok: bool)
    requires fish.Shaped() && disk.Valid() && disk.present
    modifies fish.nodes, disk`transfers
    ensures fish.Shaped() && disk.Valid()
    ensures ok <==> old(disk.Works(NODE_SECTORS))
    ensures ok ==> fish.nodes[..] == StoredPool(disk.sectors)
    ensures disk.transfers == old(disk.transfers) + Attempts(disk.fate, old(disk.transfers), NODE_SECTORS)
    ensures CopiedUpTo(disk.sectors, FISH_START_LBA + 1, PoolMemory(old(fish.nodes[..])), PoolMemory(fish.nodes[..]),
                       Leading(disk.fate, old(disk.transfers), NODE_SECTORS))
  {
    hide NodeMemory, NodeAt, PoolOf, Stored, CopiedUpTo, Leading, ReadFrom;
    var memory := new Byte[NODE_BYTES];
    var was := PoolMemory(fish.nodes[..]);
    Memory.Memcpy(memory, 0, was, 0, NODE_BYTES);
    assert memory[..] == was;
    ok := LoadMemory(disk, FISH_START_LBA + 1, memory);
    PoolMemoryOf(memory[..]);
    Overlay(fish, memory[..]);
    if ok { ReadIsStored(disk.sectors, FISH_START_LBA + 1, memory[..]); }
  }

  /** The end of `fish_load`: the current directory and the root are checked. */
  method Settle(fish: FishFs, first: seq<Byte>) returns (r: int)
    requires fish.Shaped() && |first| == SECTOR
    modifies fish`current, fish.nodes
    ensures fish.Shaped() && r == if old(Folder(fish.nodes[..], 0)) then FISH_OK else FISH_ERR_FORMAT
    ensures r == FISH_OK ==>
              fish.nodes[..] == old(fish.nodes[..]) && fish.current == SavedCurrent(first, fish.nodes[..])
    ensures r == FISH_ERR_FORMAT ==>
              fish.Valid() && fish.Abs() == EMPTY && fish.Where() == map[0 := []] && fish.current == 0
  {
    hide Word;
    var current := Word(first, 16);
    if current >= FISH_MAX_NODES || fish.nodes[current].used == 0 || fish.nodes[current].isDir == 0 {
      fish.current := 0;
    } else {
      fish.current := current;
    }
    if fish.nodes[0].used == 0 || fish.nodes[0].isDir == 0 {
      fish.FishInit();
      return FISH_ERR_FORMAT;
    }
    return FISH_OK;
  }

  /** The pool takes its new bytes. */
  method Overlay(fish: FishFs, memory: seq<Byte>)
    requires fish.Shaped() && |memory| == NODE_BYTES
    modifies fish.nodes
    ensures fish.Shaped() && fish.nodes[..] == PoolOf(memory)
  {
    var i := 0;
    while i < FISH_MAX_NODES
      invariant 0 <= i <= FISH_MAX_NODES
      invariant forall k | 0 <= k < i :: fish.nodes[k] == PoolOf(memory)[k]
    {
      fish.nodes[i] := NodeAt(memory, NODE_SIZE * i);
      i := i + 1;
    }
    assert fish.nodes[..] == PoolOf(memory);
  }
}
