/** The disk behind drivers/ata.c, one sector at a time, and the copying of a block of memory of any
    length to and from it. */
module Disk {
  import opened Bytes
  import Memory

  const SECTOR := 512

  /** What happens to one transfer: it works, or it fails with a code, and a failing transfer leaves
      arbitrary bytes where it was writing to. */
  datatype Transfer = Fine | Broken(code: int, left: seq<Byte>)

  function Zeros(n: nat): (s: seq<Byte>)
    ensures |s| == n && forall k | 0 <= k < n :: s[k] == 0
  {
    seq(n, _ => 0)
  }

  /** The contents of a sector. */
  function Content(sectors: map<nat, seq<Byte>>, lba: nat): seq<Byte> {
    if lba in sectors then sectors[lba] else Zeros(SECTOR)
  }

  ghost predicate WholeSectors(sectors: map<nat, seq<Byte>>) {
    forall lba | lba in sectors :: |sectors[lba]| == SECTOR
  }

  /** How many of the `n` transfers from number `from` on work before the first one that does not. */
  ghost function Leading(fate: nat -> Transfer, from: nat, n: nat): (k: nat)
    ensures k <= n && (forall j | from <= j < from + k :: fate(j).Fine?) && (k < n ==> fate(from + k).Broken?)
    decreases n
  {
    if n == 0 || fate(from).Broken? then 0 else 1 + Leading(fate, from + 1, n - 1)
  }

  /** How many of them are made: up to the first failure. */
  ghost function Attempts(fate: nat -> Transfer, from: nat, n: nat): nat {
    var k := Leading(fate, from, n);
    if k < n then k + 1 else n
  }

  lemma LeadingAll(fate: nat -> Transfer, from: nat, n: nat)
    ensures Leading(fate, from, n) == n <==> forall k | from <= k < from + n :: fate(k).Fine?
  {
  }

  lemma LeadingStep(fate: nat -> Transfer, from: nat, n: nat)
    ensures Leading(fate, from, 1 + n) == if fate(from).Broken? then 0 else 1 + Leading(fate, from + 1, n)
    ensures Attempts(fate, from, 1 + n) == if fate(from).Broken? then 1 else 1 + Attempts(fate, from + 1, n)
  {
  }

  lemma {:induction false} LeadingIs(fate: nat -> Transfer, from: nat, n: nat, k: nat)
    requires k <= n && (forall j | from <= j < from + k :: fate(j).Fine?) && (k < n ==> fate(from + k).Broken?)
    ensures Leading(fate, from, n) == k
    decreases n
  {
    if k > 0 {
      assert fate(from).Fine?;
      LeadingIs(fate, from + 1, n - 1, k - 1);
    }
  }

  class AtaDisk {
    var present: bool
    var sectors: map<nat, seq<Byte>>
    /** How many transfers have been made, and the fate of each. */
    var transfers: nat
    const fate: nat -> Transfer

    ghost predicate Valid()
      reads this
    {
      && WholeSectors(sectors)
      && (forall n :: fate(n).Broken? ==> fate(n).code != 0 && |fate(n).left| == SECTOR)
    }

    /** Whether each of the next `n` transfers will work. */
    ghost predicate Works(n: nat)
      reads this
    {
      forall k | transfers <= k < transfers + n :: fate(k).Fine?
    }

    constructor (present: bool, sectors: map<nat, seq<Byte>>, fate: nat -> Transfer)
      requires WholeSectors(sectors)
      requires forall n :: fate(n).Broken? ==> fate(n).code != 0 && |fate(n).left| == SECTOR
      ensures Valid() && this.present == present && this.sectors == sectors && this.fate == fate && transfers == 0
    {
      this.present := present;
      this.sectors := sectors;
      this.fate := fate;
      transfers := 0;
    }

    /** `ata_read` of one sector. */
    method Read(lba: nat, buffer: array<Byte>) returns (r: int)
      requires Valid() && buffer.Length == SECTOR
      modifies `transfers, buffer
      ensures Valid() && transfers == old(transfers) + (if present then 1 else 0)
      ensures r == 0 <==> present && old(Works(1))
      ensures r == 0 ==> buffer[..] == Content(sectors, lba)
    {
      if !present { return -1; }
      var outcome := fate(transfers);
      transfers := transfers + 1;
      match outcome {
        case Fine =>
          var data := Content(sectors, lba);
          Memory.Memcpy(buffer, 0, data, 0, SECTOR);
          assert buffer[..] == data;
          return 0;
        case Broken(code, left) =>
          Memory.Memcpy(buffer, 0, left, 0, SECTOR);
          return code;
      }
    }

    /** `ata_write` of one sector. */
    method Write(lba: nat, buffer: array<Byte>) returns (r: int)
      requires Valid() && buffer.Length == SECTOR
      modifies `transfers, `sectors
      ensures Valid() && transfers == old(transfers) + (if present then 1 else 0)
      ensures r == 0 <==> present && old(Works(1))
      ensures r == 0 ==> sectors == old(sectors)[lba := buffer[..]]
      ensures !present ==> sectors == old(sectors)
      ensures forall other: nat | other != lba :: Content(sectors, other) == Content(old(sectors), other)
    {
      if !present { return -1; }
      var outcome := fate(transfers);
      transfers := transfers + 1;
      match outcome {
        case Fine =>
          sectors := sectors[lba := buffer[..]];
          return 0;
        case Broken(code, left) =>
          sectors := sectors[lba := left];
          return code;
      }
    }
  }

  // ---------------------------------------------------------------------------
  // Memory of any length on consecutive sectors
  // ---------------------------------------------------------------------------

  /** The number of sectors that `n` bytes need. */
  function SectorsFor(n: nat): nat {
    (n + SECTOR - 1) / SECTOR
  }

  /** Where the part of `n` bytes that goes to the `s`th sector ends. */
  function ChunkEnd(n: nat, s: nat): nat {
    if n < SECTOR * (s + 1) then n else SECTOR * (s + 1)
  }

  /** The `s`th sector of a stretch of memory: its bytes, padded with zeros if they run out. */
  ghost function Chunk(m: seq<Byte>, s: nat): (c: seq<Byte>)
    requires s < SectorsFor(|m|)
    ensures |c| == SECTOR
    ensures forall k | 0 <= k < 512 :: c[k] == if 512 * s + k < |m| then m[512 * s + k] else 0
  {
    var part := m[SECTOR * s..ChunkEnd(|m|, s)];
    part + Zeros(SECTOR - |part|)
  }

  /** The sectors from `start` on hold the memory `m`. */
  ghost predicate Holds(sectors: map<nat, seq<Byte>>, start: nat, m: seq<Byte>) {
    forall s: nat | s < SectorsFor(|m|) :: Content(sectors, start + s) == Chunk(m, s)
  }

  /** The part of `m` that belongs to the `s`th sector was read from there. */
  ghost predicate PartFrom(sectors: map<nat, seq<Byte>>, start: nat, m: seq<Byte>, s: nat)
    requires s < SectorsFor(|m|)
  {
    && |Content(sectors, start + s)| == SECTOR
    && m[SECTOR * s..ChunkEnd(|m|, s)] == Content(sectors, start + s)[..ChunkEnd(|m|, s) - SECTOR * s]
  }

  /** `m` was read from the sectors from `start` on. */
  ghost predicate ReadFrom(sectors: map<nat, seq<Byte>>, start: nat, m: seq<Byte>) {
    forall s: nat | s < SectorsFor(|m|) :: PartFrom(sectors, start, m, s)
  }

  /** The `n` bytes that the sectors from `start` on hold. */
  ghost function Stored(sectors: map<nat, seq<Byte>>, start: nat, n: nat): (m: seq<Byte>)
    requires WholeSectors(sectors)
    ensures |m| == n
  {
    seq(n, i requires 0 <= i < n => Content(sectors, start + i / SECTOR)[i % SECTOR])
  }

  /** Reading memory from the sectors gives exactly the bytes that they hold. */
  lemma ReadIsStored(sectors: map<nat, seq<Byte>>, start: nat, m: seq<Byte>)
    requires WholeSectors(sectors) && ReadFrom(sectors, start, m)
    ensures m == Stored(sectors, start, |m|)
  {
    forall k | 0 <= k < |m|
      ensures m[k] == Stored(sectors, start, |m|)[k]
    {
      var s := SectorOf(k, |m|);
      assert PartFrom(sectors, start, m, s);
      PartByte(sectors, start, m, s, k);
    }
  }

  lemma PartByte(sectors: map<nat, seq<Byte>>, start: nat, m: seq<Byte>, s: nat, k: nat)
    requires s < SectorsFor(|m|) && SECTOR * s <= k < ChunkEnd(|m|, s) && PartFrom(sectors, start, m, s)
    ensures k - SECTOR * s < SECTOR && m[k] == Content(sectors, start + s)[k - SECTOR * s]
  {
    hide SectorsFor;
    assert m[k] == m[SECTOR * s..ChunkEnd(|m|, s)][k - SECTOR * s];
  }

  /** Sectors that hold memory store it. */
  lemma HeldIsStored(sectors: map<nat, seq<Byte>>, start: nat, m: seq<Byte>)
    requires WholeSectors(sectors) && Holds(sectors, start, m)
    ensures Stored(sectors, start, |m|) == m
  {
    forall s: nat | s < SectorsFor(|m|) ensures PartFrom(sectors, start, m, s) {
      assert Content(sectors, start + s) == Chunk(m, s);
    }
    ReadIsStored(sectors, start, m);
  }

  /** Copying the next sector leaves the parts that were read before alone. */
  lemma ReadStep(sectors: map<nat, seq<Byte>>, start: nat, m: seq<Byte>, m': seq<Byte>, s: nat)
    requires s < SectorsFor(|m|) && |Content(sectors, start + s)| == SECTOR
    requires forall k: nat | k < s :: PartFrom(sectors, start, m, k)
    requires m' == m[..SECTOR * s] + Content(sectors, start + s)[..ChunkEnd(|m|, s) - SECTOR * s]
                 + m[ChunkEnd(|m|, s)..]
    ensures |m'| == |m| && forall k: nat | k <= s :: PartFrom(sectors, start, m', k)
  {
    forall k: nat | k <= s ensures PartFrom(sectors, start, m', k) {
      var lo, hi := SECTOR * k, ChunkEnd(|m|, k);
      if k < s {
        assert PartFrom(sectors, start, m, k);
        assert m'[lo..hi] == m[lo..hi];
      }
    }
  }

  lemma SectorOf(k: nat, n: nat) returns (s: nat)
    requires k < n
    ensures s == k / SECTOR && k == SECTOR * s + k % SECTOR
    ensures s < SectorsFor(n) && SECTOR * s <= k < ChunkEnd(n, s)
  {
    s := k / SECTOR;
  }

  /** Memory that was read from where other memory of the same length is held is that memory. */
  lemma ReadBack(sectors: map<nat, seq<Byte>>, start: nat, m: seq<Byte>, m': seq<Byte>)
    requires Holds(sectors, start, m) && ReadFrom(sectors, start, m') && |m| == |m'|
    ensures m == m'
  {
    hide Chunk, Content, PartFrom, SectorsFor;
    forall k | 0 <= k < |m|
      ensures m[k] == m'[k]
    {
      var s := SectorOf(k, |m|);
      assert PartFrom(sectors, start, m', s);
      SamePart(sectors, start, m, m', s, k);
    }
  }

  lemma SamePart(sectors: map<nat, seq<Byte>>, start: nat, m: seq<Byte>, m': seq<Byte>, s: nat, k: nat)
    requires |m| == |m'| && s < SectorsFor(|m|) && SECTOR * s <= k < ChunkEnd(|m|, s)
    requires Content(sectors, start + s) == Chunk(m, s) && PartFrom(sectors, start, m', s)
    ensures m[k] == m'[k]
  {
    hide SectorsFor;
    var lo, hi := SECTOR * s, ChunkEnd(|m|, s);
    assert m'[lo..hi] == Chunk(m, s)[..hi - lo] == m[lo..hi];
    assert m'[k] == m'[lo..hi][k - lo] && m[k] == m[lo..hi][k - lo];
  }

  /** Only sectors of the stretch that `n` bytes take up from `start` on have changed. */
  ghost predicate OnlyWithin(was: map<nat, seq<Byte>>, now: map<nat, seq<Byte>>, start: nat, count: nat) {
    forall lba: nat | !(start <= lba < start + count) :: Content(now, lba) == Content(was, lba)
  }

  /** The next sector to write goes through a zeroed buffer, so that a partly filled one is padded. */
  method FillSector(sector: array<Byte>, source: seq<Byte>, written: nat, ghost s: nat) returns (chunk: nat)
    requires sector.Length == SECTOR && s < SectorsFor(|source|) && written == SECTOR * s
    modifies sector
    ensures sector[..] == Chunk(source, s) && chunk == ChunkEnd(|source|, s) - written
  {
    var remaining := |source| - written;
    chunk := if remaining < SECTOR then remaining else SECTOR;
    Memory.Memset(sector, 0, 0, SECTOR);
    Memory.Memcpy(sector, 0, source, written, chunk);
  }

  /** The first `k` of `count` sectors have been written and the others from the one behind them on have not;
      the one in between, if there is one, holds whatever a failing transfer left. */
  ghost predicate WrittenUpTo(was: map<nat, seq<Byte>>, now: map<nat, seq<Byte>>, start: nat, m: seq<Byte>, k: nat)
    requires k <= SectorsFor(|m|)
  {
    && (forall s: nat | s < k :: Content(now, start + s) == Chunk(m, s))
    && OnlyWithin(was, now, start, if k < SectorsFor(|m|) then k + 1 else k)
  }

  ghost predicate ExactlyWritten(was: map<nat, seq<Byte>>, now: map<nat, seq<Byte>>, start: nat, m: seq<Byte>, k: nat)
    requires k <= SectorsFor(|m|)
  {
    (forall s: nat | s < k :: Content(now, start + s) == Chunk(m, s)) && OnlyWithin(was, now, start, k)
  }

  lemma NoneWritten(was: map<nat, seq<Byte>>, start: nat, m: seq<Byte>)
    ensures ExactlyWritten(was, was, start, m, 0)
  {
  }

  lemma WriteStep(was: map<nat, seq<Byte>>, now: map<nat, seq<Byte>>, next: map<nat, seq<Byte>>,
                  start: nat, m: seq<Byte>, k: nat)
    requires k < SectorsFor(|m|) && ExactlyWritten(was, now, start, m, k) && next == now[start + k := Chunk(m, k)]
    ensures ExactlyWritten(was, next, start, m, k + 1)
  {
    hide Chunk, SectorsFor;
  }

  lemma WriteFailed(was: map<nat, seq<Byte>>, now: map<nat, seq<Byte>>, next: map<nat, seq<Byte>>,
                    start: nat, m: seq<Byte>, k: nat)
    requires k < SectorsFor(|m|) && ExactlyWritten(was, now, start, m, k)
    requires forall other: nat | other != start + k :: Content(next, other) == Content(now, other)
    ensures WrittenUpTo(was, next, start, m, k) && OnlyWithin(was, next, start, SectorsFor(|m|))
  {
    hide Chunk, SectorsFor;
  }

  lemma AllWritten(was: map<nat, seq<Byte>>, now: map<nat, seq<Byte>>, start: nat, m: seq<Byte>)
    requires ExactlyWritten(was, now, start, m, SectorsFor(|m|))
    ensures WrittenUpTo(was, now, start, m, SectorsFor(|m|)) && Holds(now, start, m)
    ensures OnlyWithin(was, now, start, SectorsFor(|m|))
  {
    hide Chunk, SectorsFor;
  }

  /** The sector loop of `fish_save`. It stops behind the first transfer that fails. */
  method SaveMemory(disk: AtaDisk, start: nat, source: seq<Byte>) returns (ok: bool)
    requires disk.Valid() && disk.present
    modifies disk`transfers, disk`sectors
    ensures disk.Valid()
    ensures ok <==> old(disk.Works(SectorsFor(|source|)))
    ensures ok ==> Holds(disk.sectors, start, source)
    ensures disk.transfers == old(disk.transfers) + Attempts(disk.fate, old(disk.transfers), SectorsFor(|source|))
    ensures WrittenUpTo(old(disk.sectors), disk.sectors, start, source,
                        Leading(disk.fate, old(disk.transfers), SectorsFor(|source|)))
    ensures OnlyWithin(old(disk.sectors), disk.sectors, start, SectorsFor(|source|))
  {
    hide Chunk, Leading, ExactlyWritten, WrittenUpTo, OnlyWithin, Holds, Content;
    ghost var was := disk.sectors;
    NoneWritten(was, start, source);
    var sector := new Byte[SECTOR];
    var written := 0;
    var s := 0;
    while s < SectorsFor(|source|)
      invariant disk.Valid() && s <= SectorsFor(|source|)
      invariant written == (if SECTOR * s < |source| then SECTOR * s else |source|)
      invariant ExactlyWritten(was, disk.sectors, start, source, s)
      invariant old(disk.Works(s)) && disk.transfers == old(disk.transfers) + s
    {
      ghost var now := disk.sectors;
      var chunk := FillSector(sector, source, written, s);
      var r := disk.Write(start + s, sector);
      if r != 0 {
        LeadingIs(disk.fate, old(disk.transfers), SectorsFor(|source|), s);
        WriteFailed(was, now, disk.sectors, start, source, s);
        return false;
      }
      WriteStep(was, now, disk.sectors, start, source, s);
      written := written + chunk;
      s := s + 1;
    }
    LeadingIs(disk.fate, old(disk.transfers), s, s);
    AllWritten(was, disk.sectors, start, source);
    return true;
  }

  /** The first `k` sectors have been copied and the bytes behind them are as they were. */
  ghost predicate CopiedUpTo(sectors: map<nat, seq<Byte>>, start: nat, was: seq<Byte>, now: seq<Byte>, k: nat) {
    && |was| == |now| && k <= SectorsFor(|now|)
    && (forall s: nat | s < k :: PartFrom(sectors, start, now, s))
    && (SECTOR * k <= |now| ==> now[SECTOR * k..] == was[SECTOR * k..])
  }

  /** Byte by byte: what the first `k` sectors hold, and behind it what was there before. */
  lemma CopiedBytes(sectors: map<nat, seq<Byte>>, start: nat, was: seq<Byte>, now: seq<Byte>, k: nat)
    requires WholeSectors(sectors) && CopiedUpTo(sectors, start, was, now, k)
    ensures |now| == |was|
    ensures forall j | 0 <= j < |now| ::
              now[j] == if j < 512 * k then Content(sectors, start + j / 512)[j % 512] else was[j]
  {
    forall j | 0 <= j < |now|
      ensures now[j] == if j < 512 * k then Content(sectors, start + j / 512)[j % 512] else was[j]
    {
      var s := SectorOf(j, |now|);
      if j < 512 * k {
        assert PartFrom(sectors, start, now, s);
        PartByte(sectors, start, now, s, j);
      } else {
        assert now[j] == now[SECTOR * k..][j - SECTOR * k] == was[SECTOR * k..][j - SECTOR * k];
      }
    }
  }

  /** The sector loop of `fish_load`. A failing read leaves the memory overwritten up to there. */
  method LoadMemory(disk: AtaDisk, start: nat, dest: array<Byte>) returns (ok: bool)
    requires disk.Valid() && disk.present
    modifies disk`transfers, dest
    ensures disk.Valid()
    ensures ok <==> old(disk.Works(SectorsFor(dest.Length)))
    ensures ok ==> ReadFrom(disk.sectors, start, dest[..])
    ensures disk.transfers == old(disk.transfers) + Attempts(disk.fate, old(disk.transfers), SectorsFor(dest.Length))
    ensures CopiedUpTo(disk.sectors, start, old(dest[..]), dest[..],
                       Leading(disk.fate, old(disk.transfers), SectorsFor(dest.Length)))
  {
    hide Leading, CopiedUpTo, ReadFrom, PartFrom, Content;
    ghost var was := dest[..];
    NoneCopied(disk.sectors, start, was);
    var sector := new Byte[SECTOR];
    var readSoFar := 0;
    var s := 0;
    while s < SectorsFor(dest.Length)
      invariant disk.Valid() && s <= SectorsFor(dest.Length)
      invariant readSoFar == (if SECTOR * s < dest.Length then SECTOR * s else dest.Length)
      invariant CopiedUpTo(disk.sectors, start, was, dest[..], s)
      invariant old(disk.Works(s)) && disk.transfers == old(disk.transfers) + s
    {
      var remaining := dest.Length - readSoFar;
      var chunk := if remaining < SECTOR then remaining else SECTOR;
      var r := disk.Read(start + s, sector);
      if r != 0 {
        LeadingIs(disk.fate, old(disk.transfers), SectorsFor(dest.Length), s);
        return false;
      }
      ghost var m := dest[..];
      Memory.Memcpy(dest, readSoFar, sector[..], 0, chunk);
      CopyStep(disk.sectors, start, was, m, dest[..], s);
      readSoFar := readSoFar + chunk;
      s := s + 1;
    }
    LeadingIs(disk.fate, old(disk.transfers), s, s);
    AllCopied(disk.sectors, start, was, dest[..]);
    return true;
  }

  lemma NoneCopied(sectors: map<nat, seq<Byte>>, start: nat, was: seq<Byte>)
    ensures CopiedUpTo(sectors, start, was, was, 0)
  {
  }

  lemma AllCopied(sectors: map<nat, seq<Byte>>, start: nat, was: seq<Byte>, now: seq<Byte>)
    requires CopiedUpTo(sectors, start, was, now, SectorsFor(|now|))
    ensures ReadFrom(sectors, start, now)
  {
  }

  lemma CopyStep(sectors: map<nat, seq<Byte>>, start: nat, was: seq<Byte>, m: seq<Byte>, m': seq<Byte>, s: nat)
    requires s < SectorsFor(|m|) && |Content(sectors, start + s)| == SECTOR
    requires CopiedUpTo(sectors, start, was, m, s)
    requires m' == m[..SECTOR * s] + Content(sectors, start + s)[..ChunkEnd(|m|, s) - SECTOR * s]
                 + m[ChunkEnd(|m|, s)..]
    ensures CopiedUpTo(sectors, start, was, m', s + 1)
  {
    ReadStep(sectors, start, m, m', s);
    if SECTOR * (s + 1) <= |m'| {
      assert m'[SECTOR * (s + 1)..] == m[SECTOR * s..][SECTOR..] == was[SECTOR * (s + 1)..];
    }
  }
}
