/** Whole runs of Fish, saves and loads included, against the map of paths. */
module FishSession {
  import opened Bytes
  import opened CStrings
  import opened FishTree
  import opened FishSteps
  import opened FishSpec
  import opened FishPaths
  import opened Fish
  import opened FishImage
  import opened Disk

  datatype Call =
    | Init
    | Mkdir(name: Text)
    | Create(name: Text)
    | Chdir(name: Text)
    | Remove(name: Text)
    | Write(name: Text, text: Text)
    | Append(name: Text, text: Text)
    | SaveCwd
    | RestoreCwd(handle: int)
    | Save
    | Load

  /** The filesystem in memory, and which slot holds which path. */
  datatype State = State(fs: Fs, where: Places)

  const START := State(EMPTY, map[0 := []])

  /** What is in the pool: a tree, or whatever a load that failed on the way left behind. */
  datatype Memory = Whole(state: State) | Torn

  /** What is on the disk: no superblock, the image of a completed save, or anything. */
  datatype Saved = Nothing | Image(state: State) | Unknown

  /** The disk as far as it decides about success: which transfers work, and how many were made. */
  datatype Drive = Drive(present: bool, fate: nat -> Transfer, transfers: nat) {
    ghost predicate Works(n: nat) { Leading(fate, transfers, n) == n }
    ghost function After(n: nat): Drive { this.(transfers := transfers + Attempts(fate, transfers, n)) }
  }

  datatype Session = Session(memory: Memory, saved: Saved, drive: Drive)

  /** The meaning of a call that does not touch the disk, and its result. */
  ghost function InMemory(s: State, call: Call): (State, int)
    requires !call.Init? && !call.Save? && !call.Load?
  {
    match call
    case Mkdir(name) => Made(s, name, Directory)
    case Create(name) => Made(s, name, File([]))
    case Chdir(name) => Plain(s, FishSpec.Chdir(s.fs, name))
    case Remove(name) =>
      var out := FishSpec.Remove(s.fs, name);
      (State(out.fs, Vacate(s.where, s.fs, name, out.code)), out.code)
    case Write(name, text) => Plain(s, FishSpec.Write(s.fs, name, text))
    case Append(name, text) => Plain(s, FishSpec.Append(s.fs, name, text))
    case SaveCwd => (s, SlotHolding(s.where, s.fs.cwd))
    case RestoreCwd(handle) => (s.(fs := s.fs.(cwd := Landing(s.fs.tree, s.where, handle))), FISH_OK)
  }

  /** A call that fills and empties no slot. */
  ghost function Plain(s: State, out: Outcome): (State, int) {
    (s.(fs := out.fs), out.code)
  }

  ghost function Made(s: State, name: Text, entry: Entry): (State, int) {
    var out := FishSpec.Make(s.fs, name, entry);
    (State(out.fs, Occupy(s.where, s.fs, name, out.code)), out.code)
  }

  /** `fish_save`: the image of the pool if every transfer works, and anything if one does not. */
  ghost function Saving(s: Session): (Session, int) {
    if !s.drive.present then (s, FISH_ERR_NODISK)
    else if !s.drive.Works(1 + NODE_SECTORS) then
      (s.(saved := Unknown, drive := s.drive.After(1 + NODE_SECTORS)), FISH_ERR_IO)
    else
      var saved := if s.memory.Whole? then Image(s.memory.state) else Unknown;
      (s.(saved := saved, drive := s.drive.After(1 + NODE_SECTORS)), FISH_OK)
  }

  /** `fish_load`, unless the superblock in front of unknown bytes can be read. The pool is lost when a
      transfer behind the first two fails. */
  ghost function Loading(s: Session): (Session, int) {
    if !s.drive.present then (s, FISH_ERR_NODISK)
    else
      var header := s.(drive := s.drive.After(1));
      if !s.drive.Works(1) then (header, FISH_ERR_IO)
      else if !s.saved.Image? then (header, FISH_ERR_FORMAT)
      else
        var end := header.(drive := header.drive.After(NODE_SECTORS));
        if header.drive.Works(NODE_SECTORS) then (end.(memory := Whole(s.saved.state)), FISH_OK)
        else if !header.drive.Works(1) then (end, FISH_ERR_IO)
        else (end.(memory := Torn), FISH_ERR_IO)
  }

  /** With transfers that work, loading gives back what was saved, whatever happened to the pool in between. */
  lemma LoadUndoesSave(s: Session, between: Memory)
    requires s.memory.Whole? && s.drive.present && s.drive.Works(71) && s.drive.After(71).Works(71)
    ensures var saved := Saving(s).0;
            var loaded := Loading(saved.(memory := between)).0;
            && Saving(s).1 == 0 && saved.memory == s.memory
            && Loading(saved.(memory := between)).1 == 0 && loaded.memory == s.memory
  {
    var t := s.drive.transfers + 71;
    LeadingStep(s.drive.fate, t, 70);
    LeadingStep(s.drive.fate, t, 0);
    assert NODE_SECTORS == 70;
  }

  /** The calls that the model follows: on a broken pool only those that do not look into it, and no load
      of unknown bytes. */
  ghost predicate Follows(s: Session, call: Call) {
    match call
    case Init => true
    case Save => true
    case Load => s.saved.Unknown? ==> !s.drive.present || !s.drive.Works(1)
    case _ => s.memory.Whole?
  }

  /** The meaning of any call, whatever the disk does, and its result. */
  ghost function Step(s: Session, call: Call): (Session, int)
    requires Follows(s, call)
  {
    match call
    case Init => (s.(memory := Whole(START)), FISH_OK)
    case Save => Saving(s)
    case Load => Loading(s)
    case _ =>
      var (state, code) := InMemory(s.memory.state, call);
      (s.(memory := Whole(state)), code)
  }

  ghost predicate FollowsRun(s: Session, calls: seq<Call>)
    decreases |calls|
  {
    calls == [] || (Follows(s, calls[0]) && FollowsRun(Step(s, calls[0]).0, calls[1..]))
  }

  /** All results of a run, and where it ends. */
  ghost function RunOf(s: Session, calls: seq<Call>): (Session, seq<int>)
    requires FollowsRun(s, calls)
    decreases |calls|
  {
    if calls == [] then (s, []) else
      var (next, code) := Step(s, calls[0]);
      var (end, codes) := RunOf(next, calls[1..]);
      (end, [code] + codes)
  }

  // ---------------------------------------------------------------------------
  // The pool and the disk
  // ---------------------------------------------------------------------------

  ghost predicate Archive(sectors: map<nat, seq<Byte>>, saved: Saved) {
    && WholeSectors(sectors)
    && match saved
       case Nothing => !Recognised(Content(sectors, FISH_START_LBA))
       case Image(state) => exists ns: seq<Node>, cur: nat :: ImageOf(sectors, ns, cur, state)
       case Unknown => true
  }

  ghost predicate ImageOf(sectors: map<nat, seq<Byte>>, ns: seq<Node>, cur: nat, state: State) {
    && IsTree(ns) && Folder(ns, cur) && HoldsImage(sectors, ns, cur)
    && state == State(Fs(View(ns), PathOf(ns, cur)), PlacesOf(ns))
  }

  ghost function StateOf(fish: FishFs): State
    requires fish.Valid()
    reads fish, fish.nodes
  {
    State(fish.Abs(), fish.Where())
  }

  ghost function DriveOf(disk: AtaDisk): Drive
    reads disk
  {
    Drive(disk.present, disk.fate, disk.transfers)
  }

  ghost predicate Holding(fish: FishFs, memory: Memory)
    reads fish, fish.nodes
  {
    && fish.Shaped() && 0 <= fish.current < FISH_MAX_NODES
    && (memory.Whole? ==> fish.Valid() && StateOf(fish) == memory.state)
  }

  /** The session describes this pool and this disk. */
  ghost predicate Describes(s: Session, fish: FishFs, disk: AtaDisk)
    reads fish, fish.nodes, disk
  {
    Holding(fish, s.memory) && disk.Valid() && s.drive == DriveOf(disk) && Archive(disk.sectors, s.saved)
  }

  method Perform(fish: FishFs, disk: AtaDisk, call: Call, ghost s: Session) returns (r: int, ghost t: Session)
    requires Describes(s, fish, disk) && Follows(s, call)
    modifies fish`current, fish.nodes, disk`transfers, disk`sectors
    ensures Describes(t, fish, disk) && (t, r) == Step(s, call)
  {
    hide InMemory, Archive, Saving, Loading, View, PathOf, PlacesOf, IsTree;
    t := Step(s, call).0;
    match call {
      case Init => fish.FishInit(); r := FISH_OK;
      case Save => r := SaveAll(fish, disk, s);
      case Load => r := LoadAll(fish, disk, s);
      case _ => r := PerformInMemory(fish, call);
    }
  }

  method PerformInMemory(fish: FishFs, call: Call) returns (r: int)
    requires fish.Valid() && !call.Init? && !call.Save? && !call.Load?
    modifies fish`current, fish.nodes
    ensures fish.Valid() && Holding(fish, Whole(StateOf(fish)))
    ensures (StateOf(fish), r) == InMemory(old(StateOf(fish)), call)
  {
    hide View, PathOf, PlacesOf, InMemory;
    if call.Mkdir? || call.Create? || call.Remove? {
      r := PerformOnSlots(fish, call);
    } else if call.SaveCwd? || call.RestoreCwd? {
      r := PerformOnHandle(fish, call);
    } else {
      r := PerformInPlace(fish, call);
    }
  }

  /** The calls that fill or empty a slot. */
  method PerformOnSlots(fish: FishFs, call: Call) returns (r: int)
    requires fish.Valid() && (call.Mkdir? || call.Create? || call.Remove?)
    modifies fish.nodes
    ensures fish.Valid() && (StateOf(fish), r) == InMemory(old(StateOf(fish)), call)
  {
    hide IsTree, View, PathOf, PlacesOf, Occupy, Vacate, FishSpec.Make, FishSpec.Remove;
    match call {
      case Mkdir(name) => r := fish.FishMkdir(name);
      case Create(name) => r := fish.FishCreate(name);
      case Remove(name) => r := fish.FishRemove(name);
    }
  }

  method PerformOnHandle(fish: FishFs, call: Call) returns (r: int)
    requires fish.Valid() && (call.SaveCwd? || call.RestoreCwd?)
    modifies fish`current
    ensures fish.Valid() && (StateOf(fish), r) == InMemory(old(StateOf(fish)), call)
  {
    hide IsTree, View, PathOf, PlacesOf, Landing, SlotHolding;
    match call {
      case SaveCwd => r := fish.FishSaveCwd();
      case RestoreCwd(handle) => fish.FishRestoreCwd(handle); r := FISH_OK;
    }
  }

  /** The calls that leave every used slot where it is. */
  method PerformInPlace(fish: FishFs, call: Call) returns (r: int)
    requires fish.Valid() && (call.Chdir? || call.Write? || call.Append?)
    modifies fish`current, fish.nodes
    ensures fish.Valid() && (StateOf(fish), r) == InMemory(old(StateOf(fish)), call)
  {
    hide IsTree, View, PathOf, PlacesOf, FishSpec.Chdir, FishSpec.Write, FishSpec.Append;
    match call {
      case Chdir(name) => r := fish.FishChdir(name);
      case Write(name, text) => r := fish.FishWrite(name, text);
      case Append(name, text) => r := fish.FishAppend(name, text);
    }
  }

  method SaveAll(fish: FishFs, disk: AtaDisk, ghost s: Session) returns (r: int)
    requires Describes(s, fish, disk)
    modifies disk`transfers, disk`sectors
    ensures Describes(Saving(s).0, fish, disk) && r == Saving(s).1
  {
    hide IsTree, View, PathOf, PlacesOf, Recognised, Content, PoolMemory, Leading, Attempts;
    hide HoldsImage, SavedUpTo, OnlyWithin;
    LeadingAll(disk.fate, disk.transfers, 1 + NODE_SECTORS);
    r := FishSave(fish, disk);
    if r == FISH_OK && s.memory.Whole? {
      assert ImageOf(disk.sectors, fish.nodes[..], fish.current, StateOf(fish));
    }
  }

  method LoadAll(fish: FishFs, disk: AtaDisk, ghost s: Session) returns (r: int)
    requires Describes(s, fish, disk) && Follows(s, Load)
    modifies fish`current, fish.nodes, disk`transfers
    ensures Describes(Loading(s).0, fish, disk) && r == Loading(s).1
  {
    hide IsTree, View, PathOf, PlacesOf, Recognised, Content, Stored, PoolOf, PoolMemory, Leading, Attempts, CopiedUpTo;
    hide ImageOf, Archive, StoredPool, SavedCurrent;
    LoadCodeIs(s, disk);
    ghost var was := fish.nodes[..];
    r := FishLoad(fish, disk);
    if r == FISH_OK {
      LoadedState(disk.sectors, s.saved.state);
    } else if Leading(disk.fate, s.drive.transfers + 1, NODE_SECTORS) == 0 && r == FISH_ERR_IO {
      if old(Admitted(disk)) { NothingCopied(disk.sectors, was, fish.nodes[..]); }
    }
  }

  lemma SavedRecognised(sectors: map<nat, seq<Byte>>, saved: Saved)
    requires Archive(sectors, saved)
    ensures WholeSectors(sectors)
    ensures saved.Nothing? ==> !Recognised(Content(sectors, FISH_START_LBA))
    ensures saved.Image? ==> Recognised(Content(sectors, FISH_START_LBA)) && Folder(StoredPool(sectors), 0)
  {
    hide View, PathOf, PlacesOf, Recognised, Stored, PoolOf, PoolMemory, HoldsImage;
    if saved.Image? {
      var ns: seq<Node>, cur: nat :| ImageOf(sectors, ns, cur, saved.state);
      ImageStored(sectors, ns, cur);
    }
  }

  /** What `fish_load` returns and how far it gets, in terms of the session. */
  lemma LoadCodeIs(s: Session, disk: AtaDisk)
    requires disk.Valid() && s.drive == DriveOf(disk) && Archive(disk.sectors, s.saved) && Follows(s, Load)
    ensures LoadCode(disk) == Loading(s).1
    ensures Admitted(disk) <==> disk.present && s.drive.Works(1) && s.saved.Image?
    ensures s.drive.After(1).transfers == disk.transfers + 1
  {
    hide Archive, Recognised, StoredPool, Leading, Folder, Content;
    SavedRecognised(disk.sectors, s.saved);
    LeadingAll(disk.fate, disk.transfers, 1);
    LeadingAll(disk.fate, disk.transfers, 1 + NODE_SECTORS);
    LeadingAll(disk.fate, disk.transfers + 1, NODE_SECTORS);
  }

  /** The pool and the directory that an image holds stand for the state that was saved. */
  lemma LoadedState(sectors: map<nat, seq<Byte>>, state: State)
    requires Archive(sectors, Image(state))
    ensures var ns := StoredPool(sectors);
            var cur := SavedCurrent(Content(sectors, FISH_START_LBA), ns);
            IsTree(ns) && Folder(ns, cur) && state == State(Fs(View(ns), PathOf(ns, cur)), PlacesOf(ns))
  {
    var ns: seq<Node>, cur: nat :| ImageOf(sectors, ns, cur, state);
    hide IsTree, View, PathOf, PlacesOf, Recognised, Stored, PoolOf, PoolMemory, HoldsImage;
    ImageStored(sectors, ns, cur);
  }

  lemma NothingCopied(sectors: map<nat, seq<Byte>>, ns: seq<Node>, ns': seq<Node>)
    requires Pool(ns) && Pool(ns') && CopiedUpTo(sectors, FISH_START_LBA + 1, PoolMemory(ns), PoolMemory(ns'), 0)
    ensures ns == ns'
  {
    PoolRoundTrip(ns);
    PoolRoundTrip(ns');
  }

  /** Every run behaves like the map of paths, on any disk: without one, on one that works, and on one on
      which transfers fail. Same results, same final tree, same current directory, same meaning of every
      handle. The pool is a tree whenever the model says so. */
  method Replay(fish: FishFs, disk: AtaDisk, calls: seq<Call>, ghost s: Session)
      returns (codes: seq<int>, ghost t: Session)
    requires Describes(s, fish, disk) && FollowsRun(s, calls)
    modifies fish`current, fish.nodes, disk`transfers, disk`sectors
    ensures Describes(t, fish, disk) && (t, codes) == RunOf(s, calls)
    ensures t.memory.Whole? ==> Rooted(t.memory.state.fs)
    decreases |calls|
  {
    if calls == [] {
      if s.memory.Whole? { TreeRooted(fish.nodes[..], fish.current); }
      return [], s;
    }
    hide Step, Describes, Follows;
    var r, mid := Perform(fish, disk, calls[0], s);
    var rest;
    rest, t := Replay(fish, disk, calls[1..], mid);
    codes := [r] + rest;
  }
}
