/** What the handles of `fish_save_cwd` are worth. A handle is a slot, and slots are handed out again, so
    coming back depends on what happened in between: exactly when it works, over whole runs on any disk. */
module FishHandles {
  import opened CStrings
  import opened FishTree
  import opened FishSpec
  import opened FishPaths
  import opened Fish
  import opened Disk
  import opened FishImage
  import opened FishSession

  /** The handle stands for a directory with this path. */
  ghost predicate DenotesIn(s: State, handle: int, p: Path) {
    handle in s.where && s.where[handle] == p && p in s.fs.tree && s.fs.tree[p].Directory?
  }

  ghost predicate Denotes(s: Session, handle: int, p: Path) {
    s.memory.Whole? && DenotesIn(s.memory.state, handle, p)
  }

  /** Every slot holds a path of the tree. */
  ghost predicate Placed(s: State) {
    forall i | i in s.where :: s.where[i] in s.fs.tree
  }

  ghost predicate Sound(s: Session) {
    && (s.memory.Whole? ==> Placed(s.memory.state))
    && (s.saved.Image? ==> Placed(s.saved.state))
  }

  /** This call of `fish_load` gets to the pool. */
  ghost predicate Admits(s: Session) {
    s.drive.present && s.drive.Works(1) && s.saved.Image?
  }

  /** This call takes the directory out of the slot: it removes that path, starts Fish anew, or loads an image
      that does not have it there, or loads half an image. */
  ghost predicate Loses(s: Session, call: Call, handle: int, p: Path)
    requires Follows(s, call)
  {
    match call
    case Remove(name) =>
      var fs := s.memory.state.fs;
      fs.cwd + [name] == p && FishSpec.Remove(fs, name).code == FISH_OK
    case Init => !DenotesIn(START, handle, p)
    case Load =>
      && Admits(s) && s.drive.After(1).Works(1)
      && !(Loading(s).1 == FISH_OK && DenotesIn(s.saved.state, handle, p))
    case _ => false
  }

  /** This call puts a directory of that path into the slot. */
  ghost predicate Gains(s: Session, call: Call, handle: int, p: Path)
    requires Follows(s, call)
  {
    match call
    case Mkdir(name) =>
      var state := s.memory.state;
      && state.fs.cwd + [name] == p && FishSpec.Make(state.fs, name, Directory).code == FISH_OK
      && FreeFrom(state.where, 1) == handle
    case Init => DenotesIn(START, handle, p)
    case Load => Loading(s).1 == FISH_OK && DenotesIn(s.saved.state, handle, p)
    case _ => false
  }

  /** One call: the handle stands for the path afterwards exactly if the call put it there, or if it did so
      before and the call did not take it away. Nothing else matters, not even to its ancestors. */
  lemma DenotesStep(s: Session, call: Call, handle: int, p: Path)
    requires Sound(s) && Follows(s, call)
    ensures Sound(Step(s, call).0)
    ensures Denotes(Step(s, call).0, handle, p)
        <==> Gains(s, call, handle, p) || (Denotes(s, handle, p) && !Loses(s, call, handle, p))
  {
    match call {
      case Mkdir(name) => MadeStep(s.memory.state, name, Directory, handle, p);
      case Create(name) => MadeStep(s.memory.state, name, File([]), handle, p);
      case Remove(name) => hide ValidName, FreeFrom, Landing, SlotHolding;
      case Save => hide ValidName, FreeFrom, Landing, SlotHolding;
      case Load => LoadStep(s, handle, p);
      case _ => hide ValidName, FreeFrom, Landing, SlotHolding;
    }
  }

  lemma MadeStep(s: State, name: Text, entry: Entry, handle: int, p: Path)
    requires Placed(s) && (entry.Directory? || entry == File([]))
    ensures var (t, code) := Made(s, name, entry);
            && Placed(t)
            && (DenotesIn(t, handle, p) <==>
                || (code == FISH_OK && entry.Directory? && s.fs.cwd + [name] == p && FreeFrom(s.where, 1) == handle)
                || DenotesIn(s, handle, p))
  {
    hide ValidName, FreeFrom;
  }

  lemma LoadStep(s: Session, handle: int, p: Path)
    requires Sound(s) && Follows(s, Load)
    ensures Sound(Loading(s).0)
    ensures Denotes(Loading(s).0, handle, p)
        <==> Gains(s, Load, handle, p) || (Denotes(s, handle, p) && !Loses(s, Load, handle, p))
  {
    hide Leading, Attempts, DenotesIn;
  }

  // ---------------------------------------------------------------------------
  // Runs
  // ---------------------------------------------------------------------------

  /** Whether the handle stands for the path at the end of a run, told from the calls that gave and took it. */
  ghost predicate InTheEnd(s: Session, calls: seq<Call>, handle: int, p: Path, now: bool)
    requires FollowsRun(s, calls)
    decreases |calls|
  {
    if calls == [] then now else
      InTheEnd(Step(s, calls[0]).0, calls[1..], handle, p,
               Gains(s, calls[0], handle, p) || (now && !Loses(s, calls[0], handle, p)))
  }

  /** Over every run: the handle leads to a path below the root if and only if the last call that gave or took
      it, if there was one, gave it; without such a call, if and only if it did so before. */
  lemma {:induction false} HandleExactly(s: Session, calls: seq<Call>, handle: int, p: Path)
    requires Sound(s) && FollowsRun(s, calls)
    ensures var end := RunOf(s, calls).0;
            && (Denotes(end, handle, p) <==> InTheEnd(s, calls, handle, p, Denotes(s, handle, p)))
            && (end.memory.Whole? && p != [] ==>
                  (LandsAt(end.memory.state, handle) == p <==> Denotes(end, handle, p)))
    decreases |calls|
  {
    if calls != [] {
      hide Step, Follows, Gains, Loses, Denotes, Sound;
      DenotesStep(s, calls[0], handle, p);
      HandleExactly(Step(s, calls[0]).0, calls[1..], handle, p);
    }
  }

  ghost function LandsAt(s: State, handle: int): Path {
    Landing(s.fs.tree, s.where, handle)
  }

  /** Some call of the run takes the directory out of the slot. */
  ghost predicate Lost(s: Session, calls: seq<Call>, handle: int, p: Path)
    requires FollowsRun(s, calls)
    decreases |calls|
  {
    calls != [] && (Loses(s, calls[0], handle, p) || Lost(Step(s, calls[0]).0, calls[1..], handle, p))
  }

  /** The directories that a call makes or loads. */
  ghost function NewDirectories(s: Session, call: Call): set<Path>
    requires Follows(s, call)
  {
    match call
    case Mkdir(name) =>
      var fs := s.memory.state.fs;
      if FishSpec.Make(fs, name, Directory).code == FISH_OK then {fs.cwd + [name]} else {}
    case Load =>
      if Loading(s).1 == FISH_OK then
        var tree := s.saved.state.fs.tree;
        set q | q in tree && tree[q].Directory?
      else {}
    case _ => {}
  }

  ghost function Arrived(s: Session, calls: seq<Call>): set<Path>
    requires FollowsRun(s, calls)
    decreases |calls|
  {
    if calls == [] then {} else NewDirectories(s, calls[0]) + Arrived(Step(s, calls[0]).0, calls[1..])
  }

  /** Nothing but a file, the root or one of these directories is in the slot. */
  ghost predicate ReusedIn(s: State, handle: int, made: set<Path>) {
    handle in s.where ==>
      && s.where[handle] in s.fs.tree
      && (s.fs.tree[s.where[handle]].File? || s.where[handle] == [] || s.where[handle] in made)
  }

  ghost predicate Reused(s: Session, handle: int, made: set<Path>) {
    s.memory.Whole? ==> ReusedIn(s.memory.state, handle, made)
  }

  lemma ReusedStep(s: Session, call: Call, handle: int, made: set<Path>)
    requires Sound(s) && Follows(s, call) && Reused(s, handle, made)
    ensures Reused(Step(s, call).0, handle, made + NewDirectories(s, call))
  {
    match call {
      case Mkdir(name) => ReusedMade(s.memory.state, name, Directory, handle, made);
      case Create(name) => ReusedMade(s.memory.state, name, File([]), handle, made);
      case Remove(name) => hide ValidName, FreeFrom, Landing, SlotHolding;
      case Load => hide Leading, Attempts;
      case _ => hide ValidName, FreeFrom, Landing, SlotHolding;
    }
  }

  lemma ReusedMade(s: State, name: Text, entry: Entry, handle: int, made: set<Path>)
    requires ReusedIn(s, handle, made) && (entry.Directory? || entry == File([]))
    ensures var (t, code) := Made(s, name, entry);
            ReusedIn(t, handle, if code == FISH_OK && entry.Directory? then made + {s.fs.cwd + [name]} else made)
  {
    hide ValidName, FreeFrom;
  }

  lemma ReusedLost(s: Session, call: Call, handle: int, p: Path)
    requires Sound(s) && Follows(s, call) && Denotes(s, handle, p) && Loses(s, call, handle, p)
    ensures Reused(Step(s, call).0, handle, NewDirectories(s, call))
  {
    hide ValidName, FreeFrom, Leading, Attempts;
  }

  lemma {:induction false} ReusedRun(s: Session, calls: seq<Call>, handle: int, made: set<Path>)
    requires Sound(s) && FollowsRun(s, calls) && Reused(s, handle, made)
    ensures Reused(RunOf(s, calls).0, handle, made + Arrived(s, calls))
    decreases |calls|
  {
    hide Reused, Step, NewDirectories, Sound, Follows;
    if calls == [] {
      assert made + {} == made;
    } else {
      var added := NewDirectories(s, calls[0]);
      var next := Step(s, calls[0]).0;
      DenotesStep(s, calls[0], handle, []);
      ReusedStep(s, calls[0], handle, made);
      ReusedRun(next, calls[1..], handle, made + added);
      assert made + added + Arrived(next, calls[1..]) == made + Arrived(s, calls);
    }
  }

  /** A handle leads back to its directory for as long as no call has taken that directory away. After that
      it leads to the root or to a directory that the run made or loaded. So, for a directory below the root
      that the run does not bring back, it leads back if and only if no call took it away. */
  lemma HandleLeadsBack(s: Session, calls: seq<Call>, handle: int, p: Path)
    requires Sound(s) && FollowsRun(s, calls) && Denotes(s, handle, p)
    ensures var end := RunOf(s, calls).0.memory;
            end.Whole? ==>
              var landing := LandsAt(end.state, handle);
              && (!Lost(s, calls, handle, p) ==> landing == p)
              && (Lost(s, calls, handle, p) ==> landing == [] || landing in Arrived(s, calls))
              && (p != [] && p !in Arrived(s, calls) ==> (landing == p <==> !Lost(s, calls, handle, p)))
  {
    FateOfHandle(s, calls, handle, p);
  }

  lemma {:induction false} FateOfHandle(s: Session, calls: seq<Call>, handle: int, p: Path)
    requires Sound(s) && FollowsRun(s, calls) && Denotes(s, handle, p)
    ensures var end := RunOf(s, calls).0;
            if Lost(s, calls, handle, p) then Reused(end, handle, Arrived(s, calls)) else Denotes(end, handle, p)
    decreases |calls|
  {
    hide Step, Follows, Loses, Gains, NewDirectories, Denotes, Reused, Sound;
    if calls != [] {
      var next := Step(s, calls[0]).0;
      DenotesStep(s, calls[0], handle, p);
      if Loses(s, calls[0], handle, p) {
        ReusedLost(s, calls[0], handle, p);
        ReusedRun(next, calls[1..], handle, NewDirectories(s, calls[0]));
      } else {
        FateOfHandle(next, calls[1..], handle, p);
        ReusedMore(RunOf(next, calls[1..]).0, handle, Arrived(next, calls[1..]), Arrived(s, calls));
      }
    }
  }

  lemma ReusedMore(s: Session, handle: int, made: set<Path>, more: set<Path>)
    requires made <= more
    ensures Reused(s, handle, made) ==> Reused(s, handle, more)
  {
  }

  lemma DescribesSound(s: Session, fish: FishFs, disk: AtaDisk)
    requires Describes(s, fish, disk)
    ensures Sound(s)
  {
    if s.memory.Whole? { TreePlaced(fish.nodes[..]); }
    if s.saved.Image? {
      LoadedState(disk.sectors, s.saved.state);
      TreePlaced(StoredPool(disk.sectors));
    }
  }

  lemma TreePlaced(ns: seq<Node>)
    requires IsTree(ns)
    ensures var where := PlacesOf(ns); forall i | i in where :: where[i] in View(ns)
  {
    hide IsTree, PathOf;
    forall i | i in PlacesOf(ns) ensures PlacesOf(ns)[i] in View(ns) {
      ViewAt(ns, i);
    }
  }

  /** Moving away and coming back, on the pool: the current directory is remembered, any run follows that
      leaves a tree behind, and the handle is given back. */
  method SaveRunRestore(fish: FishFs, disk: AtaDisk, calls: seq<Call>, ghost s: Session)
    requires Describes(s, fish, disk) && s.memory.Whole? && FollowsRun(s, calls) && RunOf(s, calls).0.memory.Whole?
    modifies fish`current, fish.nodes, disk`transfers, disk`sectors
    ensures fish.Valid()
    ensures var p, handle := old(fish.Abs()).cwd, old(fish.current);
            && (!Lost(s, calls, handle, p) ==> fish.Abs().cwd == p)
            && (Lost(s, calls, handle, p) ==> fish.Abs().cwd == [] || fish.Abs().cwd in Arrived(s, calls))
            && fish.Abs().tree == RunOf(s, calls).0.memory.state.fs.tree
  {
    hide RunOf, Lost, Arrived, Landing, IsTree, View, PathOf, PlacesOf, Archive, Sound, Follows;
    DescribesSound(s, fish, disk);
    TreeRooted(fish.nodes[..], fish.current);
    var handle := fish.FishSaveCwd();
    DenotesCwd(StateOf(fish), handle);
    HandleLeadsBack(s, calls, handle, fish.Abs().cwd);
    var _, _ := Replay(fish, disk, calls, s);
    fish.FishRestoreCwd(handle);
  }

  lemma DenotesCwd(s: State, handle: int)
    requires handle in s.where && s.where[handle] == s.fs.cwd && LandsAt(s, handle) == s.fs.cwd
    requires Rooted(s.fs)
    ensures DenotesIn(s, handle, s.fs.cwd)
  {
  }

  lemma {:induction false} RunIs(trace: seq<Session>, calls: seq<Call>, codes: seq<int>)
    requires |trace| == |calls| + 1 && |codes| == |calls|
    requires forall k | 0 <= k < |calls| ::
               Follows(trace[k], calls[k]) && Step(trace[k], calls[k]) == (trace[k + 1], codes[k])
    ensures FollowsRun(trace[0], calls) && RunOf(trace[0], calls) == (trace[|calls|], codes)
    decreases |calls|
  {
    hide Step;
    if calls != [] {
      RunIs(trace[1..], calls[1..], codes[1..]);
      assert codes == [codes[0]] + codes[1..];
    }
  }

  /** One directory below the root, in slot 1. */
  ghost function WithOne(name: Text, cwd: Path): State {
    State(Fs(map[[] := Directory, [name] := Directory], cwd), map[0 := [], 1 := [name]])
  }

  lemma MakeFirst(name: Text)
    requires ValidName(name)
    ensures InMemory(START, Mkdir(name)) == (WithOne(name, []), FISH_OK)
  {
    assert [] + [name] == [name];
    assert FreeFrom(START.where, 1) == 1;
  }

  lemma RemoveOnly(name: Text)
    ensures InMemory(WithOne(name, []), Remove(name)) == (START, FISH_OK)
  {
    var s := WithOne(name, []);
    assert [] + [name] == [name];
    assert forall below: Text :: |[name] + [below]| == 2;
    assert s.fs.tree - {[name]} == EMPTY.tree;
    assert Vacate(s.where, s.fs, name, FISH_OK) == START.where;
  }

  lemma VisitOnly(name: Text)
    requires ValidName(name) && name != [SLASH]
    ensures InMemory(WithOne(name, []), Chdir(name)) == (WithOne(name, [name]), FISH_OK)
    ensures InMemory(WithOne(name, [name]), SaveCwd) == (WithOne(name, [name]), 1)
    ensures InMemory(WithOne(name, [name]), Chdir([SLASH])) == (WithOne(name, []), FISH_OK)
    ensures InMemory(WithOne(name, []), RestoreCwd(1)) == (WithOne(name, [name]), FISH_OK)
  {
    assert [] + [name] == [name];
    var s := WithOne(name, [name]);
    assert s.where[1] == s.fs.cwd && s.where[0] != s.fs.cwd;
  }

  /** A session whose pool holds this state. */
  ghost function On(s: Session, state: State): Session {
    s.(memory := Whole(state))
  }

  lemma StepOn(s: Session, state: State, call: Call)
    requires !call.Init? && !call.Save? && !call.Load?
    ensures Follows(On(s, state), call)
    ensures Step(On(s, state), call) == (On(s, InMemory(state, call).0), InMemory(state, call).1)
  {
    hide InMemory;
  }

  /** The promise to come back is broken on an empty filesystem, for any two names and any disk: the handle
      is taken in the first directory, that is removed, the second directory gets its slot, and coming back
      ends there. */
  lemma RecycledHandle(s: Session, a: Text, b: Text)
    requires ValidName(a) && ValidName(b)
    ensures FollowsRun(On(s, START), RecyclingRun(a, b))
    ensures RunOf(On(s, START), RecyclingRun(a, b)) == (On(s, WithOne(b, [b])), [0, 0, 1, 0, 0, 0, 0])
  {
    hide Step, Follows, InMemory, WithOne, RunOf, FollowsRun, ValidName, On;
    RecyclingStates(a, b);
    var one, inside, two := WithOne(a, []), WithOne(a, [a]), WithOne(b, []);
    StepOn(s, START, Mkdir(a));
    StepOn(s, one, Chdir(a));
    StepOn(s, inside, SaveCwd);
    StepOn(s, inside, Chdir([SLASH]));
    StepOn(s, one, Remove(a));
    StepOn(s, START, Mkdir(b));
    StepOn(s, two, RestoreCwd(1));
    RunIs([On(s, START), On(s, one), On(s, inside), On(s, inside), On(s, one), On(s, START), On(s, two),
           On(s, WithOne(b, [b]))],
          RecyclingRun(a, b), [0, 0, 1, 0, 0, 0, 0]);
  }

  lemma RecyclingStates(a: Text, b: Text)
    requires ValidName(a) && ValidName(b)
    ensures InMemory(START, Mkdir(a)) == (WithOne(a, []), 0) && InMemory(START, Mkdir(b)) == (WithOne(b, []), 0)
    ensures InMemory(WithOne(a, []), Chdir(a)) == (WithOne(a, [a]), 0)
    ensures InMemory(WithOne(a, [a]), SaveCwd) == (WithOne(a, [a]), 1)
    ensures InMemory(WithOne(a, [a]), Chdir([SLASH])) == (WithOne(a, []), 0)
    ensures InMemory(WithOne(a, []), Remove(a)) == (START, 0)
    ensures InMemory(WithOne(b, []), RestoreCwd(1)) == (WithOne(b, [b]), 0)
  {
    hide InMemory, WithOne, ValidName;
    NotASlash(a);
    NotASlash(b);
    MakeFirst(a);
    MakeFirst(b);
    RemoveOnly(a);
    VisitOnly(a);
    VisitOnly(b);
  }

  function RecyclingRun(a: Text, b: Text): seq<Call> {
    [Mkdir(a), Chdir(a), SaveCwd, Chdir([SLASH]), Remove(a), Mkdir(b), RestoreCwd(1)]
  }

  lemma NotASlash(name: Text)
    requires ValidName(name)
    ensures name != [SLASH]
  {
    assert NameByte(name[0]);
  }
}
