/** drivers/keyboard.c: the ring buffer between the keyboard interrupt and the main loop, with the
    interrupt allowed between any two steps of the reader. */
module Keyboard {
  import opened KeyDecoder

  const BUFFER_SIZE := 128

  const KEY_UP := 0x100
  const KEY_DOWN := 0x101
  const KEY_LEFT := 0x102
  const KEY_RIGHT := 0x103
  const KEY_HOME := 0x104
  const KEY_END := 0x105
  const KEY_DELETE := 0x106
  const KEY_PGUP := 0x107
  const KEY_PGDN := 0x108

  datatype Ring = Ring(buffer: seq<int>, head: nat, tail: nat) {
    predicate Shaped() { |buffer| == BUFFER_SIZE && head < BUFFER_SIZE && tail < BUFFER_SIZE }
  }

  function Wrap(n: nat): (r: nat)
    ensures r < BUFFER_SIZE
  {
    n % BUFFER_SIZE
  }

  /** `buffer_push`: a key that does not fit is dropped. */
  function Push(r: Ring, c: int): Ring
    requires r.Shaped()
  {
    var next := Wrap(r.head + 1);
    if next == r.tail then r else r.(buffer := r.buffer[r.head := c], head := next)
  }

  // ---------------------------------------------------------------------------
  // The driver
  // ---------------------------------------------------------------------------

  class KeyboardDriver {
    const buffer: array<int>
    var head: nat
    var tail: nat
    var shiftHeld: bool
    var capsOn: bool
    var extended: bool

    ghost predicate Valid()
      reads this, buffer
    {
      buffer.Length == BUFFER_SIZE && head < BUFFER_SIZE && tail < BUFFER_SIZE
    }

    ghost function View(): Ring
      requires Valid()
      reads this, buffer
    {
      Ring(buffer[..], head, tail)
    }

    ghost function FlagsNow(): Flags
      reads this
    {
      Flags(shiftHeld, capsOn, extended)
    }

    /** `keyboard_init` */
    constructor ()
      ensures Valid() && View().head == 0 && View().tail == 0 && FlagsNow() == INITIAL && fresh(buffer)
    {
      buffer := new int[BUFFER_SIZE];
      head, tail := 0, 0;
      shiftHeld, capsOn, extended := false, false, false;
    }

    method BufferPush(c: int)
      requires Valid()
      modifies `head, buffer
      ensures Valid() && View() == Push(old(View()), c)
    {
      var next := Wrap(head + 1);
      if next == tail { return; }
      buffer[head] := c;
      head := next;
    }

    /** The oldest waiting key, or zero. */
    method KeyboardGetchar() returns (c: int)
      requires Valid()
      modifies `tail
      ensures Valid()
      ensures var r := old(View());
              if r.head == r.tail then c == 0 && View() == r
              else c == r.buffer[r.tail] && View() == r.(tail := Wrap(r.tail + 1))
    {
      if head == tail { return 0; }
      c := buffer[tail];
      tail := Wrap(tail + 1);
    }

    /** The interrupt handler, on the byte read from the data port. */
    method KeyboardCallback(scancode: Scancode)
      requires Valid()
      modifies `head, `shiftHeld, `capsOn, `extended, buffer
      ensures Valid()
      ensures var (flags, key) := Decode(old(FlagsNow()), scancode);
              && FlagsNow() == flags
              && View() == if key.Some? then Push(old(View()), key.value) else old(View())
    {
      hide Push, Wrap;
      if scancode == PREFIX { extended := true; return; }
      if extended {
        extended := false;
        if scancode >= SC_RELEASED { return; }
        match scancode {
          case 0x48 => BufferPush(KEY_UP);
          case 0x50 => BufferPush(KEY_DOWN);
          case 0x4B => BufferPush(KEY_LEFT);
          case 0x4D => BufferPush(KEY_RIGHT);
          case 0x47 => BufferPush(KEY_HOME);
          case 0x4F => BufferPush(KEY_END);
          case 0x53 => BufferPush(KEY_DELETE);
          case 0x49 => BufferPush(KEY_PGUP);
          case 0x51 => BufferPush(KEY_PGDN);
          case _ =>
        }
        return;
      }
      if scancode >= SC_RELEASED {
        var released := scancode - SC_RELEASED;
        if released == SC_LSHIFT || released == SC_RSHIFT { shiftHeld := false; }
        return;
      }
      if scancode == SC_LSHIFT || scancode == SC_RSHIFT { shiftHeld := true; return; }
      if scancode == SC_CAPSLOCK { capsOn := !capsOn; return; }
      var c := if shiftHeld then KeymapShift(scancode) else Keymap(scancode);
      if c == 0 { return; }
      if capsOn {
        if 97 <= c <= 122 { c := c - 97 + 65; }
        else if 65 <= c <= 90 { c := c - 65 + 97; }
      }
      BufferPush(c);
    }
  }

  // ---------------------------------------------------------------------------
  // Reader and interrupt, interleaved
  // ---------------------------------------------------------------------------

  /** Where the reader is inside `keyboard_getchar`. `seen` records how many keys had been accepted
      when `head` was loaded. */
  datatype Reader = Idle | HeadLoaded(head: nat, seen: nat) | Waiting | KeyLoaded(key: int)

  /** The driver's variables, the reader's position, and the history of both sides: the bytes that came
      in, the keys accepted and returned, and the results of all calls of `keyboard_getchar`, zeros
      included. */
  datatype System = System(ring: Ring, flags: Flags, reader: Reader,
                           scanned: seq<Scancode>, accepted: seq<int>, returned: seq<int>, results: seq<int>)

  datatype Action = Interrupt(scancode: Scancode) | ReaderStep

  /** One atomic step: the whole interrupt handler, or the reader's next access to a shared variable. */
  ghost function Next(s: System, a: Action): (t: System)
    requires s.ring.Shaped()
    ensures t.ring.Shaped()
  {
    match a
    case Interrupt(code) =>
      var (flags, key) := Decode(s.flags, code);
      var t := s.(flags := flags, scanned := s.scanned + [code]);
      if key.None? then t
      else if Wrap(s.ring.head + 1) == s.ring.tail then t
      else t.(ring := Push(s.ring, key.value), accepted := s.accepted + [key.value])
    case ReaderStep =>
      match s.reader
      case Idle => s.(reader := HeadLoaded(s.ring.head, |s.accepted|))
      case HeadLoaded(head, seen) =>
        if head == s.ring.tail then s.(reader := Idle, results := s.results + [0]) else s.(reader := Waiting)
      case Waiting => s.(reader := KeyLoaded(s.ring.buffer[s.ring.tail]))
      case KeyLoaded(key) =>
        s.(ring := s.ring.(tail := Wrap(s.ring.tail + 1)), reader := Idle,
           returned := s.returned + [key], results := s.results + [key])
  }

  ghost predicate Initial(s: System) {
    && s.ring.Shaped() && s.ring.head == 0 && s.ring.tail == 0 && s.flags == INITIAL && s.reader == Idle
    && s.scanned == [] && s.accepted == [] && s.returned == [] && s.results == []
  }

  ghost function Run(s: System, actions: seq<Action>): (t: System)
    requires s.ring.Shaped()
    ensures t.ring.Shaped()
    decreases |actions|
  {
    if actions == [] then s else Run(Next(s, actions[0]), actions[1..])
  }

  /** How many keys are waiting. */
  ghost function Held(s: System): int { |s.accepted| - |s.returned| }

  ghost predicate Inv(s: System) {
    && s.ring.Shaped()
    && s.ring.head == Wrap(|s.accepted|) && s.ring.tail == Wrap(|s.returned|)
    && 0 <= Held(s) < BUFFER_SIZE
    && s.returned == s.accepted[..|s.returned|]
    && (forall k | |s.returned| <= k < |s.accepted| :: s.ring.buffer[Wrap(k)] == s.accepted[k])
    && s.flags == FlagsAfter(s.scanned)
    && (forall k | 0 <= k < |s.accepted| :: s.accepted[k] != 0)
    && match s.reader
       case Idle => true
       case HeadLoaded(head, seen) => head == Wrap(seen) && |s.returned| <= seen <= |s.accepted|
       case Waiting => Held(s) > 0
       case KeyLoaded(key) => Held(s) > 0 && key == s.accepted[|s.returned|]
  }

  /** The reader's steps with no interrupt in between do what one call of `keyboard_getchar` does. */
  lemma StepsAreGetchar(s: System)
    requires s.ring.Shaped() && s.reader == Idle
    ensures var r := s.ring;
            if r.head == r.tail then
              Run(s, [ReaderStep, ReaderStep]) == s.(results := s.results + [0])
            else
              Run(s, [ReaderStep, ReaderStep, ReaderStep, ReaderStep])
                == s.(ring := r.(tail := Wrap(r.tail + 1)), returned := s.returned + [r.buffer[r.tail]],
                      results := s.results + [r.buffer[r.tail]])
  {
    hide Wrap, Decode;
    var s2 := Next(Next(s, ReaderStep), ReaderStep);
    TwoSteps(s, []);
    TwoSteps(s, [ReaderStep, ReaderStep]);
    TwoSteps(s2, []);
    assert Run(s2, []) == s2;
  }

  lemma TwoSteps(s: System, rest: seq<Action>)
    requires s.ring.Shaped()
    ensures Run(s, [ReaderStep, ReaderStep] + rest) == Run(Next(Next(s, ReaderStep), ReaderStep), rest)
    ensures [ReaderStep, ReaderStep] + [] == [ReaderStep, ReaderStep]
    ensures [ReaderStep, ReaderStep] + [ReaderStep, ReaderStep] == [ReaderStep, ReaderStep, ReaderStep, ReaderStep]
  {
  }

  lemma WrapDistinct(a: nat, b: nat)
    requires a <= b < a + BUFFER_SIZE
    ensures Wrap(a) == Wrap(b) <==> a == b
  {
  }

  lemma WrapSuccessor(a: nat)
    ensures Wrap(Wrap(a) + 1) == Wrap(a + 1)
  {
  }

  lemma WrapAround(a: nat)
    ensures Wrap(a + BUFFER_SIZE) == Wrap(a)
  {
  }

  /** The ring refuses a key exactly when 127 are waiting. */
  lemma FullExactly(s: System)
    requires Inv(s)
    ensures Wrap(s.ring.head + 1) == s.ring.tail <==> Held(s) == BUFFER_SIZE - 1 == 127
  {
    hide Wrap, FlagsAfter;
    WrapSuccessor(|s.accepted|);
    if Held(s) < BUFFER_SIZE - 1 { WrapDistinct(|s.returned|, |s.accepted| + 1); }
    else { WrapAround(|s.returned|); }
  }

  lemma InterruptKeepsInv(s: System, code: Scancode)
    requires Inv(s)
    ensures Inv(Next(s, Interrupt(code)))
    ensures var key := Decode(s.flags, code).1;
            Next(s, Interrupt(code)).accepted
              == if key.Some? && Held(s) < BUFFER_SIZE - 1 then s.accepted + [key.value] else s.accepted
  {
    var (flags, key) := Decode(s.flags, code);
    KeyCodes(s.flags, code);
    hide Decode, Wrap;
    FullExactly(s);
    var u := s.(flags := flags, scanned := s.scanned + [code]);
    assert u.scanned[..|u.scanned| - 1] == s.scanned;
    assert Inv(u);
    if key.Some? && Held(s) < BUFFER_SIZE - 1 { PushKeepsInv(u, key.value); }
  }

  lemma PushKeepsInv(s: System, c: int)
    requires Inv(s) && Held(s) < BUFFER_SIZE - 1 && c != 0
    ensures Inv(s.(ring := Push(s.ring, c), accepted := s.accepted + [c]))
  {
    hide Wrap, FlagsAfter;
    var t := s.(ring := Push(s.ring, c), accepted := s.accepted + [c]);
    FullExactly(s);
    WrapSuccessor(|s.accepted|);
    forall k | |t.returned| <= k < |t.accepted| ensures t.ring.buffer[Wrap(k)] == t.accepted[k] {
      WrapDistinct(k, |s.accepted|);
    }
  }

  lemma ReaderKeepsInv(s: System)
    requires Inv(s)
    ensures Inv(Next(s, ReaderStep))
  {
    hide Wrap, FlagsAfter;
    WrapSuccessor(|s.returned|);
    if s.reader.HeadLoaded? { WrapDistinct(|s.returned|, s.reader.seen); }
  }

  /** The invariant holds after every run, however interrupts and reader steps interleave. */
  lemma {:induction false} RunKeepsInv(s: System, actions: seq<Action>)
    requires Inv(s)
    ensures Inv(Run(s, actions))
    decreases |actions|
  {
    if actions != [] {
      match actions[0] {
        case Interrupt(code) => InterruptKeepsInv(s, code);
        case ReaderStep => ReaderKeepsInv(s);
      }
      RunKeepsInv(Next(s, actions[0]), actions[1..]);
    }
  }

  /** The results that are keys. */
  ghost function NonZero(results: seq<int>): seq<int> {
    if results == [] then [] else
      var front, last := NonZero(results[..|results| - 1]), results[|results| - 1];
      if last != 0 then front + [last] else front
  }

  lemma NonZeroStep(results: seq<int>, c: int)
    ensures NonZero(results + [c]) == if c != 0 then NonZero(results) + [c] else NonZero(results)
  {
    assert (results + [c])[..|results|] == results;
  }

  /** The results of all calls are the keys returned, with zeros in between. */
  lemma {:induction false} ResultsAreReturned(s: System, actions: seq<Action>)
    requires Inv(s) && NonZero(s.results) == s.returned
    ensures NonZero(Run(s, actions).results) == Run(s, actions).returned
    decreases |actions|
  {
    if actions != [] {
      ResultsStep(s, actions[0]);
      hide Next, Inv, NonZero;
      ResultsAreReturned(Next(s, actions[0]), actions[1..]);
    }
  }

  lemma ResultsStep(s: System, a: Action)
    requires Inv(s) && NonZero(s.results) == s.returned
    ensures Inv(Next(s, a)) && NonZero(Next(s, a).results) == Next(s, a).returned
  {
    hide Decode, Wrap, Inv, NonZero;
    match a
    case Interrupt(code) =>
      InterruptKeepsInv(s, code);
    case ReaderStep =>
      ReaderKeepsInv(s);
      NonZeroStep(s.results, 0);
      if s.reader.KeyLoaded? {
        KeyNotZero(s);
        NonZeroStep(s.results, s.reader.key);
      }
  }

  lemma KeyNotZero(s: System)
    requires Inv(s) && s.reader.KeyLoaded?
    ensures s.reader.key != 0
  {
    hide Wrap, FlagsAfter;
  }

  /** What a run from the start guarantees: the keys returned are the first of the keys accepted, in
      order; the others, at most 127, wait unharmed in the ring; the next key is dropped exactly when
      127 do; a reader about to return zero had loaded `head` when every accepted key was returned; and
      every result that is not zero is a key. */
  lemma KeysInOrder(s: System, actions: seq<Action>)
    requires Initial(s)
    ensures var t := Run(s, actions);
            && t.returned <= t.accepted
            && Held(t) <= BUFFER_SIZE - 1
            && (forall k | |t.returned| <= k < |t.accepted| :: t.ring.buffer[Wrap(k)] == t.accepted[k])
            && (forall code: Scancode | Decode(t.flags, code).1.Some? ::
                  (Next(t, Interrupt(code)).accepted == t.accepted <==> Held(t) == BUFFER_SIZE - 1))
            && (t.reader.HeadLoaded? ==>
                  (Next(t, ReaderStep).results == t.results + [0] <==> t.reader.seen == |t.returned|))
            && NonZero(t.results) == t.returned
            && (forall k | 0 <= k < |t.returned| :: t.returned[k] != 0)
  {
    assert NonZero(s.results) == [];
    hide Decode, NonZero;
    RunKeepsInv(s, actions);
    ResultsAreReturned(s, actions);
    var t := Run(s, actions);
    forall code: Scancode | Decode(t.flags, code).1.Some?
      ensures Next(t, Interrupt(code)).accepted == t.accepted <==> Held(t) == BUFFER_SIZE - 1
    {
      InterruptKeepsInv(t, code);
    }
    if t.reader.HeadLoaded? { WrapDistinct(|t.returned|, t.reader.seen); }
  }

  /** This step scans a key that meets a full ring. */
  ghost predicate Dropped(s: System, a: Action)
    requires s.ring.Shaped()
  {
    a.Interrupt? && Decode(s.flags, a.scancode).1.Some? && Wrap(s.ring.head + 1) == s.ring.tail
  }

  /** How many keys the run loses. */
  ghost function Drops(s: System, actions: seq<Action>): nat
    requires s.ring.Shaped()
    decreases |actions|
  {
    if actions == [] then 0
    else (if Dropped(s, actions[0]) then 1 else 0) + Drops(Next(s, actions[0]), actions[1..])
  }

  /** Every key that the bytes spell is accepted or lost, and without a loss the keys accepted are exactly
      those that the bytes spell. */
  lemma {:induction false} KeysCounted(s: System, actions: seq<Action>)
    requires Inv(s)
    ensures var t := Run(s, actions);
            && |t.accepted| + Drops(s, actions) + |Keys(s.scanned)| == |Keys(t.scanned)| + |s.accepted|
            && (s.accepted == Keys(s.scanned) && Drops(s, actions) == 0 ==> t.accepted == Keys(t.scanned))
    decreases |actions|
  {
    if actions != [] {
      hide Next, Inv, Keys, Dropped;
      KeysStep(s, actions[0]);
      KeysCounted(Next(s, actions[0]), actions[1..]);
    }
  }

  lemma KeysStep(s: System, a: Action)
    requires Inv(s)
    ensures var t := Next(s, a);
            && Inv(t)
            && |t.accepted| + (if Dropped(s, a) then 1 else 0) + |Keys(s.scanned)| == |Keys(t.scanned)| + |s.accepted|
            && (s.accepted == Keys(s.scanned) && !Dropped(s, a) ==> t.accepted == Keys(t.scanned))
  {
    hide Decode, Wrap, Inv, Keys, FlagsAfter;
    FlagsKnown(s);
    match a
    case Interrupt(code) =>
      InterruptKeepsInv(s, code);
      KeysAppend(s.scanned, code);
    case ReaderStep =>
      ReaderKeepsInv(s);
  }

  lemma FlagsKnown(s: System)
    requires Inv(s)
    ensures s.flags == FlagsAfter(s.scanned)
  {
    hide Wrap, FlagsAfter;
  }

  /** From the start, the keys accepted are exactly those that the bytes spell if and only if no key ever
      met a full ring. */
  lemma AcceptedAreKeys(s: System, actions: seq<Action>)
    requires Initial(s)
    ensures Run(s, actions).accepted == Keys(Run(s, actions).scanned) <==> Drops(s, actions) == 0
  {
    assert Inv(s) && Keys(s.scanned) == [];
    KeysCounted(s, actions);
  }
}
