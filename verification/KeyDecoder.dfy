/** drivers/keyboard.c: from scancode bytes to keys, and what the flags of the decoder mean in terms of
    the bytes seen so far. */
module KeyDecoder {

  const PREFIX := 0xE0
  const SC_LSHIFT := 0x2A
  const SC_RSHIFT := 0x36
  const SC_CAPSLOCK := 0x3A
  const SC_RELEASED := 0x80

  type Scancode = x: int | 0 <= x < 256

  datatype Option<T> = None | Some(value: T)

  datatype Flags = Flags(shiftHeld: bool, capsOn: bool, extended: bool)

  const INITIAL := Flags(false, false, false)

  /** The character of a key without shift: never an upper-case letter, and zero for keys without one. */
  function Keymap(code: Scancode): (c: int)
    ensures 0 <= c < 128 && !Upper(c)
  {
    match code
    case 0x01 => 27 case 0x02 => 49 case 0x03 => 50 case 0x04 => 51 case 0x05 => 52
    case 0x06 => 53 case 0x07 => 54 case 0x08 => 55 case 0x09 => 56 case 0x0A => 57
    case 0x0B => 48 case 0x0C => 45 case 0x0D => 61 case 0x0E => 8 case 0x0F => 9
    case 0x10 => 113 case 0x11 => 119 case 0x12 => 101 case 0x13 => 114 case 0x14 => 116
    case 0x15 => 121 case 0x16 => 117 case 0x17 => 105 case 0x18 => 111 case 0x19 => 112
    case 0x1A => 91 case 0x1B => 93 case 0x1C => 10 case 0x1E => 97 case 0x1F => 115
    case 0x20 => 100 case 0x21 => 102 case 0x22 => 103 case 0x23 => 104 case 0x24 => 106
    case 0x25 => 107 case 0x26 => 108 case 0x27 => 59 case 0x28 => 39 case 0x29 => 96
    case 0x2B => 92 case 0x2C => 122 case 0x2D => 120 case 0x2E => 99 case 0x2F => 118
    case 0x30 => 98 case 0x31 => 110 case 0x32 => 109 case 0x33 => 44 case 0x34 => 46
    case 0x35 => 47 case 0x37 => 42 case 0x39 => 32
    case _ => 0
  }

  /** The character of a key with shift: the upper-case letter on letter keys, and on those only. */
  function KeymapShift(code: Scancode): (c: int)
    ensures 0 <= c < 128 && !Lower(c)
    ensures Upper(c) <==> Lower(Keymap(code))
    ensures Upper(c) ==> c == Keymap(code) - 32
    ensures c == 0 <==> Keymap(code) == 0
  {
    match code
    case 0x01 => 27 case 0x02 => 33 case 0x03 => 64 case 0x04 => 35 case 0x05 => 36
    case 0x06 => 37 case 0x07 => 94 case 0x08 => 38 case 0x09 => 42 case 0x0A => 40
    case 0x0B => 41 case 0x0C => 95 case 0x0D => 43 case 0x0E => 8 case 0x0F => 9
    case 0x10 => 81 case 0x11 => 87 case 0x12 => 69 case 0x13 => 82 case 0x14 => 84
    case 0x15 => 89 case 0x16 => 85 case 0x17 => 73 case 0x18 => 79 case 0x19 => 80
    case 0x1A => 123 case 0x1B => 125 case 0x1C => 10 case 0x1E => 65 case 0x1F => 83
    case 0x20 => 68 case 0x21 => 70 case 0x22 => 71 case 0x23 => 72 case 0x24 => 74
    case 0x25 => 75 case 0x26 => 76 case 0x27 => 58 case 0x28 => 34 case 0x29 => 126
    case 0x2B => 124 case 0x2C => 90 case 0x2D => 88 case 0x2E => 67 case 0x2F => 86
    case 0x30 => 66 case 0x31 => 78 case 0x32 => 77 case 0x33 => 60 case 0x34 => 62
    case 0x35 => 63 case 0x37 => 42 case 0x39 => 32
    case _ => 0
  }

  predicate Lower(c: int) { 97 <= c <= 122 }
  predicate Upper(c: int) { 65 <= c <= 90 }
  predicate Letter(c: int) { Lower(c) || Upper(c) }

  /** The keys that come with a prefix byte, with codes above 255. */
  function ExtendedKey(code: Scancode): Option<int> {
    match code
    case 0x48 => Some(0x100)
    case 0x50 => Some(0x101)
    case 0x4B => Some(0x102)
    case 0x4D => Some(0x103)
    case 0x47 => Some(0x104)
    case 0x4F => Some(0x105)
    case 0x53 => Some(0x106)
    case 0x49 => Some(0x107)
    case 0x51 => Some(0x108)
    case _ => None
  }

  function FlipCase(c: int): int {
    if Lower(c) then c - 32 else if Upper(c) then c + 32 else c
  }

  predicate ShiftCode(code: int) { code == SC_LSHIFT || code == SC_RSHIFT }

  /** What one byte does: the new flags, and the key it completes, if any. */
  function Decode(f: Flags, code: Scancode): (Flags, Option<int>) {
    if code == PREFIX then (f.(extended := true), None)
    else if f.extended then
      (f.(extended := false), if code >= SC_RELEASED then None else ExtendedKey(code))
    else if code >= SC_RELEASED then
      (if ShiftCode(code - SC_RELEASED) then f.(shiftHeld := false) else f, None)
    else if ShiftCode(code) then (f.(shiftHeld := true), None)
    else if code == SC_CAPSLOCK then (f.(capsOn := !f.capsOn), None)
    else
      var c := if f.shiftHeld then KeymapShift(code) else Keymap(code);
      (f, if c == 0 then None else Some(if f.capsOn then FlipCase(c) else c))
  }

  // ---------------------------------------------------------------------------
  // Streams of bytes
  // ---------------------------------------------------------------------------

  ghost function FlagsAfter(s: seq<Scancode>): Flags {
    if s == [] then INITIAL else Decode(FlagsAfter(s[..|s| - 1]), s[|s| - 1]).0
  }

  /** All the keys that a stream of bytes spells. */
  ghost function Keys(s: seq<Scancode>): seq<int> {
    if s == [] then [] else
      var key := Decode(FlagsAfter(s[..|s| - 1]), s[|s| - 1]).1;
      Keys(s[..|s| - 1]) + (if key.Some? then [key.value] else [])
  }

  lemma KeysAppend(s: seq<Scancode>, code: Scancode)
    ensures var key := Decode(FlagsAfter(s), code).1;
            Keys(s + [code]) == if key.Some? then Keys(s) + [key.value] else Keys(s)
  {
    hide Decode, FlagsAfter;
    assert (s + [code])[..|s|] == s;
  }

  /** A byte that is neither a prefix nor directly behind one. */
  ghost predicate Plain(s: seq<Scancode>, i: int)
    requires 0 <= i < |s|
  {
    s[i] != PREFIX && (i > 0 ==> s[i - 1] != PREFIX)
  }

  /** How often caps lock was pressed. */
  ghost function CapsPresses(s: seq<Scancode>): nat {
    if s == [] then 0 else
      CapsPresses(s[..|s| - 1]) + (if Plain(s, |s| - 1) && s[|s| - 1] == SC_CAPSLOCK then 1 else 0)
  }

  ghost predicate ShiftPressed(s: seq<Scancode>, i: int)
    requires 0 <= i < |s|
  {
    Plain(s, i) && ShiftCode(s[i])
  }

  ghost predicate ShiftReleased(s: seq<Scancode>, i: int)
    requires 0 <= i < |s|
  {
    Plain(s, i) && ShiftCode(s[i] - SC_RELEASED)
  }

  /** Some shift key was pressed and neither has been released since. */
  ghost predicate ShiftDown(s: seq<Scancode>) {
    exists i :: 0 <= i < |s| && ShiftPressed(s, i) && NoReleaseAfter(s, i)
  }

  ghost predicate NoReleaseAfter(s: seq<Scancode>, i: int)
    requires 0 <= i < |s|
  {
    forall j | i < j < |s| :: !ShiftReleased(s, j)
  }

  lemma ShiftDownStep(s: seq<Scancode>)
    requires s != []
    ensures var t, k := s[..|s| - 1], |s| - 1;
            ShiftDown(s) <==> ShiftPressed(s, k) || (ShiftDown(t) && !ShiftReleased(s, k))
  {
    var t, k := s[..|s| - 1], |s| - 1;
    assert forall j | 0 <= j < k ::
        ShiftPressed(s, j) == ShiftPressed(t, j) && ShiftReleased(s, j) == ShiftReleased(t, j);
    if ShiftPressed(s, k) {
      assert NoReleaseAfter(s, k);
    }
    if i :| 0 <= i < |s| && ShiftPressed(s, i) && NoReleaseAfter(s, i) {
      if i < k { assert NoReleaseAfter(t, i); }
    }
    if i :| 0 <= i < |t| && ShiftPressed(t, i) && NoReleaseAfter(t, i) {
      if !ShiftReleased(s, k) { assert NoReleaseAfter(s, i); }
    }
  }

  /** After any stream of bytes: `extended` says that the last byte was 0xE0; `caps_on` is the parity of
      the caps lock presses; `shift_held` says that the latest plain shift event was a press. */
  lemma {:induction false} FlagsMeaning(s: seq<Scancode>)
    ensures FlagsAfter(s).extended <==> s != [] && s[|s| - 1] == PREFIX
    ensures FlagsAfter(s).capsOn <==> CapsPresses(s) % 2 == 1
    ensures FlagsAfter(s).shiftHeld <==> ShiftDown(s)
    decreases |s|
  {
    if s != [] {
      var t, k := s[..|s| - 1], |s| - 1;
      FlagsMeaning(t);
      ShiftDownStep(s);
      assert t != [] ==> t[|t| - 1] == s[k - 1];
    }
  }

  // ---------------------------------------------------------------------------
  // Letters
  // ---------------------------------------------------------------------------

  /** Every key is a 7-bit character or one of the codes from 0x100 on, never zero. */
  lemma KeyCodes(f: Flags, code: Scancode)
    ensures var key := Decode(f, code).1;
            key.Some? ==> 0 < key.value < 128 || 0x100 <= key.value <= 0x108
  {
  }

  /** A letter comes out in upper case exactly when shift and caps lock disagree, whatever bytes came
      before. */
  lemma LetterCase(s: seq<Scancode>, code: Scancode)
    ensures var key := Decode(FlagsAfter(s), code).1;
            key.Some? && Letter(key.value) ==>
              (Upper(key.value) <==> (ShiftDown(s) != (CapsPresses(s) % 2 == 1)))
  {
    FlagsMeaning(s);
    hide ShiftDown, CapsPresses;
  }
}
