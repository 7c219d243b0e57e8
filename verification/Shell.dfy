/** kernel/shell.c: the line editor. */
module Shell {
  import opened Bytes
  import opened CStrings
  import opened Terminal
  import opened Vga

  const LINE_MAX := 256

  /** A key that stands for a character. */
  predicate Printable(key: int) { 32 <= key <= 255 }

  /** What a key that does not end the line does to it. */
  ghost function EditKey(line: Text, key: int): (r: Text)
    ensures |line| < LINE_MAX ==> |r| < LINE_MAX
  {
    if key == 8 then (if line == [] then [] else line[..|line| - 1])
    else if Printable(key) && |line| < LINE_MAX - 1 then line + [key as Byte]
    else line
  }

  /** The line that a sequence of keys leaves. */
  ghost function Edited(keys: seq<int>): (r: Text)
    ensures |r| < LINE_MAX
  {
    if keys == [] then [] else EditKey(Edited(keys[..|keys| - 1]), keys[|keys| - 1])
  }

  /** Up to 255 keys that are characters, and nothing else, make exactly the line that they spell. */
  lemma {:induction false} PlainKeysSpell(keys: seq<int>)
    requires |keys| < 256 && forall k | 0 <= k < |keys| :: 32 <= keys[k] <= 255
    ensures |Edited(keys)| == |keys|
    ensures forall k | 0 <= k < |keys| :: Edited(keys)[k] == keys[k]
  {
    if keys != [] {
      PlainKeysSpell(keys[..|keys| - 1]);
    }
  }

  /** A further character goes to the end of a line of fewer than 255 and is dropped behind 255; backspace
      takes off the last character, if there is one; any other key changes nothing. */
  lemma OneMoreKey(keys: seq<int>, key: int)
    ensures var was, now := Edited(keys), Edited(keys + [key]);
            && |was| <= 255
            && (32 <= key <= 255 && |was| < 255 ==> now == was + [key as Byte])
            && (32 <= key <= 255 && |was| == 255 ==> now == was)
            && (key == 8 ==> now == (if |was| > 0 then was[..|was| - 1] else was))
            && (!(32 <= key <= 255) && key != 8 ==> now == was)
  {
    EditedStep(keys + [key], |keys|);
    assert (keys + [key])[..|keys|] == keys && (keys + [key])[..|keys| + 1] == keys + [key];
  }

  /** Backspace takes back the character typed before it, unless that one did not fit any more. */
  lemma EraseUndoesType(keys: seq<int>, key: int)
    requires Printable(key) && |Edited(keys)| < LINE_MAX - 1
    ensures Edited(keys + [key, 8]) == Edited(keys)
  {
    hide Edited;
    EditedStep(keys + [key, 8], |keys|);
    EditedStep(keys + [key, 8], |keys| + 1);
    assert (keys + [key, 8])[..|keys|] == keys && (keys + [key, 8])[..|keys| + 2] == keys + [key, 8];
  }

  /** The tape `t` shows what `was` showed when the prompt ended, followed by `line`, and the cursor is
      right behind it. If nothing but blanks followed the prompt, nothing but blanks follows the line. */
  ghost predicate Typed(was: Tape, t: Tape, line: Text, color: Byte) {
    && was.Valid() && t.Valid() && |line| < LINE_MAX
    && t.pos == was.pos + |line|
    && |was.cells| <= |t.cells| && (|t.cells| <= |was.cells| || |t.cells| <= was.pos + LINE_MAX + WIDTH)
    && t.cells[..was.pos] == was.cells[..was.pos]
    && (forall k | 0 <= k < |line| :: t.cells[was.pos + k] == Entry(line[k], color))
    && (BlankFrom(was, was.pos, color) ==> BlankFrom(t, t.pos, color))
  }

  ghost predicate BlankFrom(t: Tape, from: nat, color: Byte) {
    forall k | from <= k < |t.cells| :: t.cells[k] == Entry(32, color)
  }

  lemma NothingTyped(was: Tape, color: Byte)
    requires was.Valid()
    ensures Typed(was, was, [], color)
  {
  }

  /** So the cells behind the prompt spell the line, what stood in front of it is untouched, and on a screen
      that was blank behind the prompt the line is all there is. */
  lemma TypedShows(was: Tape, t: Tape, line: Text, color: Byte)
    requires Typed(was, t, line, color) && forall k | was.pos <= k < |was.cells| :: was.cells[k] == Entry(32, color)
    ensures t.pos == was.pos + |line| && t.pos < |t.cells| && t.cells[..was.pos] == was.cells[..was.pos]
    ensures forall k | 0 <= k < |line| :: t.cells[was.pos + k] == Entry(line[k], color)
    ensures forall k | t.pos <= k < |t.cells| :: t.cells[k] == Entry(32, color)
  {
  }

  lemma TypeCharacter(was: Tape, t: Tape, line: Text, c: Byte, color: Byte)
    requires Typed(was, t, line, color) && Printable(c) && |line| < LINE_MAX - 1
    ensures Typed(was, Put(t, c, color), line + [c], color)
  {
  }

  /** With something typed, the cursor is never in the corner where backspace stops: at most 255
      characters follow the prompt, and the screen holds 2000. */
  lemma EraseCharacter(was: Tape, t: Tape, line: Text, color: Byte)
    requires Typed(was, t, line, color) && line != []
    ensures t.pos > t.Top()
    ensures Typed(was, Put(t, BACKSPACE, color), line[..|line| - 1], color)
  {
  }

  /** Ending the line moves the cursor and leaves every cell alone. */
  lemma EndLine(was: Tape, t: Tape, line: Text, color: Byte)
    requires Typed(was, t, line, color)
    ensures var u := Put(t, LINEFEED, color);
            && u.pos == NextRowStart(was.pos + |line|) && |u.cells| >= |t.cells|
            && u.cells[..|t.cells|] == t.cells
  {
  }

  /** Reads keys until the end of the line, or until there are no more. A zero means that no key was
      waiting. Backspace deletes only what was typed on this line; the buffer never overflows. */
  method ReadLine(screen: VgaScreen, line: array<Byte>, keys: seq<int>) returns (done: bool, used: nat)
    requires screen.Valid() && line.Length == LINE_MAX
    modifies line, screen.memory, screen`row, screen`col, screen`tape
    ensures screen.Valid() && used <= |keys|
    ensures done <==> LINEFEED as int in keys
    ensures done ==> used > 0 && keys[used - 1] == LINEFEED as int && LINEFEED as int !in keys[..used - 1]
    ensures !done ==> used == |keys| && Typed(old(screen.tape), screen.tape, Edited(keys), screen.color)
    ensures !done ==> line[..|Edited(keys)|] == Edited(keys)
    ensures done ==>
              var text := Edited(keys[..used - 1]);
              && Terminated(line[..]) && TextOf(line[..]) == text
              && exists t: Tape ::
                   Typed(old(screen.tape), t, text, screen.color) && screen.tape == Put(t, LINEFEED, screen.color)
  {
    hide Typed, Put, TextOf, EditKey;
    ghost var was := screen.tape;
    var length := 0;
    used := 0;
    NothingTyped(was, screen.color);
    while used < |keys|
      invariant screen.Valid() && used <= |keys| && LINEFEED as int !in keys[..used]
      invariant length == |Edited(keys[..used])| && line[..length] == Edited(keys[..used])
      invariant Typed(was, screen.tape, Edited(keys[..used]), screen.color)
    {
      var key := keys[used];
      ghost var text := Edited(keys[..used]);
      if key == 10 {
        ghost var t := screen.tape;
        screen.VgaPutchar(LINEFEED);
        line[length] := 0;
        Spells(line[..], text);
        return true, used + 1;
      }
      EditedStep(keys, used);
      length := TakeKey(screen, line, length, key, was, text);
      used := used + 1;
    }
    assert keys[..used] == keys;
    return false, used;
  }

  lemma EditedStep(keys: seq<int>, n: nat)
    requires n < |keys|
    ensures Edited(keys[..n + 1]) == EditKey(Edited(keys[..n]), keys[n])
    ensures keys[n] != 10 && 10 !in keys[..n] ==> 10 !in keys[..n + 1]
  {
    assert keys[..n + 1][..n] == keys[..n];
  }

  /** One pass of the loop, for a key that does not end the line. */
  method TakeKey(screen: VgaScreen, line: array<Byte>, length: nat, key: int, ghost was: Tape, ghost text: Text)
      returns (r: nat)
    requires screen.Valid() && line.Length == LINE_MAX && key != 10
    requires length == |text| && length < LINE_MAX && line[..length] == text
    requires Typed(was, screen.tape, text, screen.color)
    modifies line, screen.memory, screen`row, screen`col, screen`tape
    ensures screen.Valid() && r == |EditKey(text, key)| && line[..r] == EditKey(text, key)
    ensures Typed(was, screen.tape, EditKey(text, key), screen.color)
  {
    hide Typed, Put;
    r := length;
    if key == 0 { return; }
    if key == 8 {
      if length > 0 {
        EraseCharacter(was, screen.tape, text, screen.color);
        r := length - 1;
        screen.VgaPutchar(BACKSPACE);
      }
      return;
    }
    if key > 255 || key < 32 { return; }
    if length >= LINE_MAX - 1 { return; }
    TypeCharacter(was, screen.tape, text, key, screen.color);
    line[length] := key;
    r := length + 1;
    screen.VgaPutchar(key);
  }
}
