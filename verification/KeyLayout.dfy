/** What the keys of the keyboard type: the US layout row by row, caps lock and the prefixed keys, told from
    the bytes alone. */
module KeyLayout {
  import opened KeyDecoder

  /** The bytes of keys that lie side by side. */
  function Codes(first: Scancode, n: nat): (s: seq<Scancode>)
    requires first + n <= 256
    ensures |s| == n && forall k | 0 <= k < n :: s[k] == first + k
  {
    seq(n, k requires 0 <= k < n => first + k)
  }

  function Chars(s: string): (r: seq<int>)
    ensures |r| == |s| && forall k | 0 <= k < |s| :: r[k] == s[k] as int
  {
    seq(|s|, k requires 0 <= k < |s| => s[k] as int)
  }

  /** Keys that each type one character and leave the flags alone type them in a row. */
  lemma {:induction false} RowTypes(before: seq<Scancode>, row: seq<Scancode>, chars: seq<int>)
    requires |row| == |chars|
    requires forall k | 0 <= k < |row| :: Types(FlagsAfter(before), row[k], chars[k])
    ensures FlagsAfter(before + row) == FlagsAfter(before) && Keys(before + row) == Keys(before) + chars
  {
    hide Decode;
    if row == [] {
      assert before + row == before;
    } else {
      var n := |row| - 1;
      RowTypes(before, row[..n], chars[..n]);
      var s := before + row;
      assert Types(FlagsAfter(before), row[n], chars[n]);
      assert s[..|s| - 1] == before + row[..n] && s[|s| - 1] == row[n];
      assert chars == chars[..n] + [chars[n]];
    }
  }

  ghost predicate Types(f: Flags, code: Scancode, c: int) {
    Decode(f, code) == (f, Some(c))
  }

  lemma DigitRow(f: Flags)
    requires !f.capsOn && !f.extended
    ensures var chars := Chars(if f.shiftHeld then "!@#$%^&*()_+" else "1234567890-=");
            forall k | 0 <= k < |chars| :: Types(f, Codes(0x02, 12)[k], chars[k])
  {
  }

  lemma UpperRow(f: Flags)
    requires !f.capsOn && !f.extended
    ensures var chars := Chars(if f.shiftHeld then "QWERTYUIOP{}" else "qwertyuiop[]");
            forall k | 0 <= k < |chars| :: Types(f, Codes(0x10, 12)[k], chars[k])
  {
  }

  lemma HomeRow(f: Flags)
    requires !f.capsOn && !f.extended
    ensures var chars := Chars(if f.shiftHeld then "ASDFGHJKL:\"~" else "asdfghjkl;'`");
            forall k | 0 <= k < |chars| :: Types(f, Codes(0x1E, 12)[k], chars[k])
  {
  }

  lemma LowerRow(f: Flags)
    requires !f.capsOn && !f.extended
    ensures var chars := Chars(if f.shiftHeld then "|ZXCVBNM<>?" else "\\zxcvbnm,./");
            forall k | 0 <= k < |chars| :: Types(f, Codes(0x2B, 11)[k], chars[k])
  {
  }

  /** With no shift, caps lock or prefix pending, each row of keys types its row of the US layout. */
  lemma UnshiftedLayout(before: seq<Scancode>)
    requires FlagsAfter(before) == Flags(false, false, false)
    ensures Keys(before + Codes(0x02, 12)) == Keys(before) + Chars("1234567890-=")
    ensures Keys(before + Codes(0x10, 12)) == Keys(before) + Chars("qwertyuiop[]")
    ensures Keys(before + Codes(0x1E, 12)) == Keys(before) + Chars("asdfghjkl;'`")
    ensures Keys(before + Codes(0x2B, 11)) == Keys(before) + Chars("\\zxcvbnm,./")
  {
    hide Decode, Keys, FlagsAfter, Types, Codes, Chars;
    DigitRow(FlagsAfter(before));
    UpperRow(FlagsAfter(before));
    HomeRow(FlagsAfter(before));
    LowerRow(FlagsAfter(before));
    RowTypes(before, Codes(0x02, 12), Chars("1234567890-="));
    RowTypes(before, Codes(0x10, 12), Chars("qwertyuiop[]"));
    RowTypes(before, Codes(0x1E, 12), Chars("asdfghjkl;'`"));
    RowTypes(before, Codes(0x2B, 11), Chars("\\zxcvbnm,./"));
  }

  /** Behind a press of either shift key it types the shifted row. */
  lemma ShiftedLayout(before: seq<Scancode>, shift: Scancode)
    requires FlagsAfter(before) == Flags(false, false, false) && (shift == 0x2A || shift == 0x36)
    ensures Keys(before + [shift] + Codes(0x02, 12)) == Keys(before) + Chars("!@#$%^&*()_+")
    ensures Keys(before + [shift] + Codes(0x10, 12)) == Keys(before) + Chars("QWERTYUIOP{}")
    ensures Keys(before + [shift] + Codes(0x1E, 12)) == Keys(before) + Chars("ASDFGHJKL:\"~")
    ensures Keys(before + [shift] + Codes(0x2B, 11)) == Keys(before) + Chars("|ZXCVBNM<>?")
  {
    ShiftPress(before, shift);
    ShiftedRows(before + [shift]);
  }

  lemma ShiftPress(before: seq<Scancode>, shift: Scancode)
    requires FlagsAfter(before) == Flags(false, false, false) && (shift == 0x2A || shift == 0x36)
    ensures FlagsAfter(before + [shift]) == Flags(true, false, false) && Keys(before + [shift]) == Keys(before)
  {
    assert (before + [shift])[..|before|] == before;
  }

  lemma ShiftedRows(before: seq<Scancode>)
    requires FlagsAfter(before) == Flags(true, false, false)
    ensures Keys(before + Codes(0x02, 12)) == Keys(before) + Chars("!@#$%^&*()_+")
    ensures Keys(before + Codes(0x10, 12)) == Keys(before) + Chars("QWERTYUIOP{}")
    ensures Keys(before + Codes(0x1E, 12)) == Keys(before) + Chars("ASDFGHJKL:\"~")
    ensures Keys(before + Codes(0x2B, 11)) == Keys(before) + Chars("|ZXCVBNM<>?")
  {
    hide Decode, Keys, FlagsAfter, Types, Codes, Chars;
    DigitRow(FlagsAfter(before));
    UpperRow(FlagsAfter(before));
    HomeRow(FlagsAfter(before));
    LowerRow(FlagsAfter(before));
    RowTypes(before, Codes(0x02, 12), Chars("!@#$%^&*()_+"));
    RowTypes(before, Codes(0x10, 12), Chars("QWERTYUIOP{}"));
    RowTypes(before, Codes(0x1E, 12), Chars("ASDFGHJKL:\"~"));
    RowTypes(before, Codes(0x2B, 11), Chars("|ZXCVBNM<>?"));
  }

  /** From power on: the keys of the second row type "qwertyuiop[]". */
  lemma FirstRowTyped()
    ensures Keys(Codes(0x10, 12)) == Chars("qwertyuiop[]")
  {
    assert [] + Codes(0x10, 12) == Codes(0x10, 12);
    UnshiftedLayout([]);
  }

  /** The byte before was not the prefix. */
  predicate Unprefixed(before: seq<Scancode>) {
    before != [] ==> before[|before| - 1] != 0xE0
  }

  /** The keys that have a character. */
  predicate HasCharacter(code: Scancode) {
    0x01 <= code <= 0x1C || 0x1E <= code <= 0x29 || 0x2B <= code <= 0x35 || code == 0x37 || code == 0x39
  }

  /** One more byte that is not behind a prefix: exactly one key if it is the press of a key with a character,
      and none otherwise. Escape, backspace, tab, enter, the asterisk and the space bar type the same with
      and without shift and caps lock. */
  lemma OnePress(before: seq<Scancode>, code: Scancode)
    requires Unprefixed(before)
    ensures |Keys(before + [code])| == |Keys(before)| + (if HasCharacter(code) then 1 else 0)
    ensures Keys(before + [code])[..|Keys(before)|] == Keys(before)
    ensures code == 0x01 ==> Keys(before + [code]) == Keys(before) + [27]
    ensures code == 0x0E ==> Keys(before + [code]) == Keys(before) + [8]
    ensures code == 0x0F ==> Keys(before + [code]) == Keys(before) + [9]
    ensures code == 0x1C ==> Keys(before + [code]) == Keys(before) + [10]
    ensures code == 0x37 ==> Keys(before + [code]) == Keys(before) + [42]
    ensures code == 0x39 ==> Keys(before + [code]) == Keys(before) + [32]
  {
    hide Decode, Keys, FlagsAfter;
    NoPrefixPending(before);
    KeysAppend(before, code);
    PressDecode(FlagsAfter(before), code);
  }

  lemma PressDecode(f: Flags, code: Scancode)
    requires !f.extended
    ensures var key := Decode(f, code).1;
            && (key.Some? <==> HasCharacter(code))
            && (code == 0x01 ==> key == Some(27)) && (code == 0x0E ==> key == Some(8))
            && (code == 0x0F ==> key == Some(9)) && (code == 0x1C ==> key == Some(10))
            && (code == 0x37 ==> key == Some(42)) && (code == 0x39 ==> key == Some(32))
  {
  }

  lemma NoPrefixPending(before: seq<Scancode>)
    ensures FlagsAfter(before).extended <==> !Unprefixed(before)
  {
  }

  /** What every byte does to the flags. The presses of both shift keys hold shift and either release lets go
      of it, a press of caps lock turns it over, a prefix concerns the next byte only, and a byte behind a
      prefix changes nothing. */
  lemma FlagsStep(before: seq<Scancode>, code: Scancode)
    ensures var was, now := FlagsAfter(before), FlagsAfter(before + [code]);
            if code == 0xE0 then now == Flags(was.shiftHeld, was.capsOn, true)
            else if !Unprefixed(before) then now == Flags(was.shiftHeld, was.capsOn, false)
            else
              && (now.shiftHeld <==> code in {0x2A, 0x36} || (was.shiftHeld && code !in {0xAA, 0xB6}))
              && (now.capsOn <==> (was.capsOn != (code == 0x3A))) && !now.extended
  {
    NoPrefixPending(before);
    assert (before + [code])[..|before|] == before;
  }

  /** Behind the prefix exactly nine presses add a key, each its own. */
  lemma PrefixedPress(before: seq<Scancode>, code: Scancode)
    requires before != [] && before[|before| - 1] == 0xE0
    ensures var now, was := Keys(before + [code]), Keys(before);
            && (code == 0x48 ==> now == was + [0x100]) && (code == 0x50 ==> now == was + [0x101])
            && (code == 0x4B ==> now == was + [0x102]) && (code == 0x4D ==> now == was + [0x103])
            && (code == 0x47 ==> now == was + [0x104]) && (code == 0x4F ==> now == was + [0x105])
            && (code == 0x53 ==> now == was + [0x106]) && (code == 0x49 ==> now == was + [0x107])
            && (code == 0x51 ==> now == was + [0x108])
            && (code !in {0x48, 0x50, 0x4B, 0x4D, 0x47, 0x4F, 0x53, 0x49, 0x51} ==> now == was)
  {
    NoPrefixPending(before);
    assert (before + [code])[..|before|] == before;
  }

  /** A press of caps lock turns the letter that a key types into the same letter in the other case, and
      leaves every other key alone. */
  lemma CapsLockFlips(before: seq<Scancode>, code: Scancode)
    requires Unprefixed(before) && HasCharacter(code)
    ensures |Keys(before + [code])| == |Keys(before + [0x3A, code])| == |Keys(before)| + 1
    ensures var n := |Keys(before)|;
            var c := Keys(before + [code])[n];
            Keys(before + [0x3A, code])[n]
              == (if 97 <= c <= 122 then c - 32 else if 65 <= c <= 90 then c + 32 else c)
  {
    hide Decode, Keys, FlagsAfter;
    var f := FlagsAfter(before);
    NoPrefixPending(before);
    CapsDecode(f, code);
    CapsPress(before);
    KeysAppend(before, code);
    KeysAppend(before + [0x3A], code);
    assert before + [0x3A, code] == before + [0x3A] + [code];
  }

  lemma CapsDecode(f: Flags, code: Scancode)
    requires !f.extended && HasCharacter(code)
    ensures Decode(f, code).1.Some? && Decode(f.(capsOn := !f.capsOn), code).1.Some?
    ensures var c := Decode(f, code).1.value;
            Decode(f.(capsOn := !f.capsOn), code).1.value
              == (if 97 <= c <= 122 then c - 32 else if 65 <= c <= 90 then c + 32 else c)
  {
  }

  lemma CapsPress(before: seq<Scancode>)
    requires Unprefixed(before)
    ensures var f := FlagsAfter(before);
            FlagsAfter(before + [0x3A]) == f.(capsOn := !f.capsOn) && Keys(before + [0x3A]) == Keys(before)
  {
    NoPrefixPending(before);
    assert (before + [0x3A])[..|before|] == before;
  }
}
