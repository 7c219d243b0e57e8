/** The keyboard and the line editor together: what was typed arrives as the line, however the interrupts
    fall between the steps of the reader. */
module Console {
  import opened Bytes
  import opened CStrings
  import opened KeyDecoder
  import opened Keyboard
  import opened Terminal
  import opened Vga
  import opened Shell
  import opened KeyLayout

  /** From the byte in the data port to `keyboard_getchar`: on a fresh driver the press of a key with a character
      gives that character, and any other byte gives nothing. */
  method Keystroke(code: Scancode) returns (c: int)
    ensures HasCharacter(code) ==> Keys([code]) == [c]
    ensures !HasCharacter(code) ==> c == 0
  {
    var driver := new KeyboardDriver();
    driver.KeyboardCallback(code);
    c := driver.KeyboardGetchar();
    OnePress([], code);
    KeysAppend([], code);
    assert [] + [code] == [code];
    assert FlagsAfter([]) == INITIAL;
  }

  /** The keys in front of the first line feed. */
  ghost function FirstLine(keys: seq<int>): (r: seq<int>)
    ensures r <= keys && LINEFEED as int !in r && (|r| < |keys| ==> keys[|r|] == LINEFEED as int)
  {
    if keys == [] || keys[0] == LINEFEED as int then [] else [keys[0]] + FirstLine(keys[1..])
  }

  lemma {:induction false} FirstLineIs(keys: seq<int>, n: nat)
    requires n < |keys| && keys[n] == LINEFEED as int && LINEFEED as int !in keys[..n]
    ensures FirstLine(keys) == keys[..n]
  {
    if n > 0 {
      assert keys[0] in keys[..n] && keys[1..][..n - 1] == keys[..n][1..];
      FirstLineIs(keys[1..], n - 1);
    }
  }

  lemma {:induction false} NonZeroConcat(a: seq<int>, b: seq<int>)
    ensures NonZero(a + b) == NonZero(a) + NonZero(b)
  {
    if b == [] {
      assert a + b == a;
    } else {
      var n := |b| - 1;
      NonZeroConcat(a, b[..n]);
      NonZeroStep(a + b[..n], b[n]);
      NonZeroStep(b[..n], b[n]);
      hide NonZero;
      assert b[..n] + [b[n]] == b && a + b[..n] + [b[n]] == a + b;
    }
  }

  /** The editor sees no difference when the calls that found nothing are left out. */
  lemma {:induction false} EditedNonZero(results: seq<int>)
    ensures Edited(NonZero(results)) == Edited(results)
  {
    if results != [] {
      var n := |results| - 1;
      var front := results[..n];
      EditedNonZero(front);
      if results[n] == 0 {
        assert EditKey(Edited(front), 0) == Edited(front);
      } else {
        assert (NonZero(front) + [results[n]])[..|NonZero(front)|] == NonZero(front);
      }
    }
  }

  /** Results up to a line feed are, without the zeros, the first line of any keys that they begin. */
  lemma LineOfKeys(results: seq<int>, n: nat, keys: seq<int>)
    requires n < |results| && results[n] == LINEFEED as int && LINEFEED as int !in results[..n]
    requires NonZero(results) <= keys
    ensures LINEFEED as int in keys && NonZero(results[..n]) == FirstLine(keys)
    ensures Edited(results[..n]) == Edited(FirstLine(keys)) && |NonZero(results[..n + 1])| == |FirstLine(keys)| + 1
  {
    var line, rest := results[..n], results[n + 1..];
    assert results == line + [LINEFEED as int] + rest;
    NonZeroConcat(line + [LINEFEED as int], rest);
    NonZeroStep(line, LINEFEED as int);
    NonZeroKeys(line);
    EditedNonZero(line);
    assert results[..n + 1] == line + [LINEFEED as int];
    hide NonZero;
    var m := |NonZero(line)|;
    assert keys[..m] == NonZero(line) && keys[m] == LINEFEED as int;
    FirstLineIs(keys, m);
  }

  lemma {:induction false} NonZeroKeys(results: seq<int>)
    requires LINEFEED as int !in results
    ensures LINEFEED as int !in NonZero(results)
  {
    if results != [] {
      NonZeroKeys(results[..|results| - 1]);
    }
  }

  /** Keys that begin with what came out still do so from the `from`th call of `keyboard_getchar` on, minus
      the keys consumed before. */
  lemma LaterResults(results: seq<int>, keys: seq<int>, from: nat)
    requires NonZero(results) <= keys && from <= |results|
    ensures |NonZero(results[..from])| <= |keys|
    ensures NonZero(results[from..]) <= keys[|NonZero(results[..from])|..]
  {
    NonZeroConcat(results[..from], results[from..]);
    assert results == results[..from] + results[from..];
    hide NonZero;
    var a, b := NonZero(results[..from]), NonZero(results[from..]);
    assert keys[|a|..][..|b|] == keys[..|a| + |b|][|a|..] == b;
  }

  /** The keys that were accepted in a run, without those that its first `from` results consumed. */
  ghost function Remaining(t: System, from: nat): seq<int>
    requires from <= |t.results| && |NonZero(t.results[..from])| <= |t.accepted|
  {
    t.accepted[|NonZero(t.results[..from])|..]
  }

  /** `read_line` on the results of `keyboard_getchar`, beginning anywhere in any run of the keyboard. A line
      is delivered exactly when a line feed comes out, and it is the edited first line of the keys accepted
      and not consumed before, for every interleaving of interrupts and reader steps; the next line begins
      behind its line feed. While no line feed has come out, the screen and the buffer show exactly the keys
      that have. */
  method ReadTyped(screen: VgaScreen, line: array<Byte>, results: seq<int>,
                   ghost s: System, ghost actions: seq<Action>, ghost from: nat)
      returns (done: bool, used: nat)
    requires Initial(s)
    requires from <= |Run(s, actions).results| && results == Run(s, actions).results[from..]
    requires screen.Valid() && line.Length == LINE_MAX
    modifies line, screen.memory, screen`row, screen`col, screen`tape
    ensures screen.Valid() && used <= |results|
    ensures done <==> LINEFEED as int in results
    ensures done ==> used > 0 && results[used - 1] == LINEFEED as int && LINEFEED as int !in results[..used - 1]
    ensures |NonZero(Run(s, actions).results[..from])| <= |Run(s, actions).accepted|
    ensures done ==>
              var keys := Remaining(Run(s, actions), from);
              && LINEFEED as int in keys
              && Terminated(line[..]) && TextOf(line[..]) == Edited(FirstLine(keys))
              && |NonZero(results[..used])| == |FirstLine(keys)| + 1
              && exists t: Tape :: Typed(old(screen.tape), t, Edited(FirstLine(keys)), screen.color)
                                   && screen.tape == Put(t, LINEFEED, screen.color)
    ensures !done ==>
              var out := NonZero(results);
              && used == |results| && out <= Remaining(Run(s, actions), from)
              && Typed(old(screen.tape), screen.tape, Edited(out), screen.color)
              && line[..|Edited(out)|] == Edited(out)
    ensures Drops(s, actions) == 0 ==> Run(s, actions).accepted == Keys(Run(s, actions).scanned)
  {
    hide Run, Drops, Edited, NonZero, Typed, Put, Keys, TextOf, FirstLine, Terminated, Inv, FlagsAfter;
    ghost var t := Run(s, actions);
    AcceptedAreKeys(s, actions);
    ResultsAreAccepted(s, actions);
    LaterResults(t.results, t.accepted, from);
    done, used := ReadLine(screen, line, results);
    if done {
      LineOfKeys(results, used - 1, Remaining(t, from));
    } else {
      EditedNonZero(results);
    }
  }

  lemma ResultsAreAccepted(s: System, actions: seq<Action>)
    requires Initial(s)
    ensures NonZero(Run(s, actions).results) <= Run(s, actions).accepted
  {
    KeysInOrder(s, actions);
  }

  /** When no key is lost, every line delivered is the edited first line of the keys that the bytes spell,
      counted from where the line before it ended. */
  lemma NothingLost(s: System, actions: seq<Action>, from: nat)
    requires Initial(s) && Drops(s, actions) == 0 && from <= |Run(s, actions).results|
    ensures var t := Run(s, actions);
            var consumed := |NonZero(t.results[..from])|;
            && NonZero(t.results) <= Keys(t.scanned)
            && consumed <= |Keys(t.scanned)| && consumed <= |t.accepted|
            && Remaining(t, from) == Keys(t.scanned)[consumed..]
  {
    var t := Run(s, actions);
    AcceptedAreKeys(s, actions);
    ResultsAreAccepted(s, actions);
    hide Run, Drops, NonZero, Keys, Initial;
    LaterResults(t.results, t.accepted, from);
  }
}
