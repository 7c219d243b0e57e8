/** kernel/user.c: the user name and the host name, their file in Fish, and how they survive a reboot. */
module User {
  import opened Bytes
  import opened CStrings
  import opened FishTree
  import opened FishSteps
  import opened FishSpec
  import opened Fish
  import opened FishImage
  import opened Disk
  import Memory

  const USER_NAME_MAX := 32
  const NEWLINE: Byte := 10
  /** "ys.conf" */
  const CONFIG_FILE: Text := [121, 115, 46, 99, 111, 110, 102]
  /** "user" */
  const DEFAULT_NAME: Text := [117, 115, 101, 114]
  /** "yunix" */
  const DEFAULT_HOST: Text := [121, 117, 110, 105, 120]

  // ---------------------------------------------------------------------------
  // Fields
  // ---------------------------------------------------------------------------

  /** Not empty and free of spaces and control characters (and, `char` being signed, of bytes above 127). */
  predicate Acceptable(value: Text) {
    value != [] && forall k | 0 <= k < |value| :: SPACE < value[k] < 128
  }

  function Cut(value: seq<Byte>): (r: seq<Byte>)
    ensures |r| == (if |value| <= 31 then |value| else 31) && r == value[..|r|]
  {
    if |value| < USER_NAME_MAX then value else value[..USER_NAME_MAX - 1]
  }

  /** What a field can hold once it has been set. */
  ghost predicate Storable(value: Text) {
    Acceptable(value) && |value| < USER_NAME_MAX
  }

  /** `set_field`: refuses or stores the first 31 characters. */
  method SetField(field: array<Byte>, value: Text) returns (ok: bool)
    requires field.Length == USER_NAME_MAX
    modifies field
    ensures ok == Acceptable(value)
    ensures ok <==> |value| > 0 && forall k | 0 <= k < |value| :: 33 <= value[k] <= 127
    ensures !ok ==> field[..] == old(field[..])
    ensures ok ==> Terminated(field[..]) && TextOf(field[..]) == Cut(value)
  {
    if value == [] { return false; }
    var i := 0;
    while i < |value|
      invariant 0 <= i <= |value| && field[..] == old(field[..])
      invariant forall k | 0 <= k < i :: SPACE < value[k] < 128
    {
      if value[i] <= SPACE || value[i] >= 128 { return false; }
      i := i + 1;
    }
    i := 0;
    while i < USER_NAME_MAX - 1 && i < |value|
      invariant 0 <= i <= USER_NAME_MAX - 1 && i <= |value|
      invariant field[..i] == value[..i]
    {
      field[i] := value[i];
      i := i + 1;
    }
    field[i] := 0;
    assert field[..] == Cut(value) + [0] + field[i + 1..];
    TextOfTerminated(Cut(value), field[i + 1..]);
    assert field[i] in field[..];
    return true;
  }

  /** `strcpy` */
  method CopyText(dest: array<Byte>, src: Text)
    requires |src| < dest.Length
    modifies dest
    ensures dest[..] == Strcpy(old(dest[..]), src)
  {
    Memory.Memcpy(dest, 0, src + [0], 0, |src| + 1);
  }

  // ---------------------------------------------------------------------------
  // The text of the file
  // ---------------------------------------------------------------------------

  /** The file that stores a pair of names. */
  function ConfigText(name: Text, host: Text): Text {
    name + [NEWLINE] + host + [NEWLINE]
  }

  /** The bytes in front of the first newline. */
  function Line(s: seq<Byte>): (r: seq<Byte>)
    ensures |r| <= |s| && r == s[..|r|] && NEWLINE !in r
    ensures |r| < |s| ==> s[|r|] == NEWLINE
  {
    if s == [] || s[0] == NEWLINE then [] else [s[0]] + Line(s[1..])
  }

  /** What follows the first newline. */
  function After(s: seq<Byte>): (r: seq<Byte>)
    ensures |Line(s)| < |s| ==> s == Line(s) + [10] + r
    ensures |Line(s)| == |s| ==> r == []
  {
    if |Line(s)| < |s| then s[|Line(s)| + 1..] else []
  }

  lemma {:induction false} LineIs(line: seq<Byte>, rest: seq<Byte>)
    requires NEWLINE !in line && (rest == [] || rest[0] == NEWLINE)
    ensures Line(line + rest) == line
  {
    if line == [] {
      assert line + rest == rest;
    } else {
      LineIs(line[1..], rest);
      assert (line + rest)[1..] == line[1..] + rest;
    }
  }

  /** The value a field has after a line of the file was read into it: a line that `set_field`
      refuses changes nothing. */
  ghost function Field(was: Text, line: seq<Byte>): Text {
    var value := TextOf(Cut(line));
    if Acceptable(value) then value else was
  }

  /** The parser undoes the printer. */
  lemma ConfigRoundTrip(name: Text, host: Text, was: Text, was': Text)
    requires Storable(name) && Storable(host)
    ensures var text := ConfigText(name, host);
            Field(was, Line(text)) == name && Field(was', Line(After(text))) == host
  {
    hide Line, After, TextOf;
    assert NEWLINE !in name && NEWLINE !in host;
    assert ConfigText(name, host) == name + [NEWLINE] + (host + [NEWLINE] + []);
    assert host + [NEWLINE] + [] == host + [NEWLINE];
    FirstLineOf(name, host + [NEWLINE]);
    FirstLineOf(host, []);
    TextOfWhole(name);
    TextOfWhole(host);
  }

  lemma FirstLineOf(line: seq<Byte>, rest: seq<Byte>)
    requires NEWLINE !in line
    ensures Line(line + [NEWLINE] + rest) == line && After(line + [NEWLINE] + rest) == rest
  {
    assert line + [NEWLINE] + rest == line + ([NEWLINE] + rest);
    LineIs(line, [NEWLINE] + rest);
  }

  lemma {:induction false} TextOfWhole(s: Text)
    ensures TextOf(s) == s
  {
    if s != [] { TextOfWhole(s[1..]); }
  }

  class UserConfig {
    const name: array<Byte>
    const host: array<Byte>

    ghost predicate Shaped()
    {
      name.Length == USER_NAME_MAX && host.Length == USER_NAME_MAX && name != host
    }

    ghost predicate Valid()
      reads name, host
    {
      && Shaped() && Terminated(name[..]) && Terminated(host[..])
      && Storable(TextOf(name[..])) && Storable(TextOf(host[..]))
    }

    ghost function Name(): Text
      reads name
    {
      TextOf(name[..])
    }

    ghost function Host(): Text
      reads host
    {
      TextOf(host[..])
    }

    constructor ()
      ensures Valid() && Name() == DEFAULT_NAME && Host() == DEFAULT_HOST && fresh(name) && fresh(host)
    {
      name := new Byte[USER_NAME_MAX];
      host := new Byte[USER_NAME_MAX];
      new;
      UserInit();
    }

    method UserInit()
      requires Shaped()
      modifies name, host
      ensures Valid() && Name() == DEFAULT_NAME && Host() == DEFAULT_HOST
      ensures |Name()| == 4 && forall k | 0 <= k < 4 :: Name()[k] as int == "user"[k] as int
      ensures |Host()| == 5 && forall k | 0 <= k < 5 :: Host()[k] as int == "yunix"[k] as int
    {
      CopyText(name, DEFAULT_NAME);
      CopyText(host, DEFAULT_HOST);
    }

    method UserSetName(value: Text) returns (ok: bool)
      requires Valid()
      modifies name
      ensures Valid() && ok == Acceptable(value) && Host() == old(Host())
      ensures Name() == if ok then Cut(value) else old(Name())
    {
      ok := SetField(name, value);
    }

    method UserSetHost(value: Text) returns (ok: bool)
      requires Valid()
      modifies host
      ensures Valid() && ok == Acceptable(value) && Name() == old(Name())
      ensures Host() == if ok then Cut(value) else old(Host())
    {
      ok := SetField(host, value);
    }

    /** The two loops that lay out the file in a buffer of 68 bytes. */
    method BuildText() returns (text: array<Byte>)
      requires Valid()
      ensures fresh(text) && Terminated(text[..]) && TextOf(text[..]) == ConfigText(Name(), Host())
    {
      text := new Byte[USER_NAME_MAX * 2 + 4];
      var n, h := name[..], host[..];
      var pos := CopyInto(text, 0, n);
      text[pos] := NEWLINE;
      assert text[..pos + 1] == TextOf(n) + [NEWLINE];
      pos := CopyInto(text, pos + 1, h);
      text[pos] := NEWLINE;
      assert text[..pos + 1] == TextOf(n) + [NEWLINE] + TextOf(h) + [NEWLINE];
      text[pos + 1] := 0;
      assert text[..pos + 1] == ConfigText(TextOf(n), TextOf(h));
      Spells(text[..], ConfigText(TextOf(n), TextOf(h)));
    }

    /** Writes the file, from the root, and comes back. It fails exactly when "ys.conf" is a directory
        or is missing and the filesystem is full, and then nothing has changed. */
    method UserSave(fish: FishFs) returns (ok: bool)
      requires Valid() && fish.Valid()
      modifies fish`current, fish.nodes
      ensures fish.Valid() && fish.current == old(fish.current)
      ensures ok <==> CanSave(old(fish.Abs()).tree)
      ensures fish.Abs() == if ok then WithConfig(old(fish.Abs()), Name(), Host()) else old(fish.Abs())
    {
      hide IsTree, View, PathOf, PlacesOf, CanSave, TextOf, Landing, Folder, StaysPut;
      var saved := fish.FishSaveCwd();
      ghost var fs, where := fish.Abs(), fish.Where();
      var _ := fish.FishChdir([SLASH]);
      assert fish.Abs() == Fs(fs.tree, []);
      var text := BuildText();
      var bytes := TextOf(text[..]);
      ok := StoreConfig(fish, bytes);
      LandsAgain(fs, where, fish.Abs().tree, fish.Where(), saved, bytes);
      fish.FishRestoreCwd(saved);
    }

    /** Reads the file, from the root, and comes back. The first line sets the user name and the second
        the host name; a line that is missing or not acceptable leaves its name as it was. */
    method UserLoad(fish: FishFs) returns (ok: bool)
      requires Valid() && fish.Valid()
      modifies name, host, fish`current
      ensures Valid() && fish.Valid() && fish.current == old(fish.current) && fish.Abs() == old(fish.Abs())
      ensures ok <==> [CONFIG_FILE] in fish.Abs().tree && fish.Abs().tree[[CONFIG_FILE]].File?
      ensures !ok ==> Name() == old(Name()) && Host() == old(Host())
      ensures ok ==>
                var s := fish.Abs().tree[[CONFIG_FILE]].bytes;
                Name() == Field(old(Name()), Line(s)) && Host() == Field(old(Host()), Line(After(s)))
    {
      hide IsTree, View, PathOf, TextOf, Line, Field, After, Acceptable;
      var found, data, size := ReadConfig(fish);
      if !found { return false; }
      ghost var ns := fish.nodes[..];
      Parse(data, size);
      assert fish.nodes[..] == ns;
      return true;
    }

    /** The loop of `user_load`: walks the text and cuts it at each newline. */
    method Parse(data: seq<Byte>, size: nat)
      requires Valid() && size <= |data|
      modifies name, host
      ensures Valid()
      ensures Name() == Field(old(Name()), Line(data[..size]))
      ensures Host() == Field(old(Host()), Line(After(data[..size])))
    {
      hide Parsing, Collected, Field, TextOf, Line, Cut, After, Acceptable;
      var field := new Byte[USER_NAME_MAX];
      ghost var s := data[..size];
      ghost var start: nat := 0;
      var pos: nat, line: nat, i: nat := 0, 0, 0;
      CollectStart(s, 0, field[..]);
      ghost var was, was' := Name(), Host();
      ParsingStart(s, was, was');
      while i <= size && line <= 1
        invariant i <= size + 1 && line <= 2 && Reading(s, was, was', field[..], pos, line, start, i)
        decreases size + 1 - i
      {
        pos, line, start := Advance(field, pos, line, i, data, size, start, was, was');
        i := i + 1;
      }
      ParsingDone(s, was, was', Name(), Host(), line, start, i);
    }

    /** The state of the loop before position `i`. */
    ghost predicate Reading(s: seq<Byte>, was: Text, was': Text, field: seq<Byte>,
                            pos: nat, line: nat, start: nat, i: nat)
      reads name, host
    {
      && Valid() && Parsing(s, was, was', Name(), Host(), line, start, i)
      && (line <= 1 && i <= |s| ==> Collected(s, start, i, field, pos))
    }

    /** One pass of the loop. */
    method Advance(field: array<Byte>, pos: nat, line: nat, i: nat, data: seq<Byte>, size: nat,
                   ghost start: nat, ghost was: Text, ghost was': Text)
        returns (pos': nat, line': nat, ghost start': nat)
      requires size <= |data| && i <= size && line <= 1
      requires field != name && field != host && field.Length == USER_NAME_MAX
      requires Reading(data[..size], was, was', field[..], pos, line, start, i)
      modifies name, host, field
      ensures line' <= 2 && Reading(data[..size], was, was', field[..], pos', line', start', i + 1)
    {
      hide Parsing, Collected, Field, TextOf, Line, Cut, After, Acceptable;
      ghost var s := data[..size];
      if i < size && data[i] != NEWLINE {
        ParsingOn(s, was, was', Name(), Host(), line, start, i);
        pos' := Collect(field, pos, data[i], s, start, i);
        return pos', line, start;
      }
      EndOfLine(field, pos, line, s, start, i, was, was');
      if i < size { CollectStart(s, i + 1, field[..]); }
      return 0, line + 1, i + 1;
    }

    /** A complete line goes into the name or the host. */
    method EndOfLine(field: array<Byte>, pos: nat, line: nat, ghost s: seq<Byte>, ghost start: nat, ghost i: nat,
                     ghost was: Text, ghost was': Text)
      requires Valid() && field != name && field != host && line <= 1
      requires Collected(s, start, i, field[..], pos) && (i == |s| || s[i] == NEWLINE)
      requires Parsing(s, was, was', Name(), Host(), line, start, i)
      modifies name, host, field
      ensures Valid() && Parsing(s, was, was', Name(), Host(), line + 1, i + 1, i + 1)
    {
      CollectEnd(s, start, i, field[..], pos);
      ParsingEnd(s, was, was', Name(), Host(), line, start, i);
      hide Parsing, Collected, Field, TextOf, Line, Cut, After, Acceptable;
      if line == 0 {
        StoreLine(name, field, pos, s[start..i]);
      } else {
        StoreLine(host, field, pos, s[start..i]);
      }
    }
  }

  /** How far `user_load` is: in line `line`, which began at `start`, at position `i`. */
  ghost predicate Parsing(s: seq<Byte>, was: Text, was': Text, name: Text, host: Text, line: nat, start: nat, i: nat) {
    && (line == 0 ==> start == 0 && i <= |s| && name == was)
    && (line > 0 ==> name == Field(was, Line(s)))
    && (line == 1 ==> start <= i && After(s) == (if start <= |s| then s[start..] else []))
    && (line == 1 && i > |s| ==> start > |s|)
    && (line <= 1 ==> host == was')
    && (line == 2 ==> host == Field(was', Line(After(s))))
  }

  lemma ParsingStart(s: seq<Byte>, was: Text, was': Text)
    ensures Parsing(s, was, was', was, was', 0, 0, 0)
  {
  }

  lemma ParsingOn(s: seq<Byte>, was: Text, was': Text, name: Text, host: Text, line: nat, start: nat, i: nat)
    requires Parsing(s, was, was', name, host, line, start, i) && i < |s|
    ensures Parsing(s, was, was', name, host, line, start, i + 1)
  {
  }

  lemma ParsingEnd(s: seq<Byte>, was: Text, was': Text, name: Text, host: Text, line: nat, start: nat, i: nat)
    requires Parsing(s, was, was', name, host, line, start, i) && start <= i <= |s| && line <= 1
    requires Line(s[start..]) == s[start..i] && After(s[start..]) == (if i < |s| then s[i + 1..] else [])
    ensures line == 0 ==> Parsing(s, was, was', Field(name, s[start..i]), host, 1, i + 1, i + 1)
    ensures line == 1 ==> Parsing(s, was, was', name, Field(host, s[start..i]), 2, i + 1, i + 1)
  {
  }

  lemma ParsingDone(s: seq<Byte>, was: Text, was': Text, name: Text, host: Text, line: nat, start: nat, i: nat)
    requires Parsing(s, was, was', name, host, line, start, i) && line <= 2 && (i > |s| || line == 2)
    ensures name == Field(was, Line(s)) && host == Field(was', Line(After(s)))
  {
  }

  /** Fetches the file from the root and comes back. */
  method ReadConfig(fish: FishFs) returns (found: bool, data: seq<Byte>, size: nat)
    requires fish.Valid()
    modifies fish`current
    ensures fish.Valid() && fish.current == old(fish.current) && fish.Abs() == old(fish.Abs())
    ensures found <==> [CONFIG_FILE] in fish.Abs().tree && fish.Abs().tree[[CONFIG_FILE]].File?
    ensures found ==> size <= |data| && File(data[..size]) == fish.Abs().tree[[CONFIG_FILE]]
  {
    hide IsTree, View, PathOf, PlacesOf, Landing, Folder;
    ghost var fs, ns := fish.Abs(), fish.nodes[..];
    var saved := fish.FishSaveCwd();
    var _ := fish.FishChdir([SLASH]);
    assert fish.nodes[..] == ns && fish.Abs() == Fs(fs.tree, []);
    found, data, size := ReadFromRoot(fish);
    fish.FishRestoreCwd(saved);
    assert fish.nodes[..] == ns && fish.Abs() == fs;
  }

  method ReadFromRoot(fish: FishFs) returns (found: bool, data: seq<Byte>, size: nat)
    requires fish.Valid() && fish.Abs().cwd == []
    ensures found <==> [CONFIG_FILE] in fish.Abs().tree && fish.Abs().tree[[CONFIG_FILE]].File?
    ensures found ==> size <= |data| && File(data[..size]) == fish.Abs().tree[[CONFIG_FILE]]
  {
    assert [] + [CONFIG_FILE] == [CONFIG_FILE];
    hide IsTree, View, PathOf, Folder;
    found, data, size := fish.FishRead(CONFIG_FILE);
  }

  /** Creating the file, which is fine if it is there already, and writing it, from the root. */
  method StoreConfig(fish: FishFs, text: Text) returns (ok: bool)
    requires fish.Valid() && fish.Abs().cwd == [] && |text| <= FISH_FILE_MAX
    modifies fish.nodes
    ensures fish.Valid() && StaysPut(old(fish.Where()), fish.Where())
    ensures ok <==> CanSave(old(fish.Abs()).tree)
    ensures var fs := old(fish.Abs());
            fish.Abs() == if ok then fs.(tree := fs.tree[[CONFIG_FILE] := File(text)]) else fs
  {
    hide IsTree, View, PathOf, PlacesOf, Occupy, StaysPut, Make, Write, CanSave, Folder;
    ghost var fs, where := fish.Abs(), fish.Where();
    CreateThenWrite(fs, text);
    var made := fish.FishCreate(CONFIG_FILE);
    OccupyStays(where, fs, CONFIG_FILE, made);
    var r := fish.FishWrite(CONFIG_FILE, text);
    ok := r == FISH_OK;
  }

  lemma CreateThenWrite(fs: Fs, text: Text)
    requires fs.cwd == [] && |text| <= FISH_FILE_MAX
    ensures var out := Write(Make(fs, CONFIG_FILE, File([])).fs, CONFIG_FILE, text);
            && (out.code == FISH_OK <==> CanSave(fs.tree))
            && out.fs == if CanSave(fs.tree) then fs.(tree := fs.tree[[CONFIG_FILE] := File(text)]) else fs
  {
    ConfigNameValid();
    hide ValidName;
    var t := fs.tree[[CONFIG_FILE] := File([])];
    assert t[[CONFIG_FILE] := File(text)] == fs.tree[[CONFIG_FILE] := File(text)];
  }

  /** The first `pos` bytes of the field are the current line, which began at `start`, cut to 31. */
  ghost predicate Collected(s: seq<Byte>, start: nat, i: nat, field: seq<Byte>, pos: nat) {
    && start <= i <= |s| && |field| == USER_NAME_MAX && NEWLINE !in s[start..i]
    && pos == |Cut(s[start..i])| && field[..pos] == Cut(s[start..i])
  }

  lemma CollectStart(s: seq<Byte>, start: nat, field: seq<Byte>)
    requires start <= |s| && |field| == USER_NAME_MAX
    ensures Collected(s, start, start, field, 0)
  {
  }

  /** One more character of the line; those beyond the 31st are dropped. */
  method Collect(field: array<Byte>, pos: nat, b: Byte, ghost s: seq<Byte>, ghost start: nat, ghost i: nat)
      returns (r: nat)
    requires Collected(s, start, i, field[..], pos) && i < |s| && b == s[i] != NEWLINE
    modifies field
    ensures Collected(s, start, i + 1, field[..], r)
  {
    assert s[start..i + 1] == s[start..i] + [s[i]];
    if pos < USER_NAME_MAX - 1 {
      field[pos] := b;
      return pos + 1;
    }
    return pos;
  }

  lemma CollectEnd(s: seq<Byte>, start: nat, i: nat, field: seq<Byte>, pos: nat)
    requires Collected(s, start, i, field, pos) && (i == |s| || s[i] == NEWLINE)
    ensures start <= i <= |s| && |field| == USER_NAME_MAX
    ensures pos == |Cut(s[start..i])| && field[..pos] == Cut(s[start..i])
    ensures Line(s[start..]) == s[start..i]
    ensures After(s[start..]) == if i < |s| then s[i + 1..] else []
  {
    hide Line, Cut;
    assert s[start..] == s[start..i] + s[i..];
    LineIs(s[start..i], s[i..]);
  }

  /** The value of a buffer whose front is `a` and which is terminated right behind it. */
  lemma {:induction false} TextOfFront(a: seq<Byte>, rest: seq<Byte>)
    ensures TextOf(a + [0] + rest) == TextOf(a)
  {
    var buffer := a + [0] + rest;
    if a == [] || a[0] == 0 {
    } else {
      TextOfFront(a[1..], rest);
      assert buffer[1..] == a[1..] + [0] + rest;
    }
  }

  /** The end of a line: the field is terminated and handed to `set_field`. */
  method StoreLine(target: array<Byte>, field: array<Byte>, pos: nat, ghost line: seq<Byte>)
    requires target != field && target.Length == field.Length == USER_NAME_MAX && Terminated(target[..])
    requires pos == |Cut(line)| && field[..pos] == Cut(line)
    modifies target, field
    ensures Terminated(target[..]) && TextOf(target[..]) == Field(old(TextOf(target[..])), line)
    ensures old(Storable(TextOf(target[..]))) ==> Storable(TextOf(target[..]))
  {
    field[pos] := 0;
    ghost var rest := field[pos + 1..];
    assert field[..] == Cut(line) + [0] + rest;
    TextOfFront(Cut(line), rest);
    if pos > 0 {
      var _ := SetField(target, TextOf(field[..]));
    }
  }

  ghost predicate CanSave(tree: map<Path, Entry>) {
    if [CONFIG_FILE] in tree then tree[[CONFIG_FILE]].File? else |tree| < FISH_MAX_NODES
  }

  ghost function WithConfig(fs: Fs, name: Text, host: Text): Fs {
    fs.(tree := fs.tree[[CONFIG_FILE] := File(ConfigText(name, host))])
  }

  /** Storing the names works if and only if "ys.conf" is a file already, or is missing and there are fewer
      than 64 entries. The file then holds the two names, each with a newline behind it, and every other
      path holds what it did. */
  lemma ConfigStored(fs: Fs, name: Text, host: Text)
    ensures CanSave(fs.tree) <==>
              if [CONFIG_FILE] in fs.tree then fs.tree[[CONFIG_FILE]].File? else |fs.tree| < 64
    ensures var tree := WithConfig(fs, name, host).tree;
            && [CONFIG_FILE] in tree && tree[[CONFIG_FILE]] == File(name + [10] + host + [10])
            && forall p | p != [CONFIG_FILE] :: (p in tree <==> p in fs.tree) && (p in tree ==> tree[p] == fs.tree[p])
    ensures WithConfig(fs, name, host).cwd == fs.cwd
  {
  }

  /** A line that is acceptable, has no zero byte and fits becomes the value; a line with a space in it, a
      control character, or nothing at all does not. */
  lemma FieldExactly(was: Text, line: Text)
    requires |line| <= 31
    ensures |line| > 0 && (forall k | 0 <= k < |line| :: 33 <= line[k] <= 127) ==> Field(was, line) == line
    ensures line == [] || (exists k | 0 <= k < |line| :: line[k] <= 32 || line[k] >= 128) ==> Field(was, line) == was
  {
    TextOfWhole(line);
  }

  lemma ConfigNameValid()
    ensures ValidName(CONFIG_FILE) && [] + [CONFIG_FILE] == [CONFIG_FILE]
    ensures |CONFIG_FILE| == 7 && forall k | 0 <= k < 7 :: CONFIG_FILE[k] as int == "ys.conf"[k] as int
  {
  }

  /** No slot lost its path. */
  ghost predicate StaysPut(was: Places, now: Places) {
    forall i | i in was :: i in now && now[i] == was[i]
  }

  lemma OccupyStays(where: Places, fs: Fs, name: Text, code: int)
    ensures StaysPut(where, Occupy(where, fs, name, code))
  {
  }

  /** A directory that was left is still there after its file was stored. */
  lemma LandsAgain(fs: Fs, where: Places, tree: map<Path, Entry>, where': Places, handle: int, bytes: seq<Byte>)
    requires handle in where && StaysPut(where, where') && Landing(fs.tree, where, handle) == where[handle] == fs.cwd
    requires tree == if CanSave(fs.tree) then fs.tree[[CONFIG_FILE] := File(bytes)] else fs.tree
    ensures handle in where' && where'[handle] == Landing(tree, where', handle) == fs.cwd
  {
  }

  /** Copies the text of a buffer to position `at`. */
  method CopyInto(dest: array<Byte>, at: nat, src: seq<Byte>) returns (pos: nat)
    requires Terminated(src) && at + |TextOf(src)| <= dest.Length
    modifies dest
    ensures pos == at + |TextOf(src)| && dest[..pos] == old(dest[..at]) + TextOf(src)
  {
    ghost var text := TextOf(src);
    pos := at;
    var i := 0;
    while src[i] != 0
      invariant i <= |text| && pos == at + i
      invariant forall k | at <= k < pos :: dest[k] == text[k - at]
      invariant forall k | 0 <= k < dest.Length && !(at <= k < pos) :: dest[k] == old(dest[k])
      decreases |text| - i
    {
      dest[pos] := src[i];
      pos := pos + 1;
      i := i + 1;
    }
  }

  // ---------------------------------------------------------------------------
  // Saving and booting
  // ---------------------------------------------------------------------------

  /** The shell's `save`: the names go into the tree, the tree goes to the disk. */
  method CmdSave(user: UserConfig, fish: FishFs, disk: AtaDisk) returns (stored: bool, r: int)
    requires user.Valid() && fish.Valid() && disk.Valid()
    modifies fish`current, fish.nodes, disk`transfers, disk`sectors
    ensures fish.Valid() && disk.Valid() && fish.current == old(fish.current)
    ensures stored <==> CanSave(old(fish.Abs()).tree)
    ensures fish.Abs() == if stored then WithConfig(old(fish.Abs()), user.Name(), user.Host()) else old(fish.Abs())
    ensures r == FISH_OK <==> disk.present && old(disk.Works(1 + NODE_SECTORS))
    ensures r == FISH_OK ==> HoldsImage(disk.sectors, fish.nodes[..], fish.current)
    ensures r == FISH_OK ==> disk.transfers == old(disk.transfers) + 1 + NODE_SECTORS
    ensures OnlyWithin(old(disk.sectors), disk.sectors, FISH_START_LBA, 1 + NODE_SECTORS)
  {
    hide View, PathOf, CanSave, TextOf, HoldsImage, Attached, Siblings, Ranks, Acceptable;
    hide OnlyWithin, SavedUpTo, Leading;
    LeadingAll(disk.fate, disk.transfers, 1 + NODE_SECTORS);
    stored := user.UserSave(fish);
    r := FishSave(fish, disk);
  }

  /** A superblock that Fish accepts is in front of a pool without a root, which is refused, or of a tree. */
  ghost predicate Archived(sectors: map<nat, seq<Byte>>)
    requires WholeSectors(sectors)
  {
    Recognised(Content(sectors, FISH_START_LBA)) && Folder(StoredPool(sectors), 0) ==> IsTree(StoredPool(sectors))
  }

  ghost predicate Completed(sectors: map<nat, seq<Byte>>, ns: seq<Node>, cur: nat) {
    WholeSectors(sectors) && IsTree(ns) && Folder(ns, cur) && HoldsImage(sectors, ns, cur)
  }

  lemma CompletedArchived(sectors: map<nat, seq<Byte>>, ns: seq<Node>, cur: nat)
    requires Completed(sectors, ns, cur)
    ensures Archived(sectors) && Recognised(Content(sectors, FISH_START_LBA)) && Folder(StoredPool(sectors), 0)
    ensures StoredPool(sectors) == ns && SavedCurrent(Content(sectors, FISH_START_LBA), ns) == cur
  {
    hide Recognised, StoredPool, HoldsImage, SavedCurrent;
    ImageStored(sectors, ns, cur);
  }

  /** The names a configuration file leaves behind when it is read over the defaults. */
  ghost predicate NamesFrom(user: UserConfig, tree: map<Path, Entry>)
    reads user.name, user.host
  {
    if [CONFIG_FILE] in tree && tree[[CONFIG_FILE]].File? then
      var s := tree[[CONFIG_FILE]].bytes;
      user.Name() == Field(DEFAULT_NAME, Line(s)) && user.Host() == Field(DEFAULT_HOST, Line(After(s)))
    else
      user.Name() == DEFAULT_NAME && user.Host() == DEFAULT_HOST
  }

  /** The end of `kernel_main`: defaults, an empty filesystem, and, exactly if the disk holds an accepted image
      and can be read to its end, the tree of the image and the names in it. The filesystem is empty unless
      the image was loaded or a transfer failed behind its superblock. */
  method Boot(disk: AtaDisk) returns (user: UserConfig, fish: FishFs, restored: bool)
    requires disk.Valid() && (disk.present && disk.Works(1 + NODE_SECTORS) ==> Archived(disk.sectors))
    modifies disk`transfers
    ensures fresh(user) && fresh(fish) && user.Valid() && disk.Valid()
    ensures restored <==> old(LoadCode(disk)) == FISH_OK
    ensures !restored ==> user.Name() == DEFAULT_NAME && user.Host() == DEFAULT_HOST
    ensures restored ==>
              && fish.Valid() && NamesFrom(user, fish.Abs().tree)
              && fish.nodes[..] == StoredPool(disk.sectors)
              && fish.current == SavedCurrent(Content(disk.sectors, FISH_START_LBA), fish.nodes[..])
    ensures !restored && (!old(Admitted(disk)) || old(disk.Works(1 + NODE_SECTORS))) ==>
              fish.Valid() && fish.Abs() == EMPTY
    ensures forall ns: seq<Node>, cur: nat | Completed(disk.sectors, ns, cur) ::
              && (restored <==> disk.present && old(disk.Works(1 + NODE_SECTORS)))
              && (restored ==> fish.nodes[..] == ns && fish.current == cur)
  {
    hide IsTree, View, PathOf, Field, Line, After, TextOf, Acceptable, Archived, StoredPool, SavedCurrent, Completed;
    hide Recognised;
    user := new UserConfig();
    fish := new FishFs();
    restored := Restore(fish, disk);
    if restored {
      ghost var ns := fish.nodes[..];
      var _ := user.UserLoad(fish);
      assert fish.nodes[..] == ns;
    }
    forall ns: seq<Node>, cur: nat | Completed(disk.sectors, ns, cur)
      ensures (restored <==> disk.present && old(disk.Works(1 + NODE_SECTORS)))
      ensures restored ==> fish.nodes[..] == ns && fish.current == cur
    {
      CompletedArchived(disk.sectors, ns, cur);
    }
  }

  /** Starts with an empty filesystem and loads the saved one over it, if there is one. */
  method Restore(fish: FishFs, disk: AtaDisk) returns (restored: bool)
    requires fish.Shaped() && disk.Valid()
    requires disk.present && disk.Works(1 + NODE_SECTORS) ==> Archived(disk.sectors)
    modifies fish`current, fish.nodes, disk`transfers
    ensures disk.Valid() && (restored <==> old(LoadCode(disk)) == FISH_OK)
    ensures restored ==>
              && fish.Valid() && fish.nodes[..] == StoredPool(disk.sectors)
              && fish.current == SavedCurrent(Content(disk.sectors, FISH_START_LBA), fish.nodes[..])
    ensures !restored && (!old(Admitted(disk)) || old(disk.Works(1 + NODE_SECTORS))) ==>
              fish.Valid() && fish.Abs() == EMPTY
  {
    hide IsTree, View, PathOf, PlacesOf, Recognised, StoredPool, Content, CopiedUpTo, PoolMemory, Leading, Attempts;
    fish.FishInit();
    if !disk.present { return false; }
    ghost var was := disk.sectors;
    var r := FishLoad(fish, disk);
    restored := r == FISH_OK;
  }

  /** Saving, and booting from the disk afterwards, restores the user name, the host name, the tree and
      the current directory, whatever the names are, provided that the names could be stored and the
      disk works. Everything but the disk is made anew. */
  method SaveAndReboot(user: UserConfig, fish: FishFs, disk: AtaDisk)
      returns (stored: bool, r: int, user': UserConfig, fish': FishFs, restored: bool)
    requires user.Valid() && fish.Valid() && disk.Valid()
    requires disk.present && disk.Works(2 * (1 + NODE_SECTORS))
    modifies fish`current, fish.nodes, disk`transfers, disk`sectors
    ensures fish.Valid() && fish.Abs().cwd == old(fish.Abs()).cwd
    ensures fish.Abs() == if stored then WithConfig(old(fish.Abs()), user.Name(), user.Host()) else old(fish.Abs())
    ensures stored <==> CanSave(old(fish.Abs()).tree)
    ensures r == FISH_OK && restored && user'.Valid() && fish'.Valid() && fresh(user') && fresh(fish')
    ensures fish'.Abs() == fish.Abs() && fish'.current == fish.current && fish'.nodes[..] == fish.nodes[..]
    ensures user.Name() == old(user.Name()) && user.Host() == old(user.Host())
    ensures stored ==> user'.Name() == user.Name() && user'.Host() == user.Host()
  {
    hide View, PathOf, IsTree, Field, Line, After, TextOf, Acceptable, CanSave, HoldsImage, Archived, StoredPool;
    hide SavedCurrent, Recognised, OnlyWithin, Content;
    assert disk.Works(1 + NODE_SECTORS);
    stored, r := CmdSave(user, fish, disk);
    assert disk.Works(1 + NODE_SECTORS);
    ghost var name, host := user.Name(), user.Host();
    ghost var ns := fish.nodes[..];
    assert Completed(disk.sectors, ns, fish.current);
    CompletedArchived(disk.sectors, ns, fish.current);
    user', fish', restored := Boot(disk);
    assert fish.nodes[..] == ns;
    if stored { ConfigRoundTrip(name, host, DEFAULT_NAME, DEFAULT_HOST); }
  }
}
