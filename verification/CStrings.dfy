/** NUL-terminated strings and the string routines of lib/string.c that Fish calls. */
module CStrings {
  import opened Bytes

  /** A string without its terminator. */
  type Text = s: seq<Byte> | 0 !in s

  const SPACE: Byte := 32
  const DOT: Byte := 46
  const SLASH: Byte := 47

  ghost predicate Terminated(buffer: seq<Byte>) { 0 in buffer }

  /** What a buffer spells: the bytes in front of its first NUL. */
  function TextOf(buffer: seq<Byte>): (s: Text)
    ensures |s| <= |buffer| && s == buffer[..|s|]
    ensures Terminated(buffer) ==> |s| < |buffer| && buffer[|s|] == 0
  {
    if buffer == [] || buffer[0] == 0 then [] else [buffer[0]] + TextOf(buffer[1..])
  }

  /** Whatever follows the first NUL is invisible. */
  lemma {:induction false} TextOfTerminated(s: Text, rest: seq<Byte>)
    ensures TextOf(s + [0] + rest) == s
  {
    var buffer := s + [0] + rest;
    if s != [] {
      TextOfTerminated(s[1..], rest);
      assert buffer[1..] == s[1..] + [0] + rest;
    }
  }

  /** A buffer spells the text in front of its first NUL. */
  lemma Spells(buffer: seq<Byte>, s: Text)
    requires |s| < |buffer| && buffer[..|s|] == s && buffer[|s|] == 0
    ensures Terminated(buffer) && TextOf(buffer) == s
  {
  }

  /** `strcpy` into the front of a buffer: the text, a NUL, and the old bytes behind them. */
  function Strcpy(dest: seq<Byte>, src: Text): (r: seq<Byte>)
    requires |src| < |dest|
    ensures |r| == |dest| && Terminated(r) && TextOf(r) == src
  {
    TextOfTerminated(src, dest[|src| + 1..]);
    src + [0] + dest[|src| + 1..]
  }

  /** The byte at `k`, reading the terminator behind the end. */
  function ByteAt(s: Text, k: nat): Byte {
    if k < |s| then s[k] else 0
  }

  /** The difference of the first bytes that differ, and zero exactly for equal strings. */
  method Strcmp(a: seq<Byte>, b: seq<Byte>) returns (r: int)
    requires Terminated(a) && Terminated(b)
    ensures r == 0 <==> TextOf(a) == TextOf(b)
    ensures exists k: nat :: k <= |TextOf(a)| && k <= |TextOf(b)| && TextOf(a)[..k] == TextOf(b)[..k]
                          && r == ByteAt(TextOf(a), k) as int - ByteAt(TextOf(b), k) as int
  {
    ghost var s, t := TextOf(a), TextOf(b);
    var k := 0;
    while a[k] != 0 && a[k] == b[k]
      invariant k <= |s| && k <= |t| && s[..k] == t[..k]
      decreases |s| - k
    {
      assert k < |s|;
      assert b[|t|] == 0;
      assert s[..k + 1] == s[..k] + [a[k]] && t[..k + 1] == t[..k] + [b[k]];
      k := k + 1;
    }
    assert a[k] == ByteAt(s, k) && b[k] == ByteAt(t, k);
    r := a[k] as int - b[k] as int;
  }
}
