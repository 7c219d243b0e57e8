/** lib/string.c: printing numbers. */
module Numbers {
  import opened Bytes
  import opened CStrings

  const MINUS: Byte := 45

  function DigitChar(d: nat): (c: Byte)
    requires d < 16
    ensures DigitValue(c) == d && c != 0 && c != MINUS
  {
    if d < 10 then 48 + d else 87 + d
  }

  lemma DigitChars(d: nat)
    requires d < 16
    ensures DigitChar(d) as int == "0123456789abcdef"[d] as int
  {
  }

  /** The digit a character stands for. */
  function DigitValue(c: Byte): nat {
    if 48 <= c <= 57 then c - 48 else if 97 <= c <= 102 then c - 87 else 0
  }

  /** Reading a text as a number, most significant digit first. */
  ghost function Value(s: seq<Byte>, base: nat): nat {
    if s == [] then 0 else Value(s[..|s| - 1], base) * base + DigitValue(s[|s| - 1])
  }

  function Quotient(v: nat, base: nat): (q: nat)
    requires base >= 2
    ensures v > 0 ==> q < v
  {
    var q := v / base;
    assert v == q * base + v % base;
    MulMonotone(q, 2, base);
    q
  }

  function Remainder(v: nat, base: nat): (d: nat)
    requires base >= 2
    ensures d < base && v == Quotient(v, base) * base + d
  {
    v % base
  }

  /** The digits as the loop produces them, ones first. */
  function Digits(value: nat, base: nat): (s: seq<Byte>)
    requires 2 <= base <= 16
  {
    if value == 0 then [] else [DigitChar(Remainder(value, base))] + Digits(Quotient(value, base), base)
  }

  ghost function Reversed(s: seq<Byte>): (r: seq<Byte>)
    ensures |r| == |s| && forall k | 0 <= k < |s| :: r[k] == s[|s| - 1 - k]
  {
    if s == [] then [] else Reversed(s[1..]) + [s[0]]
  }

  /** What `utoa` writes. */
  ghost function Printed(value: nat, base: int): seq<Byte> {
    if base < 2 || base > 16 then []
    else if value == 0 then [48]
    else Reversed(Digits(value, base))
  }

  // ---------------------------------------------------------------------------
  // Reading back
  // ---------------------------------------------------------------------------

  lemma {:induction false} DigitsReadBack(value: nat, base: nat)
    requires 2 <= base <= 16
    ensures Value(Reversed(Digits(value, base)), base) == value
  {
    hide Quotient, Remainder, DigitChar, DigitValue;
    if value > 0 {
      var q, d := Quotient(value, base), Remainder(value, base);
      DigitsReadBack(q, base);
      var ds, rest := Digits(value, base), Digits(q, base);
      assert ds[1..] == rest && ds[0] == DigitChar(d);
      AppendDigit(Reversed(rest), DigitChar(d), base);
    }
  }

  lemma AppendDigit(s: seq<Byte>, c: Byte, base: nat)
    ensures Value(s + [c], base) == Value(s, base) * base + DigitValue(c)
  {
  }

  /** The last digit produced is not a zero, and all are digits. */
  lemma {:induction false} DigitsProper(value: nat, base: nat)
    requires 2 <= base <= 16
    ensures forall k | 0 <= k < |Digits(value, base)| :: Digits(value, base)[k] != 0 && Digits(value, base)[k] != MINUS
    ensures value > 0 ==> Digits(value, base) != [] && DigitValue(Digits(value, base)[|Digits(value, base)| - 1]) > 0
  {
    hide Quotient, Remainder, DigitChar, DigitValue;
    if value > 0 {
      var q, d := Quotient(value, base), Remainder(value, base);
      DigitsProper(q, base);
      var ds, rest := Digits(value, base), Digits(q, base);
      assert ds == [DigitChar(d)] + rest;
      if q == 0 {
        assert rest == [] && d == value;
      }
    }
  }

  ghost function Power(base: nat, n: nat): nat {
    if n == 0 then 1 else base * Power(base, n - 1)
  }

  lemma {:induction false} DigitsLength(value: nat, base: nat, small: nat, n: nat)
    requires 2 <= small <= base <= 16 && value < Power(small, n)
    ensures |Digits(value, base)| <= n
    decreases n
  {
    if value > 0 {
      var m := Power(small, n - 1);
      SmallerQuotient(value, small, base, m);
      hide Quotient, Remainder, Power, DigitChar;
      DigitsLength(Quotient(value, base), base, small, n - 1);
    }
  }

  lemma SmallerQuotient(v: nat, small: nat, base: nat, m: nat)
    requires 2 <= small <= base && v < small * m
    ensures Quotient(v, base) < m
  {
  }

  lemma Powers()
    ensures Power(2, 32) == WORD
    ensures Power(10, 10) == 10_000_000_000
  {
    assert Power(2, 4) == 16;
    assert Power(2, 8) == 256;
    assert Power(2, 12) == 4096;
    assert Power(2, 16) == 65536;
    assert Power(2, 20) == 1048576;
    assert Power(2, 24) == 16777216;
    assert Power(2, 28) == 268435456;
    assert Power(10, 4) == 10000;
    assert Power(10, 8) == 100000000;
  }

  /** For every 32-bit value and every base from 2 to 16 the text that `utoa` writes reads back as the
      value, has no leading zero, and is at most 32 digits long, at most 10 in base 10. */
  lemma PrintedReadsBack(value: nat, base: int)
    requires value < WORD && 2 <= base <= 16
    ensures var text := Printed(value, base);
            && Value(text, base) == value
            && text != [] && (DigitValue(text[0]) == 0 ==> value == 0 && |text| == 1)
            && |text| <= 32 && (base == 10 ==> |text| <= 10)
            && 0 !in text && MINUS !in text
  {
    Powers();
    if value == 0 {
      AppendDigit([], 48, base);
      assert [48] == [] + [48];
    } else {
      DigitsReadBack(value, base);
      DigitsProper(value, base);
      DigitsLength(value, base, 2, 32);
      if base == 10 { DigitsLength(value, 10, 10, 10); }
      hide Power, Digits, Value, DigitValue;
      ReversedProper(Digits(value, base));
    }
  }

  lemma ReversedProper(s: seq<Byte>)
    requires forall k | 0 <= k < |s| :: s[k] != 0 && s[k] != MINUS
    ensures 0 !in Reversed(s) && MINUS !in Reversed(s)
  {
  }

  // ---------------------------------------------------------------------------
  // The routines
  // ---------------------------------------------------------------------------

  /** `utoa` into the buffer from index `at` on, which is where `itoa` leaves room for a sign. */
  method Utoa(value: nat, buffer: array<Byte>, at: nat, base: int)
    requires value < WORD && at + |Printed(value, base)| < buffer.Length
    modifies buffer
    ensures buffer[..at] == old(buffer[..at])
    ensures Terminated(buffer[at..]) && TextOf(buffer[at..]) == Printed(value, base)
    ensures base < 2 || base > 16 ==> buffer[at] == 0
  {
    if base < 2 || base > 16 {
      buffer[at] := 0;
      Spells(buffer[at..], []);
      return;
    }
    if value == 0 {
      buffer[at] := 48;
      buffer[at + 1] := 0;
      Spells(buffer[at..], [48]);
      return;
    }
    DigitsProper(value, base);
    hide Digits, DigitValue, TextOf;
    var length := WriteDigits(value, buffer, at, base);
    Finish(buffer, at, length, Digits(value, base));
  }

  /** The digit loop of `utoa`. */
  method WriteDigits(value: nat, buffer: array<Byte>, at: nat, base: nat) returns (length: nat)
    requires 2 <= base <= 16 && at + |Digits(value, base)| < buffer.Length
    modifies buffer
    ensures length == |Digits(value, base)| && buffer[at..at + length] == Digits(value, base)
    ensures buffer[..at] == old(buffer[..at])
  {
    hide Quotient, Remainder, DigitChar, DigitValue;
    ghost var digits := Digits(value, base);
    var v := value;
    length := 0;
    while v > 0
      invariant length <= |digits| && digits[length..] == Digits(v, base)
      invariant buffer[..at] == old(buffer[..at]) && buffer[at..at + length] == digits[..length]
      decreases v
    {
      assert digits[length..][0] == DigitChar(Remainder(v, base)) && digits[length..][1..] == digits[length + 1..];
      buffer[at + length] := DigitChar(Remainder(v, base));
      length := length + 1;
      v := Quotient(v, base);
    }
  }

  /** The end of `utoa`: terminate, then reverse. */
  method Finish(buffer: array<Byte>, at: nat, length: nat, ghost digits: seq<Byte>)
    requires at + length < buffer.Length && length == |digits| && buffer[at..at + length] == digits
    requires forall k | 0 <= k < |digits| :: digits[k] != 0
    modifies buffer
    ensures buffer[..at] == old(buffer[..at])
    ensures Terminated(buffer[at..]) && TextOf(buffer[at..]) == Reversed(digits)
  {
    buffer[at + length] := 0;
    assert buffer[at..at + length] == digits;
    Reverse(buffer, at, length);
    var tail := buffer[at..];
    assert tail[..length] == Reversed(digits) && tail[length] == 0;
    Spells(tail, Reversed(digits));
  }

  /** The swapping loop at the end of `utoa`. */
  method Reverse(buffer: array<Byte>, at: nat, length: nat)
    requires at + length <= buffer.Length
    modifies buffer
    ensures buffer[at..at + length] == Reversed(old(buffer[at..at + length]))
    ensures forall k | 0 <= k < buffer.Length && !(at <= k < at + length) :: buffer[k] == old(buffer[k])
  {
    hide Reversed, Swapped;
    ghost var was := buffer[at..at + length];
    SwapNone(was);
    var i := 0;
    while i < length / 2
      invariant 0 <= i <= length / 2
      invariant buffer[at..at + length] == Swapped(was, i)
      invariant forall k | 0 <= k < buffer.Length && !(at <= k < at + length) :: buffer[k] == old(buffer[k])
    {
      ghost var cur := buffer[at..at + length];
      var j := length - 1 - i;
      var tmp := buffer[at + i];
      buffer[at + i] := buffer[at + j];
      buffer[at + j] := tmp;
      assert buffer[at..at + length] == cur[i := cur[j]][j := cur[i]];
      SwapStep(was, i);
      i := i + 1;
    }
    SwapAll(was, i);
  }

  /** The text with its first and last `i` characters exchanged, mirror-wise. */
  ghost function Swapped(s: seq<Byte>, i: nat): (r: seq<Byte>)
    ensures |r| == |s|
  {
    seq(|s|, k requires 0 <= k < |s| => if k < i || k >= |s| - i then s[|s| - 1 - k] else s[k])
  }

  lemma SwapNone(s: seq<Byte>)
    ensures Swapped(s, 0) == s
  {
  }

  lemma SwapStep(s: seq<Byte>, i: nat)
    requires 2 * (i + 1) <= |s|
    ensures var cur, j := Swapped(s, i), |s| - 1 - i;
            Swapped(s, i + 1) == cur[i := cur[j]][j := cur[i]]
  {
  }

  lemma SwapAll(s: seq<Byte>, i: nat)
    requires i == |s| / 2
    ensures Swapped(s, i) == Reversed(s)
  {
    hide Reversed;
    assert |s| - 1 <= 2 * i <= |s|;
    var a, b := Swapped(s, i), Reversed(s);
    forall k | 0 <= k < |s| ensures a[k] == b[k] {
      assert a[k] == s[|s| - 1 - k];
    }
  }

  /** Reading a text with an optional minus sign. */
  ghost function SignedValue(s: seq<Byte>, base: nat): int {
    if s != [] && s[0] == MINUS then -(Value(s[1..], base) as int) else Value(s, base)
  }

  /** What `itoa` hands to `utoa`: the magnitude of a negative number in base 10, the bit pattern of any
      other. */
  function Magnitude(value: int, base: int): nat
    requires -0x8000_0000 <= value < 0x8000_0000
  {
    if value >= 0 then value else if base == 10 then -value else value + WORD
  }

  /** What `itoa` writes. */
  ghost function SignedText(value: int, base: int): seq<Byte>
    requires -0x8000_0000 <= value < 0x8000_0000
  {
    (if base == 10 && value < 0 then [MINUS] else []) + Printed(Magnitude(value, base), base)
  }

  /** In base 10 the text reads back as the value and has at most 11 characters. */
  lemma SignedReadsBack(value: int)
    requires -0x8000_0000 <= value < 0x8000_0000
    ensures SignedValue(SignedText(value, 10), 10) == value && |SignedText(value, 10)| <= 11
    ensures value < 0 ==> SignedText(value, 10)[..1] == [45] && Value(SignedText(value, 10)[1..], 10) == -value
  {
    hide Printed, Value, DigitValue, SignedValue;
    PrintedReadsBack(Magnitude(value, 10), 10);
    WithSign(Printed(Magnitude(value, 10), 10), 10);
  }

  lemma WithSign(text: seq<Byte>, base: nat)
    requires text != [] && MINUS !in text
    ensures [] + text == text && SignedValue(text, base) == Value(text, base)
    ensures SignedValue([MINUS] + text, base) == -(Value(text, base) as int)
  {
    hide Value;
    assert ([MINUS] + text)[1..] == text && text[0] in text;
  }

  /** In any other base it reads back as the bit pattern of the value. */
  lemma PatternReadsBack(value: int, base: int)
    requires -0x8000_0000 <= value < 0x8000_0000 && 2 <= base <= 16 && base != 10
    ensures Value(SignedText(value, base), base) == value % WORD && |SignedText(value, base)| <= 32
  {
    PrintedReadsBack(Magnitude(value, base), base);
    hide Printed, Value;
    assert Magnitude(value, base) == value % WORD;
    assert [] + Printed(Magnitude(value, base), base) == Printed(Magnitude(value, base), base);
  }

  /** Writes that text and a terminator into any buffer with room for them. Negating -2^31 for base 10
      overflows the 32-bit `long` of the target, so that one call is excluded. */
  method Itoa(value: int, buffer: array<Byte>, base: int)
    requires -0x8000_0000 <= value < 0x8000_0000 && (base == 10 ==> value > -0x8000_0000)
    requires |SignedText(value, base)| < buffer.Length
    modifies buffer
    ensures Terminated(buffer[..]) && TextOf(buffer[..]) == SignedText(value, base)
  {
    hide Printed, TextOf;
    if base == 10 && value < 0 {
      buffer[0] := MINUS;
      Utoa(-value, buffer, 1, base);
      assert buffer[..1][0] == MINUS;
      Signed(buffer[..], Printed(-value, 10));
      return;
    }
    Utoa(Magnitude(value, base), buffer, 0, base);
    assert buffer[0..] == buffer[..];
    assert [] + Printed(Magnitude(value, base), base) == Printed(Magnitude(value, base), base);
  }

  lemma Signed(buffer: seq<Byte>, text: seq<Byte>)
    requires buffer != [] && buffer[0] == MINUS && Terminated(buffer[1..]) && TextOf(buffer[1..]) == text
    ensures Terminated(buffer) && TextOf(buffer) == [MINUS] + text
  {
  }
}
