/** A terminal that never scrolls: characters go onto a tape of rows of 80 cells that grows by a row
    whenever the cursor runs off its end. */
module Terminal {
  import opened Bytes

  const WIDTH := 80
  const HEIGHT := 25
  const SCREEN := WIDTH * HEIGHT

  const BACKSPACE: Byte := 8
  const TAB: Byte := 9
  const LINEFEED: Byte := 10
  const RETURN: Byte := 13
  const BLANK: Byte := 32

  /** The 16-bit word of a cell, with the character in its low byte. */
  type Cell = x: int | 0 <= x < 65536

  function Entry(c: Byte, color: Byte): (cell: Cell)
    ensures cell % 256 == c && cell / 256 == color
  {
    var ch: int, attr: int := c, color;
    ch + 256 * attr
  }

  function Blanks(n: nat, color: Byte): (s: seq<Cell>)
    ensures |s| == n && forall k | 0 <= k < n :: s[k] == Entry(BLANK, color)
  {
    seq(n, _ => Entry(BLANK, color))
  }

  datatype Tape = Tape(cells: seq<Cell>, pos: nat) {
    /** Where the visible last 25 rows begin. */
    function Top(): int { |cells| - SCREEN }

    ghost predicate Valid() {
      |cells| >= SCREEN && |cells| % WIDTH == 0 && Top() <= pos < |cells|
    }
  }

  /** Behind the last cell a new blank row begins. */
  function Grow(t: Tape, color: Byte): Tape {
    if t.pos == |t.cells| then t.(cells := t.cells + Blanks(WIDTH, color)) else t
  }

  function Fill(cells: seq<Cell>, from: nat, to: nat, color: Byte): (r: seq<Cell>)
    requires from <= to <= |cells|
    ensures |r| == |cells|
  {
    cells[..from] + Blanks(to - from, color) + cells[to..]
  }

  function RowStart(pos: nat): nat { pos - pos % WIDTH }
  function NextRowStart(pos: nat): nat { (pos / WIDTH + 1) * WIDTH }
  function NextTabStop(pos: nat): nat { (pos / 8 + 1) * 8 }

  /** The next row and the next tab stop are on the tape or right behind it. */
  lemma StopsWithin(pos: nat, n: nat)
    requires n % WIDTH == 0 && pos < n
    ensures pos < NextRowStart(pos) <= n && NextRowStart(pos) % WIDTH == 0
    ensures pos < NextTabStop(pos) <= n
  {
    var q := n / WIDTH;
    assert n == WIDTH * q;
    assert pos == WIDTH * (pos / WIDTH) + pos % WIDTH && pos / WIDTH < q;
    assert pos == 8 * (pos / 8) + pos % 8 && pos / 8 < 10 * q;
  }

  lemma RowStartWithin(pos: nat, top: nat)
    requires top % WIDTH == 0 && top <= pos
    ensures top <= RowStart(pos) <= pos
  {
  }

  /** One character. Backspace stops at the top left corner of the visible part. */
  function Put(t: Tape, c: Byte, color: Byte): (r: Tape)
    requires t.Valid()
    ensures r.Valid()
  {
    StopsWithin(t.pos, |t.cells|);
    RowStartWithin(t.pos, t.Top());
    if c == LINEFEED then Grow(t.(pos := NextRowStart(t.pos)), color)
    else if c == RETURN then t.(pos := RowStart(t.pos))
    else if c == BACKSPACE then
      if t.pos == t.Top() then t else Tape(t.cells[t.pos - 1 := Entry(BLANK, color)], t.pos - 1)
    else if c == TAB then
      var stop := NextTabStop(t.pos);
      Grow(Tape(Fill(t.cells, t.pos, stop, color), stop), color)
    else Grow(Tape(t.cells[t.pos := Entry(c, color)], t.pos + 1), color)
  }

  function PutAll(t: Tape, s: seq<Byte>, color: Byte): (r: Tape)
    requires t.Valid()
    ensures r.Valid()
    decreases |s|
  {
    if s == [] then t else PutAll(Put(t, s[0], color), s[1..], color)
  }

  /** Whether a character is printed as such. */
  predicate Visible(c: Byte) { c !in {8, 9, 10, 13} }

  /** A character and a backspace: the cursor is back where it was, the cell under it is blank, and no other
      cell has changed. */
  lemma BackspaceErases(t: Tape, c: Byte, color: Byte)
    requires t.Valid() && Visible(c)
    ensures var u := Put(Put(t, c, color), 8, color);
            && u.pos == t.pos && |u.cells| >= |t.cells|
            && u.cells[t.pos] == Entry(32, color)
            && forall k | 0 <= k < |t.cells| && k != t.pos :: u.cells[k] == t.cells[k]
  {
  }

  /** A tab: blanks from the cursor up to the next column that is a multiple of 8, and nothing else. */
  lemma TabBlanks(t: Tape, color: Byte)
    requires t.Valid()
    ensures var u := Put(t, 9, color);
            && u.pos % 8 == 0 && t.pos < u.pos <= t.pos + 8
            && (forall k | t.pos <= k < u.pos :: k < |u.cells| && u.cells[k] == Entry(32, color))
            && (forall k | 0 <= k < |t.cells| && !(t.pos <= k < u.pos) :: k < |u.cells| && u.cells[k] == t.cells[k])
  {
    StopsWithin(t.pos, |t.cells|);
  }

  /** A line feed goes to the start of the next row, a carriage return to the start of this one. Neither
      changes a cell, and a row that is new is blank. */
  lemma RowsStart(t: Tape, color: Byte)
    requires t.Valid()
    ensures var u := Put(t, 10, color);
            && u.pos % 80 == 0 && t.pos < u.pos <= t.pos + 80
            && |u.cells| >= |t.cells| && u.cells[..|t.cells|] == t.cells
            && forall k | |t.cells| <= k < |u.cells| :: u.cells[k] == Entry(32, color)
    ensures var u := Put(t, 13, color);
            u.cells == t.cells && u.pos % 80 == 0 && u.pos <= t.pos < u.pos + 80
  {
    StopsWithin(t.pos, |t.cells|);
  }

  /** Printed text stands on the tape as it is, across row ends and scrolling, and the cursor behind it. */
  lemma {:induction false} TextStands(t: Tape, s: seq<Byte>, color: Byte)
    requires t.Valid() && forall k | 0 <= k < |s| :: Visible(s[k])
    ensures var u := PutAll(t, s, color);
            && u.pos == t.pos + |s| && |u.cells| >= |t.cells| && |u.cells| > u.pos
            && u.cells[..t.pos] == t.cells[..t.pos]
            && forall k | 0 <= k < |s| :: u.cells[t.pos + k] == Entry(s[k], color)
    decreases |s|
  {
    if s != [] {
      var u := Put(t, s[0], color);
      assert u.pos == t.pos + 1 && u.cells[..t.pos] == t.cells[..t.pos] && u.cells[t.pos] == Entry(s[0], color);
      hide Put, Entry;
      TextStands(u, s[1..], color);
      var v := PutAll(u, s[1..], color);
      assert v.cells[..t.pos] == v.cells[..u.pos][..t.pos] == u.cells[..u.pos][..t.pos];
      assert v.cells[t.pos] == v.cells[..u.pos][t.pos];
      forall k | 0 <= k < |s| ensures v.cells[t.pos + k] == Entry(s[k], color) {
        if k > 0 { assert s[k] == s[1..][k - 1] && v.cells[u.pos + (k - 1)] == Entry(s[1..][k - 1], color); }
      }
    }
  }

  /** What has scrolled off the screen is never changed again. */
  lemma {:induction false} ScrolledOffStays(t: Tape, s: seq<Byte>, color: Byte)
    requires t.Valid()
    ensures t.Top() <= PutAll(t, s, color).Top()
    ensures PutAll(t, s, color).cells[..t.Top()] == t.cells[..t.Top()]
    decreases |s|
  {
    if s != [] {
      var u := Put(t, s[0], color);
      assert u.cells[..t.Top()] == t.cells[..t.Top()];
      ScrolledOffStays(u, s[1..], color);
      var v := PutAll(u, s[1..], color);
      assert v.cells[..t.Top()] == v.cells[..u.Top()][..t.Top()] == u.cells[..u.Top()][..t.Top()];
    }
  }

  lemma {:induction false} PutAllAppend(t: Tape, s: seq<Byte>, c: Byte, color: Byte)
    requires t.Valid()
    ensures PutAll(t, s + [c], color) == Put(PutAll(t, s, color), c, color)
    decreases |s|
  {
    if s == [] {
      assert (s + [c])[1..] == [];
    } else {
      assert (s + [c])[1..] == s[1..] + [c];
      PutAllAppend(Put(t, s[0], color), s[1..], c, color);
    }
  }
}
