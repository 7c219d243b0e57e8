/** drivers/vga.c: the 80 by 25 screen, scrolled in place. */
module Vga {
  import opened Bytes
  import opened CStrings
  import opened Terminal

  class VgaScreen {
    const memory: array<Cell>
    var row: nat
    var col: nat
    var color: Byte
    /** Everything that was ever printed. */
    ghost var tape: Tape

    /** The screen shows the last 25 rows of `t`, with the cursor `down` rows and `right` columns in. */
    ghost predicate Shows(t: Tape, down: nat, right: nat)
      reads memory
    {
      && memory.Length == SCREEN && |t.cells| >= SCREEN && |t.cells| % WIDTH == 0
      && memory[..] == t.cells[t.Top()..]
      && t.pos == t.Top() + down * WIDTH + right
    }

    ghost predicate Valid()
      reads this, memory
    {
      row < HEIGHT && col < WIDTH && tape.Valid() && Shows(tape, row, col)
    }

    /** What is on the screen: the last 2000 cells of the tape, and the cursor in its place. */
    lemma OnScreen()
      requires Valid()
      ensures |tape.cells| >= 2000 && memory.Length == 2000
      ensures forall k | 0 <= k < 2000 :: memory[k] == tape.cells[|tape.cells| - 2000 + k]
      ensures tape.pos == |tape.cells| - 2000 + 80 * row + col && row < 25 && col < 80
    {
      forall k | 0 <= k < 2000 ensures memory[k] == tape.cells[|tape.cells| - 2000 + k] {
        assert memory[k] == memory[..][k];
      }
    }

    /** `vga_init`: light grey on black, a blank screen. */
    constructor ()
      ensures Valid() && color == 7 && row == 0 && col == 0 && fresh(memory)
    {
      memory := new Cell[SCREEN](_ => Entry(BLANK, 7));
      row, col, color := 0, 0, 7;
      tape := Tape(Blanks(SCREEN, 7), 0);
      new;
      assert memory[..] == tape.cells;
    }

    method VgaSetColor(fg: nat, bg: nat)
      requires Valid() && fg < 16 && bg < 16
      modifies `color
      ensures Valid() && color == fg + 16 * bg
    {
      color := fg + 16 * bg;
    }

    /** Blanks the screen: on the tape, 25 blank rows follow what was printed so far. */
    method VgaClear()
      requires Valid()
      modifies memory, `row, `col, `tape
      ensures Valid() && row == 0 && col == 0
      ensures tape == Tape(old(tape).cells + Blanks(SCREEN, color), |old(tape).cells|)
    {
      var y := 0;
      while y < HEIGHT
        invariant 0 <= y <= HEIGHT
        invariant tape == old(tape) && forall k | 0 <= k < y * WIDTH :: memory[k] == Entry(BLANK, color)
      {
        var x := 0;
        while x < WIDTH
          invariant 0 <= x <= WIDTH
          invariant tape == old(tape) && forall k | 0 <= k < y * WIDTH + x :: memory[k] == Entry(BLANK, color)
        {
          memory[y * WIDTH + x] := Entry(BLANK, color);
          x := x + 1;
        }
        y := y + 1;
      }
      row, col := 0, 0;
      tape := Tape(tape.cells + Blanks(SCREEN, color), |tape.cells|);
      assert memory[..] == Blanks(SCREEN, color);
    }

    /** The memory loses its first row and gains a blank last one, in place. */
    method Scroll()
      requires memory.Length == SCREEN
      modifies memory, `row
      ensures memory[..] == old(memory[WIDTH..]) + Blanks(WIDTH, color) && row == HEIGHT - 1
    {
      var y := 1;
      while y < HEIGHT
        invariant 1 <= y <= HEIGHT
        invariant forall k | 0 <= k < (y - 1) * WIDTH :: memory[k] == old(memory[k + WIDTH])
        invariant forall k | (y - 1) * WIDTH <= k < SCREEN :: memory[k] == old(memory[k])
      {
        var x := 0;
        while x < WIDTH
          invariant 0 <= x <= WIDTH
          invariant forall k | 0 <= k < (y - 1) * WIDTH + x :: memory[k] == old(memory[k + WIDTH])
          invariant forall k | (y - 1) * WIDTH + x <= k < SCREEN :: memory[k] == old(memory[k])
        {
          memory[(y - 1) * WIDTH + x] := memory[y * WIDTH + x];
          x := x + 1;
        }
        y := y + 1;
      }
      BlankBottom();
      row := HEIGHT - 1;
    }

    method BlankBottom()
      requires memory.Length == SCREEN
      modifies memory
      ensures memory[..] == old(memory[..SCREEN - WIDTH]) + Blanks(WIDTH, color)
    {
      var x := 0;
      while x < WIDTH
        invariant 0 <= x <= WIDTH
        invariant forall k | 0 <= k < SCREEN - WIDTH :: memory[k] == old(memory[k])
        invariant forall k | SCREEN - WIDTH <= k < SCREEN - WIDTH + x :: memory[k] == Entry(BLANK, color)
      {
        memory[(HEIGHT - 1) * WIDTH + x] := Entry(BLANK, color);
        x := x + 1;
      }
    }

    /** On to the start of the next row; a row behind the last one is made by scrolling. */
    method NextRow(ghost t: Tape)
      requires row < HEIGHT && Shows(t, row + 1, 0)
      modifies memory, `row, `col
      ensures row < HEIGHT && col == 0 && Shows(Grow(t, color), row, 0)
    {
      col := 0;
      row := row + 1;
      if row == HEIGHT { Scroll(); }
    }

    /** On the tape the cell before the cursor becomes blank; in the top left corner nothing happens. */
    method Backspace()
      requires Valid()
      modifies memory, `row, `col, `tape
      ensures Valid() && tape == Put(old(tape), BACKSPACE, color)
    {
      if col > 0 {
        col := col - 1;
      } else if row > 0 {
        row := row - 1;
        col := WIDTH - 1;
      } else {
        return;
      }
      memory[row * WIDTH + col] := Entry(BLANK, color);
      tape := Put(tape, BACKSPACE, color);
    }

    /** Every cell from the cursor to the tab stop becomes blank, also when that is the end of the row. */
    method Tab()
      requires Valid()
      modifies memory, `row, `col, `tape
      ensures Valid() && tape == Put(old(tape), TAB, color)
    {
      hide Fill, NextTabStop, ColumnStop;
      ghost var was := tape;
      var target := ColumnStop(col);
      TabStop(was, memory[..], row, col, color);
      BlankTo(target);
      ghost var t := Tape(Fill(was.cells, was.pos, NextTabStop(was.pos), color), NextTabStop(was.pos));
      if col >= WIDTH {
        NextRow(t);
      }
      tape := Put(was, TAB, color);
    }

    /** The loop of `tab`. */
    method BlankTo(target: nat)
      requires memory.Length == SCREEN && row < HEIGHT && col <= target <= WIDTH
      modifies memory, `col
      ensures col == target
      ensures memory[..] == Fill(old(memory[..]), row * WIDTH + old(col), row * WIDTH + target, color)
    {
      while col < target && col < WIDTH
        invariant old(col) <= col <= target
        invariant forall k | row * WIDTH + old(col) <= k < row * WIDTH + col :: memory[k] == Entry(BLANK, color)
        invariant forall k | 0 <= k < SCREEN && !(row * WIDTH + old(col) <= k < row * WIDTH + col) ::
                    memory[k] == old(memory[k])
      {
        memory[row * WIDTH + col] := Entry(BLANK, color);
        col := col + 1;
      }
    }

    method VgaPutchar(c: Byte)
      requires Valid()
      modifies memory, `row, `col, `tape
      ensures Valid() && tape == Put(old(tape), c, color)
    {
      ghost var was := tape;
      if c == LINEFEED {
        NextRow(was.(pos := NextRowStart(was.pos)));
        tape := Put(was, c, color);
      } else if c == RETURN {
        col := 0;
        tape := Put(was, c, color);
      } else if c == BACKSPACE {
        Backspace();
      } else if c == TAB {
        Tab();
      } else {
        Print(c);
      }
    }

    /** The default branch of `vga_putchar`. */
    method Print(c: Byte)
      requires Valid() && c !in {LINEFEED, RETURN, BACKSPACE, TAB}
      modifies memory, `row, `col, `tape
      ensures Valid() && tape == Put(old(tape), c, color)
    {
      ghost var was := tape;
      memory[row * WIDTH + col] := Entry(c, color);
      col := col + 1;
      ghost var t := Tape(was.cells[was.pos := Entry(c, color)], was.pos + 1);
      if col == WIDTH {
        NextRow(t);
      }
      tape := Put(was, c, color);
    }

    /** For every string the screen shows the last 25 rows of the tape it is printed on. */
    method VgaWrite(s: Text)
      requires Valid()
      modifies memory, `row, `col, `tape
      ensures Valid() && tape == PutAll(old(tape), s, color)
    {
      var i := 0;
      while i < |s|
        invariant 0 <= i <= |s| && Valid()
        invariant tape == PutAll(old(tape), s[..i], color)
      {
        VgaPutchar(s[i]);
        PutAllAppend(old(tape), s[..i], s[i], color);
        assert s[..i + 1] == s[..i] + [s[i]];
        i := i + 1;
      }
      assert s[..i] == s;
    }
  }

  /** The tab stop behind a column. */
  function ColumnStop(col: nat): nat { (col + 8) / 8 * 8 }

  /** Columns and tape positions agree on where the next tab stop is and on what gets blanked. */
  lemma TabStop(t: Tape, screen: seq<Cell>, row: nat, col: nat, color: Byte)
    requires t.Valid() && screen == t.cells[t.Top()..] && row < HEIGHT && col < WIDTH
    requires t.pos == t.Top() + row * WIDTH + col
    ensures var target, stop := ColumnStop(col), NextTabStop(t.pos);
            && col < target <= WIDTH && stop == t.Top() + row * WIDTH + target && t.pos <= stop <= |t.cells|
            && Fill(t.cells, t.pos, stop, color)[t.Top()..]
               == Fill(screen, row * WIDTH + col, row * WIDTH + target, color)
  {
    var q := t.Top() / WIDTH + row;
    assert t.pos == 8 * (10 * q) + col;
    assert t.pos / 8 == 10 * q + col / 8;
    assert (col + 8) / 8 == col / 8 + 1;
  }
}
