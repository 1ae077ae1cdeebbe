/** The console driver: glyphs painted into a linear frame buffer, and the print loop
    whose tabs jump back into the middle of the loop. */
module ConsoleDriver {
  import opened MachineTypes
  import opened Arithmetic
  import opened ConsoleScreen
  import opened ConsolePixels
  import FormatScan
  import Formatter
  import FormatWriter

  const PRINTK_BUF: nat := 4096

  class Console {
    const xRes: nat
    const yRes: nat
    const font: Font
    const frame: array<Dword>
    var x: int
    var y: int

    /** The resolutions are whole cells, and the cursor is on a cell. */
    ghost predicate Valid()
      reads this
    {
      && xRes > 0 && yRes > 0 && xRes % GLYPH_WIDTH == 0 && yRes % GLYPH_HEIGHT == 0
      && frame.Length == xRes * yRes
      && 0 <= x < xRes && 0 <= y < yRes && x % GLYPH_WIDTH == 0 && y % GLYPH_HEIGHT == 0
    }

    ghost function Cols(): nat { xRes / GLYPH_WIDTH }

    ghost function Rows(): nat { yRes / GLYPH_HEIGHT }

    /** The frame and the cursor are those of a screen. */
    ghost predicate Depicts(base: seq<Dword>, s: Screen)
      reads this, frame
    {
      && Valid() && Good(s) && s.cols == Cols() && s.rows == Rows()
      && Shows(frame[..], base, Cols(), Rows(), s.cells, font)
      && CursorAt(s)
    }

    ghost predicate CursorAt(s: Screen)
      requires Good(s)
      reads this
    {
      x == s.cursor % s.cols * GLYPH_WIDTH && y == s.cursor / s.cols * GLYPH_HEIGHT
    }

    constructor (xRes: nat, yRes: nat, font: Font, frame: array<Dword>)
      requires xRes > 0 && yRes > 0 && xRes % GLYPH_WIDTH == 0 && yRes % GLYPH_HEIGHT == 0
      requires frame.Length == xRes * yRes
      ensures Valid() && this.xRes == xRes && this.yRes == yRes && this.font == font && this.frame == frame
      ensures x == 0 && y == 0 && Depicts(frame[..], Untouched(xRes / GLYPH_WIDTH, yRes / GLYPH_HEIGHT))
    {
      this.xRes, this.yRes, this.font, this.frame := xRes, yRes, font, frame;
      x, y := 0, 0;
      new;
      UntouchedShows(frame[..], Cols(), Rows(), font);
    }

    lemma Covers(r: nat, c: nat)
      requires Valid() && r < Rows() && c < Cols()
      ensures frame.Length == Cols() * GLYPH_WIDTH * (Rows() * GLYPH_HEIGHT)
      ensures Fits(frame[..], Cols(), r, c)
    {
      assert xRes == Cols() * GLYPH_WIDTH && yRes == Rows() * GLYPH_HEIGHT;
      forall i: nat, j: nat | i < GLYPH_HEIGHT && j < GLYPH_WIDTH
        ensures Pixel(Cols(), r, c, i, j) < frame.Length
      {
        PixelInside(Cols(), Rows(), r, c, i, j);
      }
    }

    /** put_color_char: the 128 pixels of the cell at the cursor; every one of them
        lies in the frame buffer. */
    method PutColorChar(fg: Dword, bg: Dword, c: char, ghost row: nat, ghost col: nat)
      requires Valid() && row < Rows() && col < Cols() && y == row * GLYPH_HEIGHT && x == col * GLYPH_WIDTH
      requires Fits(frame[..], Cols(), row, col)
      modifies frame
      ensures frame[..] == Painted(old(frame[..]), Cols(), row, col, Cell(c, fg, bg), font, GLYPH_WIDTH * GLYPH_HEIGHT)
      ensures fg != bg ==> forall i: nat :: i < 16 ==> ShowsRow(frame[..], (y + i) * xRes + x, fg, font(c, i))
    {
      hide Painted;
      hide Fits;
      hide Pixel;
      hide Lit;
      ghost var before, cell := frame[..], Cell(c, fg, bg);
      PaintedNone(before, Cols(), row, col, cell, font);
      for i := 0 to GLYPH_HEIGHT
        invariant frame[..] == Painted(before, Cols(), row, col, cell, font, i * GLYPH_WIDTH)
      {
        for j := 0 to GLYPH_WIDTH
          invariant frame[..] == Painted(before, Cols(), row, col, cell, font, i * GLYPH_WIDTH + j)
        {
          var yOffset := (y + i) * xRes * 4;
          var xOffset := (x + j) * 4;
          PixelOffset(row, col, i, j, yOffset + xOffset);
          PaintedNext(before, Cols(), row, col, cell, font, i, j);
          PixelFits(before, Cols(), row, col, i, j);
          frame[(yOffset + xOffset) / 4] := if Lit(font(c, i), j) then fg else bg;
        }
      }
      if fg != bg { GlyphShown(before, row, col, cell); }
    }

    /** The rows of the cell at the cursor read as the glyph's. */
    lemma GlyphShown(before: seq<Dword>, row: nat, col: nat, cell: Cell)
      requires Valid() && row < Rows() && col < Cols() && y == row * GLYPH_HEIGHT && x == col * GLYPH_WIDTH
      requires Fits(before, Cols(), row, col) && cell.fg != cell.bg
      requires frame[..] == Painted(before, Cols(), row, col, cell, font, 128)
      ensures forall i: nat :: i < 16 ==> ShowsRow(frame[..], (y + i) * xRes + x, cell.fg, font(cell.c, i))
    {
      hide Painted;
      hide Fits;
      hide ReadRow;
      forall i: nat | i < 16
        ensures ShowsRow(frame[..], (y + i) * xRes + x, cell.fg, font(cell.c, i))
      {
        RowOffset(row, col, i, (y + i) * xRes + x);
        GlyphRow(before, Cols(), row, col, cell, font, i, (y + i) * xRes + x);
      }
    }

    lemma RowOffset(row: nat, col: nat, i: nat, at: int)
      requires Valid() && y == row * GLYPH_HEIGHT && x == col * GLYPH_WIDTH && at == (y + i) * xRes + x
      ensures at == (row * 16 + i) * (Cols() * 8) + col * 8
    {
    }

    lemma PixelOffset(row: nat, col: nat, i: nat, j: nat, offset: int)
      requires Valid() && y == row * GLYPH_HEIGHT && x == col * GLYPH_WIDTH
      requires offset == (y + i) * xRes * 4 + (x + j) * 4
      ensures offset == Pixel(Cols(), row, col, i, j) * 4
    {
    }

    /** A character at the cursor, without moving it. */
    method Paint(fg: Dword, bg: Dword, c: char, ghost base: seq<Dword>, ghost s: Screen)
      requires Depicts(base, s)
      modifies frame
      ensures Depicts(base, s.(cells := s.cells[s.cursor := Some(Cell(c, fg, bg))]))
    {
      hide Painted;
      hide Fits;
      hide Pixel;
      hide Shows;
      ghost var row, col := s.cursor / s.cols, s.cursor % s.cols;
      RowBound(row, s.rows, s.cols, s.cursor);
      Covers(row, col);
      ghost var before := frame[..];
      assert row * s.cols + col == s.cursor;
      PutColorChar(fg, bg, c, row, col);
      PaintShows(before, base, s.cols, s.rows, s.cells, font, row, col, Cell(c, fg, bg));
    }

    // ---------- the cursor ----------

    ghost function BoundedX(): int
      reads this
    {
      if x >= xRes then 0 else x
    }

    ghost function BoundedY(): int
      reads this
    {
      var down := if x >= xRes then y + GLYPH_HEIGHT else y;
      if down >= yRes then 0 else down
    }

    /** Once the bounds are checked, the console depicts s. */
    ghost predicate Pending(base: seq<Dword>, s: Screen)
      reads this, frame
    {
      && Good(s) && s.cols == Cols() && s.rows == Rows() && Bounds()
      && Shows(frame[..], base, Cols(), Rows(), s.cells, font)
      && BoundedX() == s.cursor % s.cols * GLYPH_WIDTH && BoundedY() == s.cursor / s.cols * GLYPH_HEIGHT
    }

    ghost predicate Bounds() {
      xRes > 0 && yRes > 0 && xRes % GLYPH_WIDTH == 0 && yRes % GLYPH_HEIGHT == 0 && frame.Length == xRes * yRes
    }

    method CheckBounds(ghost base: seq<Dword>, ghost s: Screen)
      requires Pending(base, s)
      modifies this`x, this`y
      ensures Depicts(base, s)
    {
      hide Shows;
      RowBound(s.cursor / s.cols, s.rows, s.cols, s.cursor);
      if x >= xRes {
        y := y + GLYPH_HEIGHT;
        x := 0;
      }
      if y >= yRes { y := 0; }
    }

    method Newline(fg: Dword, bg: Dword, ghost base: seq<Dword>, ghost s: Screen)
      requires Depicts(base, s)
      modifies this`x, this`y
      ensures Pending(base, Step(s, '\n', fg, bg))
    {
      hide Shows;
      NewlineCursor(s, fg, bg);
      RowStart(s.cursor / s.cols + 1, s.cols);
      y := y + GLYPH_HEIGHT;
      x := 0;
    }

    method Backspace(fg: Dword, bg: Dword, ghost base: seq<Dword>, ghost s: Screen)
      requires Depicts(base, s)
      modifies this`x, this`y, frame
      ensures Pending(base, Step(s, BACKSPACE, fg, bg))
    {
      hide Shows;
      hide Blanks;
      ghost var t := From(s, (s.cursor + |s.cells| - 1) % |s.cells|);
      MoveBack(base, s);
      Paint(fg, bg, ' ', base, t);
    }

    /** The cursor goes one cell back, around the grid. */
    method MoveBack(ghost base: seq<Dword>, ghost s: Screen)
      requires Depicts(base, s)
      modifies this`x, this`y
      ensures Depicts(base, From(s, (s.cursor + |s.cells| - 1) % |s.cells|))
    {
      hide Shows;
      CellBefore(s.cursor, s.cols, s.rows);
      x := x - GLYPH_WIDTH;
      if x < 0 {
        x := xRes - GLYPH_WIDTH;
        y := y - GLYPH_HEIGHT;
        if y < 0 { y := yRes - GLYPH_HEIGHT; }
      }
    }

    method Print(fg: Dword, bg: Dword, c: char, ghost base: seq<Dword>, ghost s: Screen)
      requires Depicts(base, s)
      modifies this`x, frame
      ensures Pending(base, Show(s, c, fg, bg))
    {
      hide Shows;
      CellAfter(s.cursor, s.cols, s.rows);
      Paint(fg, bg, c, base, s);
      x := x + GLYPH_WIDTH;
    }

    /** One pass of the print loop, the rest of a tab included: line counts the blanks
        still to print, and the counter stays while there are any. */
    method Turn(fg: Dword, bg: Dword, buf: array<char>, count0: int, line0: int, ghost base: seq<Dword>, ghost s: Screen)
      returns (count: int, line: int, ghost t: Screen)
      requires Depicts(base, s) && Good(s)
      requires line0 >= 0 && 0 <= count0 && (line0 == 0 ==> count0 < buf.Length)
      modifies this`x, this`y, frame
      ensures Depicts(base, t) && Good(t) && line >= 0
      ensures line0 > 0 ==> count == count0 && line == line0 - 1 && t == Show(s, ' ', fg, bg)
      ensures line0 == 0 ==> count == count0 + 1 && Blanks(t, line, fg, bg) == Step(s, buf[count0], fg, bg)
    {
      hide Shows;
      hide Depicts;
      hide Pending;
      count, line := count0, line0;
      if line > 0 || buf[count] == '\t' {
        if line > 0 {
          count := count - 1;
        } else {
          line := TabCount(base, s);
        }
        line := line - 1;
        t := Show(s, ' ', fg, bg);
        Print(fg, bg, ' ', base, s);
      } else if buf[count] == '\n' {
        t := Step(s, '\n', fg, bg);
        Newline(fg, bg, base, s);
      } else if buf[count] == BACKSPACE {
        t := Step(s, BACKSPACE, fg, bg);
        Backspace(fg, bg, base, s);
      } else {
        t := Show(s, buf[count], fg, bg);
        Print(fg, bg, buf[count], base, s);
      }
      CheckBounds(base, t);
      count := count + 1;
    }

    /** The blanks of a tab: up to the next multiple of eight columns. */
    method TabCount(ghost base: seq<Dword>, ghost s: Screen) returns (line: int)
      requires Depicts(base, s)
      ensures line == TabLength(s) > 0
    {
      hide Shows;
      var current := x / GLYPH_WIDTH;
      line := (current + 8) / 8 * 8 - current;
    }

    /** The print loop over the first n characters of the buffer: what the console
        depicts afterwards is what the whole text makes of the screen. */
    method PrintBuffer(fg: Dword, bg: Dword, buf: array<char>, n: nat, ghost base: seq<Dword>, ghost s: Screen)
      requires Depicts(base, s) && Good(s) && n <= buf.Length
      modifies this`x, this`y, frame
      ensures Depicts(base, Run(s, buf[..n], fg, bg))
    {
      hide Depicts;
      hide Good;
      hide Step;
      hide Show;
      var count: int, line: int := 0, 0;
      ghost var cur, text := s, buf[..n];
      RunNothing(s, fg, bg);
      assert text[..0] == "";
      while count < n || line != 0
        invariant 0 <= count <= n && line >= 0 && Good(cur) && Depicts(base, cur)
        invariant Blanks(cur, line, fg, bg) == Run(s, text[..count], fg, bg)
        decreases n - count, line
      {
        ghost var before := cur;
        if line == 0 {
          assert text[..count + 1] == text[..count] + [text[count]];
          RunPush(s, text[..count], text[count], fg, bg);
        }
        count, line, cur := Turn(fg, bg, buf, count, line, base, cur);
      }
      assert text[..n] == text;
    }

    /** vcolor_printk: formats into the kernel's buffer of 4096 characters (which the
        terminator may overrun by one) and prints what fits. */
    method VcolorPrintk(fg: Dword, bg: Dword, buf: array<char>, fmt: FormatScan.CString, args: Formatter.Args,
                        ghost base: seq<Dword>, ghost s: Screen) returns (i: int)
      requires Depicts(base, s) && Good(s) && buf.Length > 4096
      modifies this`x, this`y, frame, buf
      ensures var out := Formatter.OutputFrom(fmt, args, 0, 0, 4096);
        && i == (if |out| < 4096 then |out| else 4095)
        && Depicts(base, Run(s, out[..i], fg, bg))
    {
      hide Depicts;
      hide Good;
      hide Run;
      hide Formatter.OutputFrom;
      i := FormatWriter.Vsnprintf(buf, PRINTK_BUF, fmt, args);
      ghost var out := Formatter.OutputFrom(fmt, args, 0, 0, PRINTK_BUF);
      assert buf[..i] == out[..i];
      PrintBuffer(fg, bg, buf, i, base, s);
    }
  }

  /** The eight pixels from at on read as the glyph row, leftmost bit first. */
  ghost predicate ShowsRow(frame: seq<Dword>, at: int, fg: Dword, row: Byte) {
    0 <= at && at + 8 <= |frame| && ReadRow(frame, at, fg, 8) == row
  }

  lemma RowStart(row: nat, cols: nat)
    requires cols > 0
    ensures row * cols % cols == 0 && row * cols / cols == row && 0 % cols == 0 && 0 / cols == 0
  {
    Remainder(row * cols, row, cols, 0);
    ModSmall(0, cols);
  }

  lemma NextInRow(r: nat, c: nat, cols: nat, rows: nat)
    requires r < rows && c + 1 < cols
    ensures cols * rows > 0 && (r * cols + c + 1) % (cols * rows) == r * cols + c + 1
    ensures (r * cols + c + 1) % cols == c + 1 && (r * cols + c + 1) / cols == r
  {
    RowBelow(r, rows, cols);
    ModSmall(r * cols + c + 1, cols * rows);
    Remainder(r * cols + c + 1, r, cols, c + 1);
  }

  lemma NextInColumn(r: nat, cols: nat, rows: nat)
    requires r < rows && cols > 0
    ensures cols * rows > 0 && (r + 1) * cols % (cols * rows) == if r + 1 < rows then (r + 1) * cols else 0
  {
    RowBelow(r, rows, cols);
    if r + 1 < rows {
      RowBelow(r + 1, rows, cols);
      ModSmall((r + 1) * cols, cols * rows);
    } else {
      Remainder((r + 1) * cols, 1, cols * rows, 0);
    }
  }

  /** Row and column one cell on. */
  lemma CellAfter(p: nat, cols: nat, rows: nat)
    requires cols > 0 && p < cols * rows
    ensures var q := (p + 1) % (cols * rows);
      && q % cols == (if p % cols + 1 < cols then p % cols + 1 else 0)
      && q / cols == if p % cols + 1 < cols then p / cols else if p / cols + 1 < rows then p / cols + 1 else 0
    ensures p / cols < rows
  {
    var r, c := p / cols, p % cols;
    assert p == r * cols + c;
    RowBound(r, rows, cols, p);
    if c + 1 < cols {
      NextInRow(r, c, cols, rows);
    } else {
      assert p + 1 == (r + 1) * cols;
      NextInColumn(r, cols, rows);
      RowStart(r + 1, cols);
    }
  }

  /** Row and column one cell back. */
  lemma CellBefore(p: nat, cols: nat, rows: nat)
    requires cols > 0 && p < cols * rows
    ensures var q := (p + cols * rows - 1) % (cols * rows);
      && q % cols == (if p % cols > 0 then p % cols - 1 else cols - 1)
      && q / cols == if p % cols > 0 then p / cols else if p / cols > 0 then p / cols - 1 else rows - 1
    ensures p / cols < rows
  {
    var r, c, n := p / cols, p % cols, cols * rows;
    assert p == r * cols + c;
    RowBound(r, rows, cols, p);
    if p > 0 {
      Remainder(p + n - 1, 1, n, p - 1);
      if c > 0 {
        Remainder(p - 1, r, cols, c - 1);
      } else {
        RowPositive(r, cols);
        assert p - 1 == (r - 1) * cols + (cols - 1);
        Remainder(p - 1, r - 1, cols, cols - 1);
      }
    } else {
      ModSmall(0, cols);
      ModSmall(n - 1, n);
      assert n - 1 == (rows - 1) * cols + (cols - 1);
      Remainder(n - 1, rows - 1, cols, cols - 1);
    }
  }

  lemma RowPositive(r: nat, cols: nat)
    requires r * cols > 0
    ensures r > 0
  {
  }
}
