/** How character cells lie in the linear frame buffer. */
module ConsolePixels {
  import opened MachineTypes
  import opened Arithmetic
  import opened ConsoleScreen

  const GLYPH_WIDTH: nat := 8
  const GLYPH_HEIGHT: nat := 16

  /** Sixteen rows of eight bits for every character. */
  type Font = (char, nat) -> Byte

  /** The bit of a font row that column j shows: the leftmost is the highest. */
  predicate Lit(row: Byte, j: nat)
    requires j < GLYPH_WIDTH
  {
    row / (if j == 0 then 128 else if j == 1 then 64 else if j == 2 then 32 else if j == 3 then 16
           else if j == 4 then 8 else if j == 5 then 4 else if j == 6 then 2 else 1) % 2 == 1
  }

  function Shade(cell: Cell, font: Font, i: nat, j: nat): Dword
    requires j < GLYPH_WIDTH
  {
    if Lit(font(cell.c, i), j) then cell.fg else cell.bg
  }

  /** The frame buffer index of pixel (i, j) of the cell in row r and column c. */
  function Pixel(cols: nat, r: nat, c: nat, i: nat, j: nat): nat {
    (r * GLYPH_HEIGHT + i) * (cols * GLYPH_WIDTH) + (c * GLYPH_WIDTH + j)
  }

  ghost predicate InGrid(cols: nat, rows: nat, r: nat, c: nat, i: nat, j: nat) {
    r < rows && c < cols && i < GLYPH_HEIGHT && j < GLYPH_WIDTH
  }

  lemma PixelInside(cols: nat, rows: nat, r: nat, c: nat, i: nat, j: nat)
    requires InGrid(cols, rows, r, c, i, j)
    ensures Pixel(cols, r, c, i, j) < cols * GLYPH_WIDTH * (rows * GLYPH_HEIGHT)
  {
    var w := cols * GLYPH_WIDTH;
    RowBelow(r * GLYPH_HEIGHT + i, rows * GLYPH_HEIGHT, w);
  }

  lemma RowAndColumnUnique(w: nat, y1: nat, x1: nat, y2: nat, x2: nat)
    requires x1 < w && x2 < w
    ensures y1 * w + x1 == y2 * w + x2 <==> (y1 == y2 && x1 == x2)
  {
    if y1 * w + x1 == y2 * w + x2 {
      Remainder(y1 * w + x1, y1, w, x1);
      Remainder(y2 * w + x2, y2, w, x2);
    }
  }

  /** Different pixels have different indices. */
  lemma PixelUnique(cols: nat, r1: nat, c1: nat, i1: nat, j1: nat, r2: nat, c2: nat, i2: nat, j2: nat)
    requires c1 < cols && c2 < cols && i1 < 16 && i2 < 16 && j1 < 8 && j2 < 8
    ensures Pixel(cols, r1, c1, i1, j1) == Pixel(cols, r2, c2, i2, j2)
      <==> (r1 == r2 && c1 == c2 && i1 == i2 && j1 == j2)
  {
    RowAndColumnUnique(GLYPH_HEIGHT, r1, i1, r2, i2);
    RowAndColumnUnique(GLYPH_WIDTH, c1, j1, c2, j2);
    RowAndColumnUnique(cols * GLYPH_WIDTH, r1 * GLYPH_HEIGHT + i1, c1 * GLYPH_WIDTH + j1,
                       r2 * GLYPH_HEIGHT + i2, c2 * GLYPH_WIDTH + j2);
  }

  /** Every index of the frame buffer is a pixel of some cell. */
  lemma PixelReached(cols: nat, rows: nat, k: nat) returns (r: nat, c: nat, i: nat, j: nat)
    requires cols > 0 && k < cols * GLYPH_WIDTH * (rows * GLYPH_HEIGHT)
    ensures InGrid(cols, rows, r, c, i, j) && Pixel(cols, r, c, i, j) == k
  {
    var w := cols * GLYPH_WIDTH;
    var y, x := k / w, k % w;
    assert k == y * w + x;
    RowBound(y, rows * GLYPH_HEIGHT, w, k);
    r, i, c, j := y / GLYPH_HEIGHT, y % GLYPH_HEIGHT, x / GLYPH_WIDTH, x % GLYPH_WIDTH;
  }

  /** The frame shows the cells; where nothing was painted it is as at the base. */
  ghost predicate Shows(frame: seq<Dword>, base: seq<Dword>, cols: nat, rows: nat, cells: seq<Option<Cell>>, font: Font) {
    && |frame| == |base| == cols * GLYPH_WIDTH * (rows * GLYPH_HEIGHT) && |cells| == cols * rows
    && forall r: nat, c: nat, i: nat, j: nat :: InGrid(cols, rows, r, c, i, j) ==>
         ShowsPixel(frame, base, cols, rows, cells, font, r, c, i, j)
  }

  ghost predicate ShowsPixel(frame: seq<Dword>, base: seq<Dword>, cols: nat, rows: nat, cells: seq<Option<Cell>>,
                             font: Font, r: nat, c: nat, i: nat, j: nat)
    requires |frame| == |base| == cols * GLYPH_WIDTH * (rows * GLYPH_HEIGHT) && |cells| == cols * rows
    requires InGrid(cols, rows, r, c, i, j)
  {
    PixelInside(cols, rows, r, c, i, j);
    CellInside(cols, rows, r, c);
    frame[Pixel(cols, r, c, i, j)]
      == match cells[r * cols + c] case None => base[Pixel(cols, r, c, i, j)] case Some(cell) => Shade(cell, font, i, j)
  }

  lemma CellInside(cols: nat, rows: nat, r: nat, c: nat)
    requires r < rows && c < cols
    ensures r * cols + c < cols * rows
  {
    RowBelow(r, rows, cols);
  }

  /** Nothing painted yet, the cursor in the first cell. */
  function Untouched(cols: nat, rows: nat): Screen { Screen(cols, rows, seq(cols * rows, _ => None), 0) }

  lemma UntouchedShows(frame: seq<Dword>, cols: nat, rows: nat, font: Font)
    requires cols > 0 && rows > 0 && |frame| == cols * GLYPH_WIDTH * (rows * GLYPH_HEIGHT)
    ensures Good(Untouched(cols, rows)) && Shows(frame, frame, cols, rows, Untouched(cols, rows).cells, font)
  {
    ProductBound(rows, cols);
    var s := Untouched(cols, rows);
    UntouchedCells(cols, rows);
    hide Pixel;
    hide Untouched;
    forall r: nat, c: nat, i: nat, j: nat | InGrid(cols, rows, r, c, i, j)
      ensures ShowsPixel(frame, frame, cols, rows, s.cells, font, r, c, i, j)
    {
      CellInside(cols, rows, r, c);
    }
  }

  lemma UntouchedCells(cols: nat, rows: nat)
    ensures var s := Untouched(cols, rows);
      && s.cols == cols && s.rows == rows && s.cursor == 0 && |s.cells| == cols * rows
      && forall k :: 0 <= k < |s.cells| ==> s.cells[k] == None
  {
  }

  /** The pixels of a cell lie in the frame. */
  ghost predicate Fits(frame: seq<Dword>, cols: nat, r: nat, c: nat) {
    forall i: nat, j: nat :: i < GLYPH_HEIGHT && j < GLYPH_WIDTH ==> Pixel(cols, r, c, i, j) < |frame|
  }

  /** The frame after the first n pixels of a cell, row by row, are painted. */
  ghost function Painted(frame: seq<Dword>, cols: nat, r: nat, c: nat, cell: Cell, font: Font, n: nat): (f: seq<Dword>)
    requires n <= GLYPH_WIDTH * GLYPH_HEIGHT
    requires Fits(frame, cols, r, c)
    ensures |f| == |frame|
    decreases n
  {
    if n == 0 then frame
    else
      var i, j := (n - 1) / GLYPH_WIDTH, (n - 1) % GLYPH_WIDTH;
      Painted(frame, cols, r, c, cell, font, n - 1)[Pixel(cols, r, c, i, j) := Shade(cell, font, i, j)]
  }

  lemma PaintedNext(frame: seq<Dword>, cols: nat, r: nat, c: nat, cell: Cell, font: Font, i: nat, j: nat)
    requires i < GLYPH_HEIGHT && j < GLYPH_WIDTH && Fits(frame, cols, r, c)
    ensures Painted(frame, cols, r, c, cell, font, i * GLYPH_WIDTH + j + 1)
         == Painted(frame, cols, r, c, cell, font, i * GLYPH_WIDTH + j)[Pixel(cols, r, c, i, j) := Shade(cell, font, i, j)]
  {
    Remainder(i * GLYPH_WIDTH + j, i, GLYPH_WIDTH, j);
  }

  lemma PixelFits(frame: seq<Dword>, cols: nat, r: nat, c: nat, i: nat, j: nat)
    requires i < GLYPH_HEIGHT && j < GLYPH_WIDTH && Fits(frame, cols, r, c)
    ensures Pixel(cols, r, c, i, j) < |frame|
  {
  }

  lemma PaintedNone(frame: seq<Dword>, cols: nat, r: nat, c: nat, cell: Cell, font: Font)
    requires Fits(frame, cols, r, c)
    ensures Painted(frame, cols, r, c, cell, font, 0) == frame
  {
  }

  /** Exactly the pixels of the cell are painted, each in its shade. */
  lemma {:induction false} PaintedAt(frame: seq<Dword>, cols: nat, r: nat, c: nat, cell: Cell, font: Font, n: nat,
                                     r2: nat, c2: nat, i2: nat, j2: nat)
    requires n <= GLYPH_WIDTH * GLYPH_HEIGHT && c < cols && c2 < cols && i2 < GLYPH_HEIGHT && j2 < GLYPH_WIDTH
    requires Fits(frame, cols, r, c)
    requires Pixel(cols, r2, c2, i2, j2) < |frame|
    ensures Painted(frame, cols, r, c, cell, font, n)[Pixel(cols, r2, c2, i2, j2)]
         == if r2 == r && c2 == c && i2 * GLYPH_WIDTH + j2 < n then Shade(cell, font, i2, j2)
            else frame[Pixel(cols, r2, c2, i2, j2)]
    decreases n
  {
    if n > 0 {
      PaintedAt(frame, cols, r, c, cell, font, n - 1, r2, c2, i2, j2);
      PixelUnique(cols, r, c, (n - 1) / GLYPH_WIDTH, (n - 1) % GLYPH_WIDTH, r2, c2, i2, j2);
    }
  }

  /** n pixels from at on, read from left to right as binary digits, fg being one. */
  function ReadRow(frame: seq<Dword>, at: nat, fg: Dword, n: nat): nat
    requires at + n <= |frame|
  {
    if n == 0 then 0 else 2 * ReadRow(frame, at, fg, n - 1) + if frame[at + n - 1] == fg then 1 else 0
  }

  /** 256, 128 and so on down to 1. */
  function Weight(n: nat): nat
    requires n <= 8
  {
    if n == 0 then 256 else if n == 1 then 128 else if n == 2 then 64 else if n == 3 then 32 else if n == 4 then 16
    else if n == 5 then 8 else if n == 6 then 4 else if n == 7 then 2 else 1
  }

  lemma DivideTwice(x: nat, w: nat)
    requires w > 0
    ensures x / (2 * w) == x / w / 2
  {
    var q, r := x / w, x % w;
    assert x == q * w + r && q == q / 2 * 2 + q % 2;
    assert x == q / 2 * (2 * w) + (q % 2 * w + r);
    Remainder(x, q / 2, 2 * w, q % 2 * w + r);
  }

  lemma BitOfRow(row: Byte, n: nat)
    requires 1 <= n <= 8
    ensures row / Weight(n) == 2 * (row / Weight(n - 1)) + if Lit(row, n - 1) then 1 else 0
  {
    WeightHalves(n);
    DivideTwice(row, Weight(n));
    assert Lit(row, n - 1) <==> row / Weight(n) % 2 == 1;
    hide Weight;
    hide Lit;
  }

  lemma WeightHalves(n: nat)
    requires 1 <= n <= 8
    ensures Weight(n) > 0 && Weight(n - 1) == 2 * Weight(n)
  {
  }

  /** The first n pixels are the first n bits of the row. */
  lemma {:induction false} ReadFront(frame: seq<Dword>, at: nat, fg: Dword, row: Byte, n: nat)
    requires n <= 8 && at + n <= |frame|
    requires forall p :: at <= p < at + n ==> (frame[p] == fg <==> Lit(row, p - at))
    ensures ReadRow(frame, at, fg, n) == row / Weight(n)
    decreases n
  {
    hide Lit;
    if n > 0 {
      ReadFront(frame, at, fg, row, n - 1);
      BitOfRow(row, n);
      assert frame[at + n - 1] == fg <==> Lit(row, n - 1);
      hide Weight;
    }
  }

  lemma PixelStep(cols: nat, r: nat, c: nat, i: nat, j: nat)
    ensures Pixel(cols, r, c, i, j) == (r * 16 + i) * (cols * 8) + c * 8 + j
  {
  }

  /** On two different colours each row of the painted cell reads as the glyph's row, in
      binary digits from left to right, and no pixel of it has a third colour. */
  lemma GlyphRow(frame: seq<Dword>, cols: nat, r: nat, c: nat, cell: Cell, font: Font, i: nat, at: nat)
    requires c < cols && i < 16 && Fits(frame, cols, r, c) && cell.fg != cell.bg
    requires at == (r * 16 + i) * (cols * 8) + c * 8
    ensures var after := Painted(frame, cols, r, c, cell, font, 128);
      && at + 8 <= |after| && ReadRow(after, at, cell.fg, 8) == font(cell.c, i)
      && forall p :: at <= p < at + 8 ==> after[p] == cell.fg || after[p] == cell.bg
  {
    hide Painted;
    hide Pixel;
    hide Fits;
    hide Lit;
    hide ReadRow;
    var after := Painted(frame, cols, r, c, cell, font, 128);
    forall p | at <= p < at + 8
      ensures p < |after| && after[p] == Shade(cell, font, i, p - at)
    {
      PixelStep(cols, r, c, i, p - at);
      PixelFits(frame, cols, r, c, i, p - at);
      PaintedAt(frame, cols, r, c, cell, font, 128, r, c, i, p - at);
    }
    PixelStep(cols, r, c, i, 7);
    PixelFits(frame, cols, r, c, i, 7);
    ReadFront(after, at, cell.fg, font(cell.c, i), 8);
  }

  /** Painting a cell is setting it. */
  lemma PaintShows(frame: seq<Dword>, base: seq<Dword>, cols: nat, rows: nat, cells: seq<Option<Cell>>, font: Font,
                   r: nat, c: nat, cell: Cell)
    requires Shows(frame, base, cols, rows, cells, font) && r < rows && c < cols
    requires Fits(frame, cols, r, c)
    requires r * cols + c < |cells|
    ensures Shows(Painted(frame, cols, r, c, cell, font, GLYPH_WIDTH * GLYPH_HEIGHT), base, cols, rows,
                  cells[r * cols + c := Some(cell)], font)
  {
    var after := Painted(frame, cols, r, c, cell, font, GLYPH_WIDTH * GLYPH_HEIGHT);
    forall r2: nat, c2: nat, i2: nat, j2: nat | InGrid(cols, rows, r2, c2, i2, j2)
      ensures ShowsPixel(after, base, cols, rows, cells[r * cols + c := Some(cell)], font, r2, c2, i2, j2)
    {
      assert ShowsPixel(frame, base, cols, rows, cells, font, r2, c2, i2, j2);
      PixelInside(cols, rows, r2, c2, i2, j2);
      PaintedAt(frame, cols, r, c, cell, font, GLYPH_WIDTH * GLYPH_HEIGHT, r2, c2, i2, j2);
      RowAndColumnUnique(cols, r, c, r2, c2);
      CellInside(cols, rows, r2, c2);
    }
  }
}
