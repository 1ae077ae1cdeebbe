/** The console as a reader sees it: a ring of character cells and a cursor. */
module ConsoleScreen {
  import opened MachineTypes
  import opened Arithmetic

  const TAB: nat := 8
  const BACKSPACE: char := '\U{8}'

  datatype Cell = Cell(c: char, fg: Dword, bg: Dword)

  /** Cells row by row; None where nothing was ever painted. */
  datatype Screen = Screen(cols: nat, rows: nat, cells: seq<Option<Cell>>, cursor: nat)

  predicate Good(s: Screen) {
    s.cols > 0 && s.rows > 0 && |s.cells| == s.cols * s.rows && s.cursor < |s.cells|
  }

  /** A character at the cursor, which moves on. */
  function Show(s: Screen, c: char, fg: Dword, bg: Dword): (t: Screen)
    requires Good(s)
    ensures Good(t) && t.cols == s.cols && t.rows == s.rows
  {
    s.(cells := s.cells[s.cursor := Some(Cell(c, fg, bg))], cursor := (s.cursor + 1) % |s.cells|)
  }

  function Blanks(s: Screen, n: nat, fg: Dword, bg: Dword): (t: Screen)
    requires Good(s)
    ensures Good(t) && t.cols == s.cols && t.rows == s.rows
    decreases n
  {
    if n == 0 then s else Blanks(Show(s, ' ', fg, bg), n - 1, fg, bg)
  }

  function Column(s: Screen): nat
    requires Good(s)
  {
    s.cursor % s.cols
  }

  /** Blanks a tab prints: up to the next column divisible by eight. */
  function TabLength(s: Screen): nat
    requires Good(s)
  {
    TAB - Column(s) % TAB
  }

  /** One character of output. */
  function Step(s: Screen, c: char, fg: Dword, bg: Dword): (t: Screen)
    requires Good(s)
    ensures Good(t) && t.cols == s.cols && t.rows == s.rows
  {
    var n := |s.cells|;
    if c == '\n' then
      s.(cursor := (s.cursor / s.cols + 1) * s.cols % n)
    else if c == BACKSPACE then
      var p := (s.cursor + n - 1) % n;
      s.(cells := s.cells[p := Some(Cell(' ', fg, bg))], cursor := p)
    else if c == '\t' then Blanks(s, TabLength(s), fg, bg)
    else Show(s, c, fg, bg)
  }

  /** A whole text. */
  function Run(s: Screen, text: string, fg: Dword, bg: Dword): (t: Screen)
    requires Good(s)
    ensures Good(t) && t.cols == s.cols && t.rows == s.rows
  {
    if text == "" then s else Step(Run(s, text[..|text| - 1], fg, bg), text[|text| - 1], fg, bg)
  }

  predicate Printable(c: char) { c != '\n' && c != BACKSPACE && c != '\t' }

  // ---------- remainders ----------

  lemma ModBack(x: nat, n: nat)
    requires x < n
    ensures ((x + 1) % n + n - 1) % n == x
  {
    if x + 1 < n {
      ModSmall(x + 1, n);
      Remainder(x + n, 1, n, x);
    } else {
      Remainder(x + 1, 1, n, 0);
      ModSmall(x, n);
    }
  }

  /** Wrapping around the whole grid keeps the column. */
  lemma ColumnWraps(x: nat, cols: nat, rows: nat)
    requires cols > 0 && rows > 0
    ensures cols * rows > 0 && x % (cols * rows) % cols == x % cols
  {
    var n := cols * rows;
    ProductBound(rows, cols);
    var q, r := x / n, x % n;
    assert x == q * n + r && r == r / cols * cols + r % cols;
    assert q * n == q * rows * cols;
    assert x == (q * rows + r / cols) * cols + r % cols;
    Remainder(x, q * rows + r / cols, cols, r % cols);
  }

  // ---------- what a text does ----------

  lemma RunPush(s: Screen, text: string, c: char, fg: Dword, bg: Dword)
    requires Good(s)
    ensures Run(s, text + [c], fg, bg) == Step(Run(s, text, fg, bg), c, fg, bg)
  {
    assert (text + [c])[..|text|] == text;
  }

  /** Printable text moves the cursor one cell for each character, around the ring. */
  lemma {:induction false} PrintedCursor(s: Screen, text: string, fg: Dword, bg: Dword)
    requires Good(s) && forall k :: 0 <= k < |text| ==> Printable(text[k])
    ensures Run(s, text, fg, bg).cursor == (s.cursor + |text|) % |s.cells|
    decreases |text|
  {
    if text == "" {
      ModSmall(s.cursor, |s.cells|);
    } else {
      PrintedCursor(s, text[..|text| - 1], fg, bg);
      ModStep(s.cursor + |text| - 1, |s.cells|);
    }
  }

  /** While it fits the screen, character k stands k cells after the start, and every
      cell that none reaches keeps what it had. */
  lemma {:induction false} PrintedCells(s: Screen, text: string, fg: Dword, bg: Dword, k: nat)
    requires Good(s) && |text| <= |s.cells| && k < |s.cells|
    requires forall i :: 0 <= i < |text| ==> Printable(text[i])
    ensures var p := (s.cursor + k) % |s.cells|;
      Run(s, text, fg, bg).cells[p] == if k < |text| then Some(Cell(text[k], fg, bg)) else s.cells[p]
    decreases |text|
  {
    if text != "" {
      var n := |text| - 1;
      PrintedCells(s, text[..n], fg, bg, k);
      PrintedCursor(s, text[..n], fg, bg);
      if k != n { RingDistinct(s.cursor, k, n, |s.cells|); }
    }
  }

  lemma RingDistinct(p: nat, j: nat, k: nat, n: nat)
    requires j < n && k < n && j != k
    ensures (p + j) % n != (p + k) % n
  {
    var a, b := (p + j) / n, (p + k) / n;
    if (p + j) % n == (p + k) % n {
      assert (a - b) * n == j - k;
      if a > b { ProductBound(a - b, n); } else if a < b { ProductBound(b - a, n); }
      assert false;
    }
  }

  /** Backspace takes the cursor back to a printed character and blanks it. */
  lemma BackspaceErases(s: Screen, c: char, fg: Dword, bg: Dword)
    requires Good(s) && Printable(c)
    ensures Run(s, [c, BACKSPACE], fg, bg) == s.(cells := s.cells[s.cursor := Some(Cell(' ', fg, bg))])
  {
    hide Run;
    RunNothing(s, fg, bg);
    RunPush(s, "", c, fg, bg);
    RunPush(s, [c], BACKSPACE, fg, bg);
    assert [c, BACKSPACE] == [c] + [BACKSPACE] && "" + [c] == [c];
    ModBack(s.cursor, |s.cells|);
    assert s.cells[s.cursor := Some(Cell(c, fg, bg))][s.cursor := Some(Cell(' ', fg, bg))]
        == s.cells[s.cursor := Some(Cell(' ', fg, bg))];
  }

  lemma RunNothing(s: Screen, fg: Dword, bg: Dword)
    requires Good(s)
    ensures Run(s, "", fg, bg) == s
  {
  }

  /** The next n cells are blanked, those that none reaches keep what they had. */
  lemma {:induction false} BlanksCells(s: Screen, n: nat, fg: Dword, bg: Dword, k: nat)
    requires Good(s) && k < |s.cells|
    ensures var p := (s.cursor + k) % |s.cells|;
      Blanks(s, n, fg, bg).cells[p] == if k < n then Some(Cell(' ', fg, bg)) else s.cells[p]
    decreases n
  {
    if n > 0 {
      var t, m := Show(s, ' ', fg, bg), |s.cells|;
      var p := (s.cursor + k) % m;
      RingStep(s.cursor, k, m);
      assert |t.cells| == m && t.cursor == (s.cursor + 1) % m;
      assert t.cells[p] == if k == 0 then Some(Cell(' ', fg, bg)) else s.cells[p];
      hide Show;
      BlanksCells(t, n - 1, fg, bg, if k == 0 then m - 1 else k - 1);
    }
  }

  /** Cell k from a place is cell k - 1 from the next one, the place itself the last. */
  lemma RingStep(p: nat, k: nat, m: nat)
    requires p < m && k < m
    ensures ((p + 1) % m + (if k == 0 then m - 1 else k - 1)) % m == (p + k) % m
    ensures (p + k) % m == p <==> k == 0
  {
    ModSmall(p, m);
    if k > 0 { RingDistinct(p, 0, k, m); }
    if p + 1 < m {
      ModSmall(p + 1, m);
      if k == 0 { Remainder(p + m, 1, m, p); }
    } else {
      Remainder(p + 1, 1, m, 0);
      if k == 0 { ModSmall(m - 1, m); } else { Remainder(p + k, 1, m, k - 1); ModSmall(k - 1, m); }
    }
  }

  /** A tab prints blanks, and only there. */
  lemma TabCells(s: Screen, fg: Dword, bg: Dword, k: nat)
    requires Good(s) && k < |s.cells|
    ensures var p := (s.cursor + k) % |s.cells|;
      Step(s, '\t', fg, bg).cells[p] == if k < 8 - Column(s) % 8 then Some(Cell(' ', fg, bg)) else s.cells[p]
  {
    BlanksCells(s, TabLength(s), fg, bg, k);
  }

  lemma {:induction false} BlanksCursor(s: Screen, n: nat, fg: Dword, bg: Dword)
    requires Good(s)
    ensures Blanks(s, n, fg, bg).cursor == (s.cursor + n) % |s.cells|
    decreases n
  {
    if n == 0 {
      ModSmall(s.cursor, |s.cells|);
    } else {
      var t := Show(s, ' ', fg, bg);
      var p, m := s.cursor, |s.cells|;
      assert t.cursor == (p + 1) % m && |t.cells| == m;
      hide Show;
      BlanksCursor(t, n - 1, fg, bg);
      OneAndRest(p, n, m);
    }
  }

  lemma OneAndRest(x: nat, k: nat, n: nat)
    requires n > 0 && k > 0
    ensures ((x + 1) % n + (k - 1)) % n == (x + k) % n
  {
    ModAdd(x + 1, k - 1, n);
  }

  lemma ColumnAfter(p: nat, k: nat, cols: nat, rows: nat)
    requires cols > 0 && rows > 0
    ensures cols * rows > 0 && (p + k) % (cols * rows) % cols == (p % cols + k) % cols
  {
    ColumnWraps(p + k, cols, rows);
    ModAdd(p, k, cols);
  }

  /** The column a tab ends in. */
  lemma TabColumn(s: Screen, fg: Dword, bg: Dword)
    requires Good(s)
    ensures Column(Step(s, '\t', fg, bg)) == (Column(s) + TabLength(s)) % s.cols
    ensures (Column(s) + TabLength(s)) % 8 == 0 && 1 <= TabLength(s) <= 8
  {
    hide Blanks;
    var k := TabLength(s);
    BlanksCursor(s, k, fg, bg);
    ColumnAfter(s.cursor, k, s.cols, s.rows);
    NextStop(Column(s));
  }

  lemma NextStop(c: nat)
    ensures (c + (TAB - c % TAB)) % TAB == 0
  {
  }

  /** The screen with its cursor elsewhere. */
  function From(s: Screen, p: nat): Screen { s.(cursor := p) }

  /** Wherever it starts, a tab ends in a column divisible by eight, exactly when the
      number of columns is divisible by eight or divides eight. */
  lemma TabAligns(s: Screen, fg: Dword, bg: Dword)
    requires Good(s)
    ensures (forall p: nat :: p < |s.cells| ==> Column(Step(From(s, p), '\t', fg, bg)) % TAB == 0)
        <==> (s.cols % TAB == 0 || TAB % s.cols == 0)
  {
    if s.cols % TAB == 0 || TAB % s.cols == 0 {
      forall p: nat | p < |s.cells|
        ensures Column(Step(From(s, p), '\t', fg, bg)) % TAB == 0
      {
        TabColumn(From(s, p), fg, bg);
        AlignedColumn(Column(From(s, p)), s.cols);
      }
    } else {
      var p := s.cols - 1;
      ProductBound(s.rows, s.cols);
      TabColumn(From(s, p), fg, bg);
      ModSmall(p, s.cols);
      MisalignedColumn(s.cols);
      assert Column(Step(From(s, p), '\t', fg, bg)) % TAB != 0;
    }
  }

  lemma AlignedColumn(c: nat, cols: nat)
    requires c < cols && (cols % TAB == 0 || TAB % cols == 0)
    ensures (c + (TAB - c % TAB)) % cols % TAB == 0
  {
    var e := c + (TAB - c % TAB);
    if cols % TAB == 0 {
      if e < cols { ModSmall(e, cols); } else { Remainder(e, 1, cols, 0); }
    } else {
      assert cols <= 8;
      Remainder(e, TAB / cols, cols, 0);
    }
  }

  lemma MisalignedColumn(cols: nat)
    requires cols > 0 && cols % TAB != 0 && TAB % cols != 0
    ensures (cols - 1 + (TAB - (cols - 1) % TAB)) % cols % TAB != 0
  {
    var e := cols - 1 + (TAB - (cols - 1) % TAB);
    if cols > 8 { Remainder(e, 1, cols, e - cols); }
  }

  /** A newline puts the cursor at the start of the next row, after the last row the
      first. */
  lemma NewlineCursor(s: Screen, fg: Dword, bg: Dword)
    requires Good(s)
    ensures var row := s.cursor / s.cols;
      Step(s, '\n', fg, bg) == s.(cursor := if row + 1 == s.rows then 0 else (row + 1) * s.cols)
    ensures s.cursor / s.cols < s.rows
  {
    var row := s.cursor / s.cols;
    assert s.cursor == row * s.cols + s.cursor % s.cols;
    RowBound(row, s.rows, s.cols, s.cursor);
    if row + 1 == s.rows {
      Remainder((row + 1) * s.cols, 1, |s.cells|, 0);
    } else {
      RowBelow(row + 1, s.rows, s.cols);
      ModSmall((row + 1) * s.cols, |s.cells|);
    }
  }

  lemma RowBound(row: nat, rows: nat, cols: nat, p: nat)
    requires cols > 0 && row * cols <= p < cols * rows
    ensures row < rows
  {
    if row >= rows { ProductOrder(rows, row, cols); }
  }

  lemma RowBelow(row: nat, rows: nat, cols: nat)
    requires row < rows && cols > 0
    ensures row * cols < cols * rows && row * cols + cols <= cols * rows
  {
    ProductOrder(row + 1, rows, cols);
  }
}
