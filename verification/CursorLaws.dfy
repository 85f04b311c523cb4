/** Where the cursor goes, and what clearing, scrolling and printing text leave on the screen, by rows and columns. */
module CursorLaws {
  import opened Screen
  import opened ScreenLaws

  // ---- cells ----

  /** A colour has the background in its high four bits and the foreground in its low ones; a cell has the colour in its
    * high byte and the character in its low one. */
  lemma CellParts(fg: Byte, bg: Byte, color: Byte, ch: Byte)
    ensures MakeColor(fg, bg) / 16 == bg % 16 && MakeColor(fg, bg) % 16 == fg % 16
    ensures MakeCell(color, ch) / 256 == color && MakeCell(color, ch) % 256 == ch
  {
  }

  // Cells from one index up to another are blanks of a colour.
  ghost predicate Blanks(cells: seq<Cell>, from: nat, to: nat, color: Byte) {
    to <= |cells| && forall i :: from <= i < to ==> cells[i] == color * 256 + 32
  }

  // ---- the cursor ----

  predicate At(s: Con, row: nat, col: nat) {
    s.row == row && s.col == col
  }

  /** The cursor after each character: a newline goes to the first column of the next row, a return to the first column,
    * a tab to the next multiple of four, and a glyph one column on, on the next row if the column is past the last one.
    * From the last row the screen scrolls instead, and the cursor goes to the first column of the last row. */
  lemma CursorAfter(s: Con, c: Byte, fg: Byte, bg: Byte)
    requires Agree(s)
    ensures var t := Print(s, c, fg, bg);
            && (c == 10 ==> if s.row < 24 then At(t, s.row + 1, 0) else At(t, 24, 0))
            && (c == 13 ==> At(t, s.row, 0))
            && (c == 9 ==> t.row == s.row && t.col % 4 == 0 &&
                           if s.col < 252 then s.col < t.col <= s.col + 4 else t.col == 0)
            && (Glyph(c) && s.col < 80 ==> At(t, s.row, s.col + 1))
            && (Glyph(c) && s.col >= 80 ==> if s.row < 24 then At(t, s.row + 1, 1) else At(t, 24, 0))
  {
    TabStop(s.col);
  }

  lemma TabStop(col: Byte)
    ensures var next := (col + 4) / 4 * 4 % 256;
            next % 4 == 0 && if col < 252 then col < next <= col + 4 else next == 0
  {
  }

  /** Printing keeps the terminal and its colour, and leaves the history view for good. */
  lemma PrintKeeps(s: Con, c: Byte, fg: Byte, bg: Byte)
    requires Agree(s)
    ensures var t := Print(s, c, fg, bg);
            && t.cur == s.cur && t.color == s.color && t.ttyColor == s.ttyColor[s.cur := s.color]
            && t.ttyRow == s.ttyRow && t.ttyCol == s.ttyCol
            && !t.viewing && (s.viewing ==> t.offset == 0)
  {
    var s1 := LeaveView(s);
    var s2 := Advance(SetColor(s1, fg, bg), c);
    var s3 := if s2.row >= HEIGHT then Scroll(s2) else s2;
    assert s1.cur == s.cur && s1.color == s.color && s1.ttyColor == s.ttyColor;
    assert s3.cur == s.cur && s3.ttyColor == s.ttyColor[s.cur := MakeColor(fg, bg)];
  }

  // ---- what scrolling does to the cells ----

  // All rows one up, and the last one blank.
  ghost predicate MovedUp(was: seq<Cell>, now: seq<Cell>, color: Byte) {
    && |was| == |now| == 2000 && Blanks(now, 1920, 2000, color)
    && forall i :: 0 <= i < 1920 ==> now[i] == was[i + 80]
  }

  ghost predicate MovedDown(was: seq<Cell>, now: seq<Cell>, color: Byte) {
    && |was| == |now| == 2000 && Blanks(now, 0, 80, color)
    && forall i :: 80 <= i < 2000 ==> now[i] == was[i - 80]
  }

  lemma RowsUpMoves(s: Con)
    requires Shape(s)
    ensures MovedUp(Tbuf(s), Tbuf(RowsUp(s)), s.color)
  {
    UpMoves(Tbuf(s), s.color);
  }

  lemma UpMoves(b: seq<Cell>, color: Byte)
    requires |b| == CELLS
    ensures MovedUp(b, b[WIDTH..] + Blank(color), color)
  {
  }

  lemma DownMoves(b: seq<Cell>, color: Byte)
    requires |b| == CELLS
    ensures MovedDown(b, Blank(color) + b[..CELLS - WIDTH], color)
  {
  }

  lemma RowsDownMoves(s: Con)
    requires Shape(s)
    ensures MovedDown(Tbuf(s), Tbuf(RowsDown(s)), s.color)
  {
    DownMoves(Tbuf(s), s.color);
  }

  lemma ScrollMoves(s: Con)
    requires Shape(s.(row := 0)) && |s.vga| == CELLS + 1
    ensures MovedUp(Tbuf(s.(row := 0)), Tbuf(Scroll(s)), s.color)
    ensures Scroll(s).lines == s.lines + [s.vga[..80]]
  {
    var s1 := SaveLine(s.(row := HEIGHT - 1, col := 0), 0);
    assert Tbuf(s1) == Tbuf(s.(row := 0));
    RowsUpMoves(s1);
    assert s.vga[0 * WIDTH..0 * WIDTH + WIDTH] == s.vga[..80];
  }

  /** A newline on the last row, and a glyph at the corner, move all rows up by one, blank the last one in the colour
    * printed, and save the row that leaves; any other character that is not a glyph changes no cell and saves
    * nothing. */
  lemma PrintScrolls(s: Con, c: Byte, fg: Byte, bg: Byte)
    requires Agree(s) && (!Glyph(c) || Corner(s, c))
    ensures var t := Print(s, c, fg, bg);
            if Corner(s, c) || (c == 10 && s.row == 24) then
              MovedUp(Tbuf(s), Tbuf(t), MakeColor(fg, bg)) && t.lines == s.lines + [Tbuf(s)[..80]]
            else Tbuf(t) == Tbuf(s) && t.lines == s.lines
  {
    LeaveViewAgrees(s);
    var s1 := LeaveView(s);
    var s2 := SetColor(s1, fg, bg);
    var s3 := Advance(s2, c);
    assert Tbuf(s2) == Tbuf(s) && s2.lines == s.lines;
    AdvanceScrolls(s2, c);
    Unscrolled(if s3.row >= HEIGHT then Scroll(s3) else s3, s1.color);
  }

  lemma AdvanceScrolls(s: Con, c: Byte)
    requires Shape(s) && Shown(s) == Tbuf(s) && (!Glyph(c) || Corner(s, c))
    ensures var t := Advance(s, c);
            && (t.row >= HEIGHT <==> Corner(s, c) || (c == 10 && s.row == 24))
            && (t.row >= HEIGHT ==>
                  MovedUp(Tbuf(s), Tbuf(Scroll(t)), s.color) && Scroll(t).lines == s.lines + [Tbuf(s)[..80]])
            && (t.row < HEIGHT ==> Tbuf(t) == Tbuf(s) && t.lines == s.lines)
  {
    AdvanceTbuf(s, c);
    var t := Advance(s, c);
    if t.row >= HEIGHT {
      ScrollMoves(t);
      TopRow(s, t);
    }
  }

  lemma TopRow(s: Con, t: Con)
    requires Shape(s) && Shown(s) == Tbuf(s) && |t.vga| == CELLS + 1
    requires forall i :: 0 <= i < CELLS ==> t.vga[i] == s.vga[i]
    ensures t.vga[..80] == Tbuf(s)[..80]
  {
    assert forall i :: 0 <= i < 80 ==> Shown(s)[i] == t.vga[i];
  }

  /** scroll_up and scroll_down: all rows one up or one down, a blank one in the colour set, the row that leaves is
    * saved, and the cursor stays on its text, within the screen. */
  lemma HandScrolls(s: Con)
    requires Agree(s)
    ensures var u := ScrollUp(s);
            && MovedUp(Tbuf(s), Tbuf(u), s.color) && Shown(u) == Tbuf(u) && u.lines == s.lines + [s.vga[..80]]
            && u.col == s.col && u.row == if s.row > 0 then s.row - 1 else 0
    ensures var d := ScrollDown(s);
            && MovedDown(Tbuf(s), Tbuf(d), s.color) && Shown(d) == Tbuf(d) && d.lines == s.lines + [s.vga[1920..2000]]
            && d.col == s.col && d.row == if s.row < 24 then s.row + 1 else 24
  {
    var s1, s2 := SaveLine(s, 0), SaveLine(s, 24);
    assert Tbuf(s1) == Tbuf(s) && Tbuf(s2) == Tbuf(s);
    RowsUpMoves(s1);
    RowsDownMoves(s2);
  }

  // ---- clearing ----

  lemma {:induction false} SavedRows(s: Con, r: nat, k: nat)
    requires Shape(s) && r <= k < HEIGHT
    ensures |s.lines| + (k - r) < |SaveRows(s, r).lines|
    ensures SaveRows(s, r).lines[|s.lines| + (k - r)] == s.vga[k * WIDTH..k * WIDTH + WIDTH]
    decreases k - r
  {
    var t := SaveLine(s, r);
    assert |t.lines| == |s.lines| + 1;
    if r < k {
      SavedRows(t, r + 1, k);
    } else {
      RowsKept(t, r + 1);
      assert SaveRows(t, r + 1).lines[..|t.lines|][|s.lines|] == t.lines[|s.lines|];
    }
  }

  lemma {:induction false} RowsKept(s: Con, r: nat)
    requires Shape(s) && r <= HEIGHT
    ensures |s.lines| <= |SaveRows(s, r).lines| && SaveRows(s, r).lines[..|s.lines|] == s.lines
    decreases HEIGHT - r
  {
    if r < HEIGHT {
      var t := SaveLine(s, r);
      RowsKept(t, r + 1);
      assert SaveRows(t, r + 1).lines[..|t.lines|][..|s.lines|] == SaveRows(s, r).lines[..|s.lines|];
    }
  }

  /** clear_screen leaves 2000 blanks in the colour set, on the screen and in the terminal, the cursor in the first cell
    * and no view; it saves the 25 rows that were on the screen, from the top, behind what was saved before. */
  lemma ClearBlanks(s: Con)
    requires Shape(s)
    ensures var t := Clear(s);
            && Blanks(Shown(t), 0, 2000, s.color) && Blanks(Tbuf(t), 0, 2000, s.color)
            && At(t, 0, 0) && !t.viewing && t.color == s.color && t.cur == s.cur
            && |t.lines| == |s.lines| + 25 && t.lines[..|s.lines|] == s.lines
            && forall k :: 0 <= k < 25 ==> t.lines[|s.lines| + k] == s.vga[k * 80..k * 80 + 80]
  {
    ClearSaves(s);
    var s1 := SaveRows(s, 0);
    assert Blanks(Fill(MakeCell(s1.color, SPACE), CELLS), 0, 2000, s.color);
    assert Shown(Wipe(s1)) == Tbuf(Wipe(s1)) == Fill(MakeCell(s1.color, SPACE), CELLS);
  }

  lemma ClearSaves(s: Con)
    requires Shape(s)
    ensures var ls := SaveRows(s, 0).lines;
            && |ls| == |s.lines| + 25 && ls[..|s.lines|] == s.lines
            && forall k :: 0 <= k < 25 ==> ls[|s.lines| + k] == s.vga[k * 80..k * 80 + 80]
  {
    RowsKept(s, 0);
    var ls := SaveRows(s, 0).lines;
    forall k | 0 <= k < 25 ensures ls[|s.lines| + k] == s.vga[k * 80..k * 80 + 80] {
      RowSaved(s, 0, k);
    }
  }

  lemma RowSaved(s: Con, r: nat, k: nat)
    requires Shape(s) && r == 0 && k < 25
    ensures |s.lines| + k < |SaveRows(s, r).lines|
    ensures SaveRows(s, r).lines[|s.lines| + k] == s.vga[k * 80..k * 80 + 80]
  {
    SavedRows(s, r, k);
  }

  // ---- text ----

  ghost predicate GlyphText(gs: seq<Byte>) {
    forall i :: 0 <= i < |gs| ==> Glyph(gs[i])
  }

  // The cells that hold this text.
  function CellsOf(gs: seq<Byte>, color: Byte): (cells: seq<Cell>)
    ensures |cells| == |gs| && forall i :: 0 <= i < |gs| ==> cells[i] == color * 256 + gs[i]
  {
    seq(|gs|, i requires 0 <= i < |gs| => MakeCell(color, gs[i]))
  }

  // A glyph that fits lands at the cursor's cell, and moves the cursor to the next one.
  lemma GlyphAdvances(s: Con, c: Byte, fg: Byte, bg: Byte)
    requires Agree(s) && Glyph(c) && GlyphAt(s) < CELLS
    ensures var t := Print(s, c, fg, bg);
            && Agree(t) && GlyphAt(t) == GlyphAt(s) + 1 && t.cur == s.cur && t.lines == s.lines
            && Tbuf(t) == Tbuf(s)[GlyphAt(s) := MakeCell(MakeColor(fg, bg), c)]
  {
    DoAgrees(s, OPrint(c, fg, bg));
    CursorAfter(s, c, fg, bg);
    GlyphLands(s, c, fg, bg);
    PrintKeeps(s, c, fg, bg);
  }

  /** Text that fits the screen, printed from any cursor: its glyphs take the consecutive cells from the cursor on,
    * across the ends of rows, and no other cell changes; the cursor ends behind the last one. */
  lemma {:induction false} TextLands(s: Con, gs: seq<Byte>, fg: Byte, bg: Byte)
    requires Agree(s) && GlyphText(gs) && GlyphAt(s) + |gs| <= 2000
    ensures |Tbuf(s)| == 2000
    ensures var (t, p) := (PrintAll(s, gs, fg, bg), GlyphAt(s));
            && Agree(t) && GlyphAt(t) == p + |gs| && t.lines == s.lines
            && Tbuf(t) == Tbuf(s)[..p] + CellsOf(gs, MakeColor(fg, bg)) + Tbuf(s)[p + |gs|..]
    decreases |gs|
  {
    var p := GlyphAt(s);
    if gs == [] {
      assert Tbuf(s) == Tbuf(s)[..p] + [] + Tbuf(s)[p..];
    } else {
      var t, cell := Print(s, gs[0], fg, bg), MakeCell(MakeColor(fg, bg), gs[0]);
      assert Glyph(gs[0]);
      GlyphAdvances(s, gs[0], fg, bg);
      TextLands(t, gs[1..], fg, bg);
      assert PrintAll(s, gs, fg, bg) == PrintAll(t, gs[1..], fg, bg);
      TextStep(Tbuf(s), Tbuf(t), Tbuf(PrintAll(t, gs[1..], fg, bg)), p, gs, MakeColor(fg, bg));
    }
  }

  lemma TextStep(b: seq<Cell>, b1: seq<Cell>, b2: seq<Cell>, p: nat, gs: seq<Byte>, color: Byte)
    requires gs != [] && p + |gs| <= |b| && b1 == b[p := MakeCell(color, gs[0])]
    requires b2 == b1[..p + 1] + CellsOf(gs[1..], color) + b1[p + 1 + |gs[1..]|..]
    ensures b2 == b[..p] + CellsOf(gs, color) + b[p + |gs|..]
  {
    CellsStep(b, p, gs, color);
  }

  lemma CellsStep(b: seq<Cell>, p: nat, gs: seq<Byte>, color: Byte)
    requires gs != [] && p + |gs| <= |b|
    ensures var b' := b[p := MakeCell(color, gs[0])];
            b'[..p + 1] + CellsOf(gs[1..], color) + b'[p + |gs|..] == b[..p] + CellsOf(gs, color) + b[p + |gs|..]
  {
  }

  /** Where a glyph goes is the cursor's own cell, or the first cell of the next row. */
  lemma GlyphAtIs(s: Con)
    ensures s.col < 80 ==> GlyphAt(s) == s.row * 80 + s.col
    ensures s.col >= 80 ==> GlyphAt(s) == (s.row + 1) * 80
  {
  }

  // ---- the cursor keys ----

  /** LEFT and RIGHT go to the neighbouring cell, across the ends of rows, and stop at the corners; UP and DOWN keep the
    * column and stop at the edges, where they move the view instead. */
  lemma CursorKeys(s: Con)
    requires Agree(s) && s.col < 80
    ensures var at := s.row * 80 + s.col;
            && (var t := CursorRight(s);
                t == s.(row := t.row, col := t.col) && t.col < 80 &&
                t.row * 80 + t.col == if at < 1999 then at + 1 else at)
            && (var t := CursorLeft(s);
                t == s.(row := t.row, col := t.col) && t.col < 80 &&
                t.row * 80 + t.col == if at > 0 then at - 1 else at)
    ensures if s.row > 0 then CursorUp(s) == s.(row := s.row - 1) else CursorUp(s) == ViewUp(s).(row := 0)
    ensures if s.row < 24 then CursorDown(s) == s.(row := s.row + 1) else CursorDown(s) == ViewDown(s).(row := 24)
  {
  }

  // ---- the history view ----

  /** What the view keeps to itself: cursor, colours and terminals. */
  lemma ViewKeepsCursor(s: Con)
    requires Agree(s)
    ensures var t := ViewUp(s); At(t, s.row, s.col) && t.color == s.color && t.cur == s.cur
    ensures var t := ViewDown(s); At(t, s.row, s.col) && t.color == s.color && t.cur == s.cur
    ensures |s.lines| == 0 ==> ViewUp(s) == s
    ensures !s.viewing ==> ViewDown(s) == s
    ensures s.viewing && s.offset == 0 ==> ViewDown(s).offset == 0
  {
  }

  /** Every one of the last thousand lines saved can be brought into the view. */
  lemma EveryLineInReach(lines: seq<Line>, k: nat) returns (offset: nat, r: nat)
    requires k < |lines| <= k + 1000 && forall i :: 0 <= i < |lines| ==> |lines[i]| == WIDTH
    ensures ViewOk(lines, offset) && offset <= MaxInt(0, Kept(lines) - (HEIGHT - 1))
    ensures r < 24 && r < Window(lines) && ViewLine(lines, offset, r) == lines[k]
  {
    var n := Window(lines);
    if k + n >= |lines| {
      offset, r := 0, k + n - |lines|;
    } else {
      offset, r := |lines| - n - k, 0;
    }
  }

  /** Below the lines of the view stands the prompt, in the middle of its row, in yellow on black; the rest is blank. */
  lemma ViewPrompt(lines: seq<Line>, offset: int, i: nat)
    requires ViewOk(lines, offset) && Window(lines) * 80 <= i < 2000
    ensures var p := Window(lines) * 80 + 20;
            var text := "(History View - Press any key to return)";
            |text| == 40 &&
            ViewImage(lines, offset)[i] == if p <= i < p + 40 then 0x0E00 + text[i - p] as nat % 256 else 0x0720
  {
  }
}
