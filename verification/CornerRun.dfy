/** From a cleared screen, 24 newlines and 80 glyphs lead to the corner at which the next glyph is printed into the
  * first cell of the next terminal. */
module CornerRun {
  import opened Screen
  import opened ScreenLaws

  function Repeat(c: Byte, n: nat): seq<Byte> {
    seq(n, i => c)
  }

  // The buffers of the other terminals are the same.
  ghost predicate OthersSame(s: Con, t: Con)
    requires Shape(s) && Shape(t)
  {
    t.cur == s.cur && forall u :: 0 <= u < TTY_COUNT && u != s.cur ==> Buffer(t, u) == Buffer(s, u)
  }

  // The cursor at a place of a screen that is not viewing its history.
  ghost predicate CursorAt(s: Con, row: nat, col: nat) {
    Agree(s) && !s.viewing && s.row == row && s.col == col
  }

  lemma OthersSameTrans(s: Con, t: Con, u: Con)
    requires Shape(s) && Shape(t) && Shape(u) && OthersSame(s, t) && OthersSame(t, u)
    ensures OthersSame(s, u)
  {
  }

  lemma ElsewhereSame(s: Con, c: Byte, fg: Byte, bg: Byte)
    requires Agree(s) && !Corner(s, c)
    ensures OthersSame(s, Print(s, c, fg, bg))
  {
    forall u | 0 <= u < TTY_COUNT && u != s.cur ensures Buffer(Print(s, c, fg, bg), u) == Buffer(s, u) {
      PrintElsewhere(s, c, fg, bg, u);
    }
  }

  lemma NewlineStep(s: Con, fg: Byte, bg: Byte)
    requires Agree(s) && !s.viewing && s.row < HEIGHT - 1
    ensures CursorAt(Print(s, 10, fg, bg), s.row + 1, 0) && OthersSame(s, Print(s, 10, fg, bg))
  {
    DoAgrees(s, OPrint(10, fg, bg));
    ElsewhereSame(s, 10, fg, bg);
  }

  lemma GlyphStep(s: Con, c: Byte, fg: Byte, bg: Byte)
    requires Agree(s) && !s.viewing && Glyph(c) && s.col < WIDTH
    ensures CursorAt(Print(s, c, fg, bg), s.row, s.col + 1) && OthersSame(s, Print(s, c, fg, bg))
  {
    DoAgrees(s, OPrint(c, fg, bg));
    ElsewhereSame(s, c, fg, bg);
  }

  lemma {:induction false} Newlines(s: Con, n: nat, fg: Byte, bg: Byte)
    requires CursorAt(s, s.row, 0) && s.row + n < HEIGHT
    ensures var t := PrintAll(s, Repeat(10, n), fg, bg);
            CursorAt(t, s.row + n, 0) && OthersSame(s, t)
    decreases n
  {
    if n > 0 {
      NewlineStep(s, fg, bg);
      var t := Print(s, 10, fg, bg);
      Newlines(t, n - 1, fg, bg);
      assert Repeat(10, n)[1..] == Repeat(10, n - 1);
      OthersSameTrans(s, t, PrintAll(t, Repeat(10, n - 1), fg, bg));
    }
  }

  lemma {:induction false} Glyphs(s: Con, c: Byte, n: nat, fg: Byte, bg: Byte)
    requires CursorAt(s, s.row, s.col) && Glyph(c) && s.col + n <= WIDTH
    ensures var t := PrintAll(s, Repeat(c, n), fg, bg);
            CursorAt(t, s.row, s.col + n) && OthersSame(s, t)
    decreases n
  {
    if n > 0 {
      GlyphStep(s, c, fg, bg);
      var t := Print(s, c, fg, bg);
      Glyphs(t, c, n - 1, fg, bg);
      assert Repeat(c, n)[1..] == Repeat(c, n - 1);
      OthersSameTrans(s, t, PrintAll(t, Repeat(c, n - 1), fg, bg));
    }
  }

  lemma {:induction false} PrintBoth(s: Con, a: seq<Byte>, b: seq<Byte>, fg: Byte, bg: Byte)
    requires Shape(s)
    ensures PrintAll(s, a + b, fg, bg) == PrintAll(PrintAll(s, a, fg, bg), b, fg, bg)
    decreases |a|
  {
    if a == [] {
      assert a + b == b;
    } else {
      assert (a + b)[1..] == a[1..] + b;
      PrintBoth(Print(s, a[0], fg, bg), a[1..], b, fg, bg);
    }
  }

  lemma ClearElsewhere(s: Con)
    requires Shape(s)
    ensures CursorAt(Clear(s), 0, 0) && OthersSame(s, Clear(s))
  {
    ClearAgrees(s);
    var s1 := SaveRows(s, 0);
    forall u | 0 <= u < TTY_COUNT && u != s.cur ensures Buffer(Clear(s), u) == Buffer(s, u) {
      PutElsewhere(s1, Fill(MakeCell(s1.color, SPACE), CELLS), u);
    }
  }

  // Going from one buffer to the other set the first cell, and no other.
  predicate FirstCellSet(was: seq<Cell>, now: seq<Cell>, cell: Cell) {
    |was| == CELLS && now == was[0 := cell]
  }

  // From the first cell of the screen.
  lemma ToCorner(s: Con, c: Byte, fg: Byte, bg: Byte)
    requires CursorAt(s, 0, 0) && Glyph(c)
    ensures var t := PrintAll(s, Repeat(10, HEIGHT - 1) + Repeat(c, WIDTH), fg, bg);
            CursorAt(t, HEIGHT - 1, WIDTH) && OthersSame(s, t)
  {
    var s2 := PrintAll(s, Repeat(10, HEIGHT - 1), fg, bg);
    Newlines(s, HEIGHT - 1, fg, bg);
    Glyphs(s2, c, WIDTH, fg, bg);
    PrintBoth(s, Repeat(10, HEIGHT - 1), Repeat(c, WIDTH), fg, bg);
    OthersSameTrans(s, s2, PrintAll(s2, Repeat(c, WIDTH), fg, bg));
  }

  /** Whatever the console held: after clear_screen, the text leads to the corner and keeps the other terminals; the
    * next glyph then changes the first cell of the next terminal, unless that cell holds the glyph already. */
  lemma CornerReached(s: Con, c: Byte, fg: Byte, bg: Byte)
    requires Shape(s) && Glyph(c)
    ensures var t := PrintAll(Clear(s), Repeat(10, HEIGHT - 1) + Repeat(c, WIDTH), fg, bg);
            && Agree(t) && Corner(t, c) && OthersSame(s, t)
            && (s.cur + 1 < TTY_COUNT ==>
                  FirstCellSet(Buffer(s, s.cur + 1), Buffer(Print(t, c, fg, bg), s.cur + 1),
                               MakeCell(MakeColor(fg, bg), c)))
  {
    ClearElsewhere(s);
    ToCorner(Clear(s), c, fg, bg);
    var t := PrintAll(Clear(s), Repeat(10, HEIGHT - 1) + Repeat(c, WIDTH), fg, bg);
    OthersSameTrans(s, Clear(s), t);
    if s.cur + 1 < TTY_COUNT {
      CornerPrinted(t, c, fg, bg);
      assert Buffer(t, s.cur + 1) == Buffer(s, s.cur + 1);
    }
  }

  lemma CornerPrinted(t: Con, c: Byte, fg: Byte, bg: Byte)
    requires Agree(t) && Corner(t, c) && t.cur + 1 < TTY_COUNT
    ensures FirstCellSet(Buffer(t, t.cur + 1), Buffer(Print(t, c, fg, bg), t.cur + 1),
                         MakeCell(MakeColor(fg, bg), c))
  {
    PrintElsewhere(t, c, fg, bg, t.cur + 1);
  }
}
