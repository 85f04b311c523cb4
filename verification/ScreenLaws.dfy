/** What every run of console operations keeps: the copies of the screen agree, the history view loses nothing, and
  * terminals are isolated up to one corner. */
module ScreenLaws {
  import opened Screen

  /** The backup is the current terminal's buffer, and so is the screen unless the history is being viewed. */
  ghost predicate Agree(s: Con) {
    && Shape(s) && OffsetOk(s)
    && s.backup == Tbuf(s)
    && (!s.viewing ==> Shown(s) == Tbuf(s))
  }

  datatype Op =
    | OPrint(c: Byte, fg: Byte, bg: Byte)
    | OClear
    | OSwitch(n: int)
    | OUp | ODown | OLeft | ORight
    | OScrollUp | OScrollDown
    | OColor(cfg: Byte, cbg: Byte)
    | ORow(r: Byte)
    | OCol(k: Byte)

  function Do(s: Con, op: Op): (t: Con)
    requires Shape(s) && OffsetOk(s)
    ensures Shape(t)
  {
    match op
    case OPrint(c, fg, bg) => Print(s, c, fg, bg)
    case OClear => Clear(s)
    case OSwitch(n) => Switch(s, n)
    case OUp => CursorUp(s)
    case ODown => CursorDown(s)
    case OLeft => CursorLeft(s)
    case ORight => CursorRight(s)
    case OScrollUp => ScrollUp(s)
    case OScrollDown => ScrollDown(s)
    case OColor(fg, bg) => SetColor(s, fg, bg)
    case ORow(r) => if r < HEIGHT then s.(row := r) else s
    case OCol(k) => if k < WIDTH then s.(col := k) else s
  }

  // ---- the copies agree ----

  /** console_init: whatever the screen held at boot, the copies agree afterwards. */
  lemma ClearAgrees(s: Con)
    requires Shape(s)
    ensures Agree(Clear(s))
  {
  }

  lemma LeaveViewAgrees(s: Con)
    requires Agree(s)
    ensures Agree(LeaveView(s)) && !LeaveView(s).viewing && Tbuf(LeaveView(s)) == Tbuf(s)
  {
  }

  lemma AdvanceAgrees(s: Con, c: Byte)
    requires Shape(s) && Shown(s) == Tbuf(s)
    ensures var t := Advance(s, c).(row := 0); Shown(t) == Tbuf(t)
  {
    var t := Advance(s, c).(row := 0);
    forall i | 0 <= i < CELLS ensures Shown(t)[i] == Tbuf(t)[i] {
      assert Shown(s)[i] == Tbuf(s)[i];
    }
  }

  lemma PrintAgrees(s: Con, c: Byte, fg: Byte, bg: Byte)
    requires Agree(s)
    ensures Agree(Print(s, c, fg, bg))
  {
    var s1 := LeaveView(s);
    LeaveViewAgrees(s);
    AdvanceAgrees(SetColor(s1, fg, bg), c);
  }

  lemma SwitchAgrees(s: Con, n: int)
    requires Agree(s)
    ensures Agree(Switch(s, n))
  {
  }

  lemma ScrollsAgree(s: Con)
    requires Agree(s)
    ensures Agree(ScrollUp(s)) && Agree(ScrollDown(s))
  {
  }

  lemma ViewsAgree(s: Con)
    requires Agree(s)
    ensures Agree(ViewUp(s)) && Agree(ViewDown(s))
  {
  }

  function RunOps(s: Con, ops: seq<Op>): (t: Con)
    requires Agree(s)
    ensures Agree(t)
    decreases |ops|
  {
    if ops == [] then s
    else
      DoAgrees(s, ops[0]);
      RunOps(Do(s, ops[0]), ops[1..])
  }

  /** Every operation keeps the copies in agreement. */
  lemma DoAgrees(s: Con, op: Op)
    requires Agree(s)
    ensures Agree(Do(s, op))
  {
    match op
    case OPrint(c, fg, bg) => PrintAgrees(s, c, fg, bg);
    case OClear => ClearAgrees(s);
    case OSwitch(n) => SwitchAgrees(s, n);
    case OUp => CursorUpAgrees(s);
    case ODown => CursorDownAgrees(s);
    case OScrollUp => ScrollsAgree(s);
    case OScrollDown => ScrollsAgree(s);
    case OLeft => CursorSideAgrees(s);
    case ORight => CursorSideAgrees(s);
    case OColor(fg, bg) => ColorAgrees(s, fg, bg);
    case ORow(r) => CursorSet(s, r, s.col);
    case OCol(k) => CursorSet(s, s.row, k);
  }

  lemma ColorAgrees(s: Con, fg: Byte, bg: Byte)
    requires Agree(s)
    ensures Agree(SetColor(s, fg, bg))
  {
  }

  lemma CursorSet(s: Con, row: Byte, col: Byte)
    requires Agree(s)
    ensures row < HEIGHT ==> Agree(s.(row := row)) && Agree(s.(row := row, col := col))
    ensures Agree(s.(col := col))
  {
    if row < HEIGHT {
      CursorMoved(s, row, s.col);
      CursorMoved(s, row, col);
    }
    CursorMoved(s, s.row, col);
  }

  lemma CursorMoved(s: Con, row: Byte, col: Byte)
    requires Agree(s) && row < HEIGHT
    ensures Agree(s.(row := row, col := col))
  {
  }

  lemma CursorUpAgrees(s: Con)
    requires Agree(s)
    ensures Agree(CursorUp(s))
  {
    if s.row > 0 {
      CursorMoved(s, s.row - 1, s.col);
    } else {
      ViewsAgree(s);
      CursorMoved(ViewUp(s), 0, ViewUp(s).col);
    }
  }

  lemma CursorDownAgrees(s: Con)
    requires Agree(s)
    ensures Agree(CursorDown(s))
  {
    if s.row < HEIGHT - 1 {
      CursorMoved(s, s.row + 1, s.col);
    } else {
      ViewsAgree(s);
      CursorMoved(ViewDown(s), HEIGHT - 1, ViewDown(s).col);
    }
  }

  lemma CursorSideAgrees(s: Con)
    requires Agree(s)
    ensures Agree(CursorLeft(s)) && Agree(CursorRight(s))
  {
    CursorMoved(s, CursorLeft(s).row, CursorLeft(s).col);
    CursorMoved(s, CursorRight(s).row, CursorRight(s).col);
  }

  // ---- the history view loses nothing ----

  predicate CursorKey(op: Op) {
    op == OUp || op == ODown || op == OLeft || op == ORight
  }

  lemma CursorKeyKeeps(s: Con, op: Op)
    requires Agree(s) && CursorKey(op)
    ensures var t := Do(s, op);
            t.tty == s.tty && t.backup == s.backup && t.lines == s.lines && t.cur == s.cur
  {
    if op == ODown && s.viewing && s.offset == 0 {
      RestoreSame(s);
    }
  }

  lemma RestoreSame(s: Con)
    requires Shape(s) && s.backup == Tbuf(s)
    ensures Restore(s).tty == s.tty
  {
  }

  /** Entering the view, scrolling in it and leaving it: the buffers and the history are as before, and once the
    * view is left the screen shows again what the terminal holds. */
  lemma {:induction false} ViewingLosesNothing(s: Con, ops: seq<Op>)
    requires Agree(s) && forall i :: 0 <= i < |ops| ==> CursorKey(ops[i])
    ensures var t := RunOps(s, ops);
            && t.tty == s.tty && t.lines == s.lines && t.backup == s.backup
            && (!s.viewing && !t.viewing ==> Shown(t) == Shown(s))
    decreases |ops|
  {
    if ops != [] {
      CursorKeyKeeps(s, ops[0]);
      DoAgrees(s, ops[0]);
      ViewKept(Do(s, ops[0]), ops[1..]);
    }
  }

  lemma {:induction false} ViewKept(s: Con, ops: seq<Op>)
    requires Agree(s) && forall i :: 0 <= i < |ops| ==> CursorKey(ops[i])
    ensures var t := RunOps(s, ops);
            t.tty == s.tty && t.lines == s.lines && t.backup == s.backup && t.cur == s.cur
    decreases |ops|
  {
    if ops != [] {
      CursorKeyKeeps(s, ops[0]);
      DoAgrees(s, ops[0]);
      ViewKept(Do(s, ops[0]), ops[1..]);
    }
  }

  /** Any character printed while the history is viewed first brings the terminal's own content back. */
  lemma PrintLeavesView(s: Con, c: Byte, fg: Byte, bg: Byte)
    requires Agree(s)
    ensures !Print(s, c, fg, bg).viewing
    ensures Print(s, c, fg, bg) == Print(LeaveView(s), c, fg, bg) && Shown(LeaveView(s)) == Tbuf(s)
  {
    LeaveViewAgrees(s);
  }

  // ---- isolation of terminals ----

  // A visible character, as opposed to newline, return and tab.
  predicate Glyph(c: Byte) {
    c != 10 && c != 13 && c != 9
  }

  /** A glyph printed at the bottom-right corner is computed into a row below the screen. */
  predicate Corner(s: Con, c: Byte) {
    Glyph(c) && s.row == HEIGHT - 1 && s.col >= WIDTH
  }

  lemma SpliceElsewhere(a: seq<Cell>, at: nat, b: seq<Cell>, lo: nat, hi: nat)
    requires at + |b| <= |a| && lo <= hi <= |a| && (hi <= at || at + |b| <= lo)
    ensures Splice(a, at, b)[lo..hi] == a[lo..hi]
  {
  }

  lemma PutElsewhere(s: Con, content: seq<Cell>, t: nat)
    requires Shape(s) && |content| == CELLS && t < TTY_COUNT && t != s.cur
    ensures Buffer(Put(s, content), t) == Buffer(s, t)
  {
    SpliceElsewhere(s.tty, s.cur * CELLS, content, t * CELLS, t * CELLS + CELLS);
  }

  // What Advance stores into the buffer of another terminal.
  lemma AdvanceElsewhere(s: Con, c: Byte, t: nat)
    requires Shape(s) && t < TTY_COUNT && t != s.cur
    ensures var s' := Advance(s, c).(row := 0);
            Buffer(s', t) ==
              if Corner(s, c) && t == s.cur + 1 then Buffer(s, t)[0 := MakeCell(s.color, c)] else Buffer(s, t)
  {
  }

  /** Printing changes another terminal's buffer only at the corner, and then only cell 0 of the next terminal. */
  lemma PrintElsewhere(s: Con, c: Byte, fg: Byte, bg: Byte, t: nat)
    requires Agree(s) && t < TTY_COUNT && t != s.cur
    ensures Buffer(Print(s, c, fg, bg), t) ==
              if Corner(s, c) && t == s.cur + 1 then Buffer(s, t)[0 := MakeCell(MakeColor(fg, bg), c)]
              else Buffer(s, t)
  {
    var s1 := LeaveView(s);
    if s.viewing {
      PutElsewhere(s.(viewing := false, offset := 0), s.backup, t);
    }
    var s2 := SetColor(s1, fg, bg);
    AdvanceElsewhere(s2, c, t);
    var s3 := Advance(s2, c);
    if s3.row >= HEIGHT {
      var s4 := SaveLine(s3.(row := HEIGHT - 1, col := 0), 0);
      PutElsewhere(s4, Tbuf(s4)[WIDTH..] + Blank(s4.color), t);
    }
  }

  /** Printing leaves the buffers of all other terminals alone if and only if the cursor is not past the last column
    * of the last row of a terminal that has a successor, or the cell that is hit already holds the glyph. */
  lemma PrintIsolation(s: Con, c: Byte, fg: Byte, bg: Byte)
    requires Agree(s)
    ensures (forall t :: 0 <= t < TTY_COUNT && t != s.cur ==> Buffer(Print(s, c, fg, bg), t) == Buffer(s, t))
            <==>
            !(Corner(s, c) && s.cur + 1 < TTY_COUNT && Buffer(s, s.cur + 1)[0] != MakeCell(MakeColor(fg, bg), c))
  {
    forall t | 0 <= t < TTY_COUNT && t != s.cur
      ensures Buffer(Print(s, c, fg, bg), t) ==
                if Corner(s, c) && t == s.cur + 1 then Buffer(s, t)[0 := MakeCell(MakeColor(fg, bg), c)]
                else Buffer(s, t)
    {
      PrintElsewhere(s, c, fg, bg, t);
    }
    if Corner(s, c) && s.cur + 1 < TTY_COUNT {
      var t := s.cur + 1;
      assert Buffer(s, t)[0 := MakeCell(MakeColor(fg, bg), c)][0] == MakeCell(MakeColor(fg, bg), c);
    }
  }

  /** At the corner the glyph itself is lost: the screen scrolls, and no cell of the current terminal holds it
    * that did not hold the cell below already. */
  lemma CornerLosesGlyph(s: Con, c: Byte, fg: Byte, bg: Byte)
    requires Agree(s) && !s.viewing && Corner(s, c)
    ensures Tbuf(Print(s, c, fg, bg)) == Tbuf(s)[WIDTH..] + Blank(MakeColor(fg, bg))
  {
    var s2 := SetColor(s, fg, bg);
    var s3 := Advance(s2, c);
    var s4 := SaveLine(s3.(row := HEIGHT - 1, col := 0), 0);
    assert Tbuf(s4) == Tbuf(s);
  }

  // ---- what a glyph does elsewhere ----

  /** Away from the corner a glyph lands at the cursor, wrapped to the next row if need be, and nothing else of the
    * current terminal changes. */
  lemma GlyphLands(s: Con, c: Byte, fg: Byte, bg: Byte)
    requires Agree(s) && Glyph(c) && !Corner(s, c)
    ensures var at := GlyphAt(s);
            && at < CELLS
            && Tbuf(Print(s, c, fg, bg)) == Tbuf(s)[at := MakeCell(MakeColor(fg, bg), c)]
            && Print(s, c, fg, bg).lines == s.lines
  {
    LeaveViewAgrees(s);
    var s2 := SetColor(LeaveView(s), fg, bg);
    var t := Advance(s2, c);
    AdvanceTbuf(s2, c);
    assert t.row < HEIGHT && t.lines == s.lines;
    Unscrolled(t, s.color);
  }

  // The tail of printing without scrolling.
  lemma Unscrolled(t: Con, color: Byte)
    requires Shape(t)
    ensures var u := Backup(t.(color := color, ttyColor := t.ttyColor[t.cur := color]));
            Tbuf(u) == Tbuf(t) && u.lines == t.lines
  {
  }

  // Where a glyph is stored, and what it leaves of the current terminal.
  function GlyphAt(s: Con): nat {
    if s.col >= WIDTH then (s.row + 1) * WIDTH else s.row * WIDTH + s.col
  }

  lemma AdvanceTbuf(s: Con, c: Byte)
    requires Shape(s)
    ensures Tbuf(Advance(s, c).(row := 0)) ==
            if Glyph(c) && GlyphAt(s) < CELLS then Tbuf(s)[GlyphAt(s) := MakeCell(s.color, c)] else Tbuf(s)
  {
    if Glyph(c) && GlyphAt(s) < CELLS {
      StoredAt(s.tty, s.cur, GlyphAt(s), MakeCell(s.color, c));
    }
  }

  lemma StoredAt(tty: seq<Cell>, k: nat, at: nat, cell: Cell)
    requires k < TTY_COUNT && |tty| == TTY_COUNT * CELLS + 1 && at < CELLS
    ensures k * CELLS + CELLS < |tty|
    ensures tty[k * CELLS + at := cell][k * CELLS..k * CELLS + CELLS] == tty[k * CELLS..k * CELLS + CELLS][at := cell]
  {
  }

  // ---- the history view as a window on all saved lines ----

  /** Row r of the view, cell by cell: line w - min(24, count) - offset + r of the w saved ones, with the cells that
    * are not printable blanked. */
  lemma ViewRow(lines: seq<Line>, offset: int, r: nat, k: nat)
    requires ViewOk(lines, offset) && r < Window(lines) && k < WIDTH
    ensures 0 <= |lines| - Window(lines) - offset + r < |lines|
    ensures var cell := lines[|lines| - Window(lines) - offset + r][k];
            ViewImage(lines, offset)[r * WIDTH + k] == if 32 <= cell % 256 <= 126 then cell else 0x0720
    ensures Window(lines) == if |lines| < 24 then |lines| else 24
    ensures Kept(lines) == if |lines| < 1000 then |lines| else 1000
  {
    var i := r * WIDTH + k;
    assert i / WIDTH == r && i % WIDTH == k;
    assert ViewImage(lines, offset)[i] == ViewCell(lines, offset, i);
  }

  // The offset a step up or down leads to.
  ghost predicate OffsetAfter(s: Con, t: Con)
    requires Shape(t)
  {
    && t.lines == s.lines && t.viewing && ViewOk(t.lines, t.offset)
    && Shown(t) == ViewImage(t.lines, t.offset)
  }

  /** Entering the view shows the newest lines; scrolling shows the window one line further, as far as lines are
    * kept; scrolling back from the newest lines leaves the view. */
  lemma ViewMoves(s: Con)
    requires Agree(s) && Kept(s.lines) > 0
    ensures OffsetAfter(s, ViewUp(s))
    ensures ViewUp(s).offset ==
            if s.viewing then MinInt(s.offset + 1, MaxInt(0, Kept(s.lines) - (HEIGHT - 1))) else 0
    ensures s.viewing ==> if s.offset > 0 then OffsetAfter(s, ViewDown(s)) && ViewDown(s).offset == s.offset - 1
                          else !ViewDown(s).viewing && Shown(ViewDown(s)) == Tbuf(s)
  {
    var (image, spill) := (ViewImage(ViewUp(s).lines, ViewUp(s).offset), s.vga[CELLS]);
    assert (image + [spill])[..CELLS] == image;
    if s.viewing && s.offset > 0 {
      var image' := ViewImage(s.lines, s.offset - 1);
      assert (image' + [spill])[..CELLS] == image';
    }
  }
}
