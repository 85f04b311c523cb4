/** The console as a value: what is on the screen, in the terminal buffers and in the backup, and every operation
  * on them. The history is given by all lines ever saved; the console itself keeps the last 1000 of them. */
module Screen {

  type Cell = c: nat | c < 0x1_0000 witness 0
  type Byte = b: nat | b < 0x100 witness 0
  type Line = seq<Cell>

  const WIDTH: nat := 80
  const HEIGHT: nat := 25
  const CELLS: nat := 2000
  const TTY_COUNT: nat := 4
  const HISTORY_SIZE: nat := 1000

  /** `vga` and `tty` have one cell more than the screen and the four buffers: the cell that an index one past the
    * end reaches. */
  datatype Con = Con(
    vga: seq<Cell>, tty: seq<Cell>, backup: seq<Cell>, lines: seq<Line>,
    row: Byte, col: Byte, color: Byte,
    cur: nat, ttyRow: seq<Byte>, ttyCol: seq<Byte>, ttyColor: seq<Byte>,
    viewing: bool, offset: int)

  predicate Shape(s: Con) {
    && |s.vga| == CELLS + 1 && |s.tty| == TTY_COUNT * CELLS + 1 && |s.backup| == CELLS
    && s.cur < TTY_COUNT && |s.ttyRow| == |s.ttyCol| == |s.ttyColor| == TTY_COUNT
    && s.row < HEIGHT
    && (forall i :: 0 <= i < TTY_COUNT ==> s.ttyRow[i] < HEIGHT)
    && (forall i :: 0 <= i < |s.lines| ==> |s.lines[i]| == WIDTH)
  }

  function Splice(a: seq<Cell>, at: nat, b: seq<Cell>): (r: seq<Cell>)
    requires at + |b| <= |a|
    ensures |r| == |a|
  {
    a[..at] + b + a[at + |b|..]
  }

  function Fill(c: Cell, n: nat): (r: seq<Cell>)
    ensures |r| == n && forall i :: 0 <= i < n ==> r[i] == c
  {
    seq(n, i => c)
  }

  function Shown(s: Con): seq<Cell>
    requires Shape(s)
  {
    s.vga[..CELLS]
  }

  // The buffer of terminal t.
  function Buffer(s: Con, t: nat): seq<Cell>
    requires Shape(s) && t < TTY_COUNT
  {
    s.tty[t * CELLS..t * CELLS + CELLS]
  }

  function Tbuf(s: Con): seq<Cell>
    requires Shape(s)
  {
    Buffer(s, s.cur)
  }

  function MakeColor(fg: Byte, bg: Byte): Byte {
    bg % 16 * 16 + fg % 16
  }

  function MakeCell(color: Byte, ch: Byte): Cell {
    color * 256 + ch
  }

  const SPACE: Byte := 32

  // ---- pieces ----

  function SaveLine(s: Con, r: nat): (t: Con)
    requires Shape(s) && r < HEIGHT
    ensures Shape(t)
  {
    s.(lines := s.lines + [s.vga[r * WIDTH..r * WIDTH + WIDTH]])
  }

  // Saving rows r, r+1, ..., 24.
  function SaveRows(s: Con, r: nat): (t: Con)
    requires Shape(s) && r <= HEIGHT
    ensures Shape(t) && t == s.(lines := t.lines) && |t.lines| == |s.lines| + (HEIGHT - r)
    decreases HEIGHT - r
  {
    if r == HEIGHT then s else SaveRows(SaveLine(s, r), r + 1)
  }

  function Backup(s: Con): (t: Con)
    requires Shape(s)
    ensures Shape(t)
  {
    s.(backup := Shown(s))
  }

  // The screen and the current buffer both take this content.
  function Put(s: Con, content: seq<Cell>): (t: Con)
    requires Shape(s) && |content| == CELLS
    ensures Shape(t) && Shown(t) == content && Tbuf(t) == content
  {
    assert s.cur * CELLS + CELLS <= |s.tty|;
    s.(vga := Splice(s.vga, 0, content), tty := Splice(s.tty, s.cur * CELLS, content))
  }

  function Restore(s: Con): (t: Con)
    requires Shape(s)
    ensures Shape(t)
  {
    Put(s, s.backup)
  }

  function Blank(color: Byte): Line {
    Fill(MakeCell(color, SPACE), WIDTH)
  }

  // The current terminal moved up by a row, moved down by a row, and emptied.
  function RowsUp(s: Con): (t: Con)
    requires Shape(s)
    ensures Shape(t)
  {
    Put(s, Tbuf(s)[WIDTH..] + Blank(s.color))
  }

  function RowsDown(s: Con): (t: Con)
    requires Shape(s)
    ensures Shape(t)
  {
    Put(s, Blank(s.color) + Tbuf(s)[..CELLS - WIDTH])
  }

  function Wipe(s: Con): (t: Con)
    requires Shape(s)
    ensures Shape(t)
  {
    Put(s, Fill(MakeCell(s.color, SPACE), CELLS))
  }

  /** scroll_screen */
  function Scroll(s: Con): (t: Con)
    requires Shape(s.(row := 0))
    ensures Shape(t)
  {
    Backup(RowsUp(SaveLine(s.(row := HEIGHT - 1, col := 0), 0)))
  }

  /** clear_screen */
  function Clear(s: Con): (t: Con)
    requires Shape(s)
    ensures Shape(t)
  {
    Backup(Wipe(SaveRows(s, 0)).(row := 0, col := 0)).(viewing := false)
  }

  function SetColor(s: Con, fg: Byte, bg: Byte): (t: Con)
    requires Shape(s)
    ensures Shape(t)
  {
    s.(color := MakeColor(fg, bg), ttyColor := s.ttyColor[s.cur := MakeColor(fg, bg)])
  }

  // Printing leaves the history view first.
  function LeaveView(s: Con): (t: Con)
    requires Shape(s)
    ensures Shape(t)
  {
    if s.viewing then Restore(s.(viewing := false, offset := 0)) else s
  }

  // The effect of one character on cursor and cells, before any scrolling; the row may reach 25.
  function Advance(s: Con, c: Byte): (t: Con)
    requires Shape(s)
    ensures Shape(t.(row := 0)) && t.row <= HEIGHT
  {
    if c == 10 then s.(row := s.row + 1, col := 0)
    else if c == 13 then s.(col := 0)
    else if c == 9 then s.(col := (s.col + 4) / 4 * 4 % 256)
    else
      var row := if s.col >= WIDTH then s.row + 1 else s.row;
      var col := if s.col >= WIDTH then 0 else s.col;
      var idx := row * WIDTH + col;
      assert idx <= CELLS && s.cur * CELLS + idx < |s.tty|;
      var val := MakeCell(s.color, c);
      s.(tty := s.tty[s.cur * CELLS + idx := val], vga := s.vga[idx := val], row := row, col := col + 1)
  }

  /** print_char_color */
  function Print(s: Con, c: Byte, fg: Byte, bg: Byte): (t: Con)
    requires Shape(s)
    ensures Shape(t)
  {
    var s1 := LeaveView(s);
    var s2 := Advance(SetColor(s1, fg, bg), c);
    var s3 := if s2.row >= HEIGHT then Scroll(s2) else s2;
    Backup(s3.(color := s1.color, ttyColor := s3.ttyColor[s3.cur := s1.color]))
  }

  /** A string printed character by character. */
  function PrintAll(s: Con, str: seq<Byte>, fg: Byte, bg: Byte): (t: Con)
    requires Shape(s)
    ensures Shape(t)
    decreases |str|
  {
    if str == [] then s else PrintAll(Print(s, str[0], fg, bg), str[1..], fg, bg)
  }

  // Cursor and colour of the current terminal are put away, and those of terminal n taken up.
  function Seat(s: Con, n: nat): (t: Con)
    requires Shape(s) && n < TTY_COUNT
    ensures Shape(t)
  {
    var s1 := s.(ttyRow := s.ttyRow[s.cur := s.row], ttyCol := s.ttyCol[s.cur := s.col],
                 ttyColor := s.ttyColor[s.cur := s.color], cur := n);
    s1.(row := s1.ttyRow[n], col := s1.ttyCol[n], color := s1.ttyColor[n])
  }

  // The screen shows the current buffer.
  function Render(s: Con): (t: Con)
    requires Shape(s)
    ensures Shape(t)
  {
    s.(vga := Splice(s.vga, 0, Tbuf(s)))
  }

  /** vt_switch */
  function Switch(s: Con, n: int): (t: Con)
    requires Shape(s)
    ensures Shape(t)
  {
    if n < 0 || n >= TTY_COUNT || n == s.cur then s else Backup(Render(Seat(s, n)))
  }

  // ---- the history view ----

  function Printable(cell: Cell): bool {
    32 <= cell % 256 <= 126
  }

  const DEFAULT_CELL: Cell := 0x0720
  const PROMPT_ATTR: Cell := 0x0E00
  const PROMPT: string := "(History View - Press any key to return)"

  // How many of the lines ever saved the console still has, and how many of them fit the view.
  function Kept(lines: seq<Line>): nat {
    if |lines| < HISTORY_SIZE then |lines| else HISTORY_SIZE
  }

  function Window(lines: seq<Line>): nat {
    if HEIGHT - 1 > Kept(lines) then Kept(lines) else HEIGHT - 1
  }

  predicate ViewOk(lines: seq<Line>, offset: int) {
    0 <= offset <= Kept(lines) - Window(lines) && forall i :: 0 <= i < |lines| ==> |lines[i]| == WIDTH
  }

  /** The line that row r of the view shows: counted from the end of everything saved, shifted by the offset. */
  function ViewLine(lines: seq<Line>, offset: int, r: nat): (l: Line)
    requires ViewOk(lines, offset) && r < Window(lines)
    ensures |l| == WIDTH
  {
    lines[|lines| - Window(lines) - offset + r]
  }

  function ViewCell(lines: seq<Line>, offset: int, i: nat): Cell
    requires ViewOk(lines, offset) && i < CELLS
  {
    var n := Window(lines);
    var p := n * WIDTH + (WIDTH - |PROMPT|) / 2;
    if p <= i < p + |PROMPT| then PROMPT_ATTR + PROMPT[i - p] as nat % 256
    else if i < n * WIDTH && Printable(ViewLine(lines, offset, i / WIDTH)[i % WIDTH]) then
      ViewLine(lines, offset, i / WIDTH)[i % WIDTH]
    else DEFAULT_CELL
  }

  function ViewImage(lines: seq<Line>, offset: int): (v: seq<Cell>)
    requires ViewOk(lines, offset)
    ensures |v| == CELLS && forall i :: 0 <= i < CELLS ==> v[i] == ViewCell(lines, offset, i)
  {
    seq(CELLS, i requires 0 <= i < CELLS => ViewCell(lines, offset, i))
  }

  /** show_history_lines */
  function Show(s: Con): (t: Con)
    requires Shape(s) && ViewOk(s.lines, s.offset)
    ensures Shape(t)
  {
    s.(vga := ViewImage(s.lines, s.offset) + [s.vga[CELLS]])
  }

  function MinInt(a: int, b: int): int {
    if a < b then a else b
  }

  function MaxInt(a: int, b: int): int {
    if a > b then a else b
  }

  /** The offset that scrolling one line further up leads to. */
  function OffsetUp(s: Con): int {
    MaxInt(0, MinInt(s.offset + 1, Kept(s.lines) - (HEIGHT - 1)))
  }

  // While the history is viewed, the offset leaves a window of lines that are still kept.
  ghost predicate OffsetIn(viewing: bool, offset: int, lines: seq<Line>) {
    viewing ==> |lines| > 0 && 0 <= offset <= MaxInt(0, Kept(lines) - (HEIGHT - 1))
  }

  ghost predicate OffsetOk(s: Con) {
    OffsetIn(s.viewing, s.offset, s.lines)
  }

  /** view_history_up */
  function ViewUp(s: Con): (t: Con)
    requires Shape(s)
    ensures Shape(t)
  {
    if Kept(s.lines) == 0 then s
    else if !s.viewing then Show(Backup(s).(viewing := true, offset := 0))
    else Show(s.(offset := OffsetUp(s)))
  }

  /** view_history_down */
  function ViewDown(s: Con): (t: Con)
    requires Shape(s) && OffsetOk(s)
    ensures Shape(t)
  {
    if !s.viewing then s
    else if s.offset - 1 < 0 then Restore(s.(viewing := false, offset := 0))
    else Show(s.(offset := s.offset - 1))
  }

  // ---- cursor keys and scrolling by hand ----

  function CursorUp(s: Con): (t: Con)
    requires Shape(s)
    ensures Shape(t)
  {
    if s.row > 0 then s.(row := s.row - 1) else ViewUp(s).(row := 0)
  }

  function CursorDown(s: Con): (t: Con)
    requires Shape(s) && OffsetOk(s)
    ensures Shape(t)
  {
    if s.row < HEIGHT - 1 then s.(row := s.row + 1) else ViewDown(s).(row := HEIGHT - 1)
  }

  function CursorLeft(s: Con): (t: Con)
    requires Shape(s)
    ensures Shape(t)
  {
    if s.col > 0 then s.(col := s.col - 1)
    else if s.row > 0 then s.(row := s.row - 1, col := WIDTH - 1)
    else s
  }

  function CursorRight(s: Con): (t: Con)
    requires Shape(s)
    ensures Shape(t)
  {
    if s.col < WIDTH - 1 then s.(col := s.col + 1)
    else if s.row < HEIGHT - 1 then s.(row := s.row + 1, col := 0)
    else s
  }

  /** scroll_up */
  function ScrollUp(s: Con): (t: Con)
    requires Shape(s)
    ensures Shape(t)
  {
    var s1 := RowsUp(SaveLine(s, 0));
    Backup(s1.(row := if s1.row > 0 then s1.row - 1 else 0))
  }

  /** scroll_down */
  function ScrollDown(s: Con): (t: Con)
    requires Shape(s)
    ensures Shape(t)
  {
    var s1 := RowsDown(SaveLine(s, HEIGHT - 1));
    Backup(s1.(row := if s1.row < HEIGHT - 1 then s1.row + 1 else s1.row))
  }
}
