/** Runs over several terminals: what each of them holds depends only on what is done while it is the current one. */
module Terminals {
  import opened Screen
  import opened ScreenLaws
  import opened CursorLaws

  /** What a terminal keeps for itself. */
  datatype Term = Term(buffer: seq<Cell>, row: Byte, col: Byte, color: Byte)

  // The current terminal has its cursor and colour in the console's own variables.
  function TermOf(s: Con, t: nat): Term
    requires Shape(s) && t < TTY_COUNT
  {
    if t == s.cur then Term(Buffer(s, t), s.row, s.col, s.color)
    else Term(Buffer(s, t), s.ttyRow[t], s.ttyCol[t], s.ttyColor[t])
  }

  // ---- switching ----

  lemma SwitchKeepsTerms(s: Con, n: int, t: nat)
    requires Shape(s) && t < TTY_COUNT
    ensures TermOf(Switch(s, n), t) == TermOf(s, t)
    ensures Switch(s, n).cur == if 0 <= n < TTY_COUNT then n else s.cur
  {
  }

  /** Switching to another terminal and back restores screen, buffers, backup, cursor and colour. */
  lemma SwitchBack(s: Con, n: int)
    requires Agree(s) && !s.viewing
    ensures var u := Switch(Switch(s, n), s.cur);
            && Shown(u) == Shown(s) && u.tty == s.tty && u.backup == s.backup && u.lines == s.lines
            && u.cur == s.cur && u.row == s.row && u.col == s.col && u.color == s.color && !u.viewing
  {
    SwitchAgrees(s, n);
    SwitchAgrees(Switch(s, n), s.cur);
  }

  // ---- one operation, seen from another terminal ----

  // The glyph that lands in the first cell of terminal t.
  predicate CornerHits(s: Con, op: Op, t: nat) {
    op.OPrint? && Corner(s, op.c) && s.cur + 1 == t
  }

  // Going from s to u kept the current terminal and what terminal t has.
  predicate KeepsTerm(s: Con, u: Con, t: nat)
    requires Shape(s) && Shape(u) && t < TTY_COUNT
  {
    u.cur == s.cur && TermOf(u, t) == TermOf(s, t)
  }

  lemma PrintElsewhereKeeps(s: Con, c: Byte, fg: Byte, bg: Byte, t: nat)
    requires Agree(s) && t < TTY_COUNT && t != s.cur && !(Corner(s, c) && s.cur + 1 == t)
    ensures KeepsTerm(s, Print(s, c, fg, bg), t)
  {
    PrintElsewhere(s, c, fg, bg, t);
    PrintKeeps(s, c, fg, bg);
  }

  lemma ClearElsewhereKeeps(s: Con, t: nat)
    requires Agree(s) && t < TTY_COUNT && t != s.cur
    ensures KeepsTerm(s, Clear(s), t)
  {
    var s1 := SaveRows(s, 0);
    PutElsewhere(s1, Fill(MakeCell(s1.color, SPACE), CELLS), t);
  }

  lemma ScrollElsewhereKeeps(s: Con, t: nat)
    requires Agree(s) && t < TTY_COUNT && t != s.cur
    ensures KeepsTerm(s, ScrollUp(s), t) && KeepsTerm(s, ScrollDown(s), t)
  {
    var s1, s2 := SaveLine(s, 0), SaveLine(s, HEIGHT - 1);
    PutElsewhere(s1, Tbuf(s1)[WIDTH..] + Blank(s1.color), t);
    PutElsewhere(s2, Blank(s2.color) + Tbuf(s2)[..CELLS - WIDTH], t);
  }

  lemma CursorKeyElsewhere(s: Con, op: Op, t: nat)
    requires Agree(s) && t < TTY_COUNT && t != s.cur && CursorKey(op)
    ensures KeepsTerm(s, Do(s, op), t)
  {
    CursorKeyKeeps(s, op);
  }

  lemma OtherTerms(s: Con, op: Op, t: nat)
    requires Agree(s) && t < TTY_COUNT && t != s.cur && !op.OSwitch? && !CornerHits(s, op, t)
    ensures KeepsTerm(s, Do(s, op), t)
  {
    match op
    case OPrint(c, fg, bg) => PrintElsewhereKeeps(s, c, fg, bg, t);
    case OClear => ClearElsewhereKeeps(s, t);
    case OScrollUp => ScrollElsewhereKeeps(s, t);
    case OScrollDown => ScrollElsewhereKeeps(s, t);
    case OUp => CursorKeyElsewhere(s, op, t);
    case ODown => CursorKeyElsewhere(s, op, t);
    case OLeft => CursorKeyElsewhere(s, op, t);
    case ORight => CursorKeyElsewhere(s, op, t);
    case OColor(fg, bg) =>
    case ORow(r) =>
    case OCol(k) =>
  }

  // ---- one operation, seen from the current terminal ----

  // Two consoles whose current terminals are the same.
  predicate SameTerm(s: Con, z: Con)
    requires Shape(s) && Shape(z)
  {
    Tbuf(s) == Tbuf(z) && s.row == z.row && s.col == z.col && s.color == z.color
  }

  lemma AdvanceSame(s: Con, z: Con, c: Byte)
    requires Shape(s) && Shape(z) && SameTerm(s, z)
    ensures Advance(s, c).row == Advance(z, c).row
    ensures SameTerm(Advance(s, c).(row := 0), Advance(z, c).(row := 0))
  {
    AdvanceTbuf(s, c);
    AdvanceTbuf(z, c);
  }

  lemma ScrollSame(s: Con, z: Con)
    requires Shape(s.(row := 0)) && Shape(z.(row := 0)) && SameTerm(s.(row := 0), z.(row := 0))
    ensures SameTerm(Scroll(s), Scroll(z))
  {
    var (s1, z1) := (SaveLine(s.(row := HEIGHT - 1, col := 0), 0), SaveLine(z.(row := HEIGHT - 1, col := 0), 0));
    assert Tbuf(s1) == Tbuf(s.(row := 0)) && Tbuf(z1) == Tbuf(z.(row := 0));
  }

  lemma PrintSame(s: Con, z: Con, c: Byte, fg: Byte, bg: Byte)
    requires Agree(s) && Agree(z) && SameTerm(s, z)
    ensures SameTerm(Print(s, c, fg, bg), Print(z, c, fg, bg))
  {
    LeaveViewAgrees(s);
    LeaveViewAgrees(z);
    var s2, z2 := SetColor(LeaveView(s), fg, bg), SetColor(LeaveView(z), fg, bg);
    assert Tbuf(s2) == Tbuf(s) && Tbuf(z2) == Tbuf(z);
    AdvanceSame(s2, z2, c);
    var s3, z3 := Advance(s2, c), Advance(z2, c);
    if s3.row >= HEIGHT {
      ScrollSame(s3, z3);
    }
    var s4 := if s3.row >= HEIGHT then Scroll(s3) else s3;
    var z4 := if z3.row >= HEIGHT then Scroll(z3) else z3;
    assert SameTerm(s4, z4);
    ColorsSame(s4, z4, s.color);
  }

  // The tail of printing: the colour is put back, and the backup is made.
  lemma ColorsSame(s: Con, z: Con, color: Byte)
    requires Shape(s) && Shape(z) && SameTerm(s.(color := color), z.(color := color))
    ensures SameTerm(Backup(s.(color := color, ttyColor := s.ttyColor[s.cur := color])),
                     Backup(z.(color := color, ttyColor := z.ttyColor[z.cur := color])))
  {
  }

  lemma CursorKeySame(s: Con, z: Con, op: Op)
    requires Agree(s) && Agree(z) && SameTerm(s, z) && CursorKey(op)
    ensures SameTerm(Do(s, op), Do(z, op)) && Do(s, op).cur == s.cur && Do(z, op).cur == z.cur
  {
    CursorKeyKeeps(s, op);
    CursorKeyKeeps(z, op);
  }

  lemma ClearSame(s: Con, z: Con)
    requires Shape(s) && Shape(z) && SameTerm(s, z)
    ensures SameTerm(Clear(s), Clear(z))
  {
  }

  lemma ScrollByHandSame(s: Con, z: Con)
    requires Shape(s) && Shape(z) && SameTerm(s, z)
    ensures SameTerm(ScrollUp(s), ScrollUp(z)) && SameTerm(ScrollDown(s), ScrollDown(z))
  {
    assert Tbuf(SaveLine(s, 0)) == Tbuf(s) && Tbuf(SaveLine(z, 0)) == Tbuf(z);
    assert Tbuf(SaveLine(s, HEIGHT - 1)) == Tbuf(s) && Tbuf(SaveLine(z, HEIGHT - 1)) == Tbuf(z);
  }

  lemma SettingSame(s: Con, z: Con, op: Op)
    requires Agree(s) && Agree(z) && SameTerm(s, z) && (op.OColor? || op.ORow? || op.OCol?)
    ensures SameTerm(Do(s, op), Do(z, op)) && Do(s, op).cur == s.cur && Do(z, op).cur == z.cur
  {
  }

  lemma CurKept(s: Con, op: Op)
    requires Agree(s) && (op.OPrint? || op.OClear? || op.OScrollUp? || op.OScrollDown?)
    ensures Do(s, op).cur == s.cur
  {
  }

  /** An operation does the same to two consoles whose current terminals are the same, whatever else they hold. */
  lemma OwnTerm(s: Con, z: Con, op: Op)
    requires Agree(s) && Agree(z) && SameTerm(s, z) && !op.OSwitch?
    ensures SameTerm(Do(s, op), Do(z, op)) && Do(s, op).cur == s.cur && Do(z, op).cur == z.cur
  {
    if op.OPrint? || op.OClear? || op.OScrollUp? || op.OScrollDown? {
      CurKept(s, op);
      CurKept(z, op);
    }
    match op
    case OPrint(c, fg, bg) => PrintSame(s, z, c, fg, bg);
    case OClear => ClearSame(s, z);
    case OScrollUp => ScrollByHandSame(s, z);
    case OScrollDown => ScrollByHandSame(s, z);
    case OUp => CursorKeySame(s, z, op);
    case ODown => CursorKeySame(s, z, op);
    case OLeft => CursorKeySame(s, z, op);
    case ORight => CursorKeySame(s, z, op);
    case OColor(fg, bg) => SettingSame(s, z, op);
    case ORow(r) => SettingSame(s, z, op);
    case OCol(k) => SettingSame(s, z, op);
  }

  // ---- whole runs ----

  /** What is done while terminal t is the current one, of a run that starts on terminal cur. */
  function OwnOps(cur: nat, ops: seq<Op>, t: nat): seq<Op>
    decreases |ops|
  {
    if ops == [] then []
    else if ops[0].OSwitch? then OwnOps(if 0 <= ops[0].n < TTY_COUNT then ops[0].n else cur, ops[1..], t)
    else (if cur == t then [ops[0]] else []) + OwnOps(cur, ops[1..], t)
  }

  // No glyph of the run lands in the first cell of terminal t from the terminal before it.
  ghost predicate CornerFree(s: Con, ops: seq<Op>, t: nat)
    requires Agree(s)
    decreases |ops|
  {
    if ops == [] then true
    else
      DoAgrees(s, ops[0]);
      !CornerHits(s, ops[0], t) && CornerFree(Do(s, ops[0]), ops[1..], t)
  }

  lemma RunOpsCons(z: Con, op: Op, ops: seq<Op>)
    requires Agree(z)
    ensures Agree(Do(z, op)) && RunOps(z, [op] + ops) == RunOps(Do(z, op), ops)
  {
    DoAgrees(z, op);
    assert ([op] + ops)[1..] == ops;
  }

  /** In a run in which no glyph of the terminal before it lands in its first cell, a terminal ends up as if only its
    * own operations had been done, on any console whose current terminal is like it. */
  lemma {:induction false} Isolated(s: Con, ops: seq<Op>, t: nat, z: Con)
    requires Agree(s) && Agree(z) && t < TTY_COUNT && TermOf(s, t) == TermOf(z, z.cur) && CornerFree(s, ops, t)
    ensures RunOps(z, OwnOps(s.cur, ops, t)).cur == z.cur
    ensures TermOf(RunOps(s, ops), t) == TermOf(RunOps(z, OwnOps(s.cur, ops, t)), z.cur)
    decreases |ops|
  {
    if ops != [] {
      var op, s' := ops[0], Do(s, ops[0]);
      DoAgrees(s, op);
      if op.OSwitch? {
        SwitchKeepsTerms(s, op.n, t);
        Isolated(s', ops[1..], t, z);
      } else if s.cur == t {
        OwnTerm(s, z, op);
        RunOpsCons(z, op, OwnOps(s.cur, ops[1..], t));
        Isolated(s', ops[1..], t, Do(z, op));
      } else {
        OtherTerms(s, op, t);
        assert [] + OwnOps(s.cur, ops[1..], t) == OwnOps(s.cur, ops[1..], t);
        Isolated(s', ops[1..], t, z);
      }
    }
  }

  /** Two runs, from any two states in which terminal t is the same, that do the same while t is the current terminal
    * leave t the same, whatever is done on the other terminals, printed there or viewed. */
  lemma OnlyOwnOps(s: Con, ops: seq<Op>, z: Con, ops': seq<Op>, t: nat)
    requires Agree(s) && Agree(z) && t < TTY_COUNT && TermOf(s, t) == TermOf(z, t)
    requires CornerFree(s, ops, t) && CornerFree(z, ops', t)
    requires OwnOps(s.cur, ops, t) == OwnOps(z.cur, ops', t)
    ensures TermOf(RunOps(s, ops), t) == TermOf(RunOps(z, ops'), t)
  {
    var u := Switch(s, t);
    SwitchAgrees(s, t);
    SwitchKeepsTerms(s, t, t);
    Isolated(s, ops, t, u);
    Isolated(z, ops', t, u);
  }
}
