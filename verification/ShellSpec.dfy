/** The shell's line editor and command history: the abstract line that the keys edit, and the state of shell.c as a
  * value, with the contents of its buffers. */
module ShellSpec {
  import opened CText
  import opened Tokens

  const MAX_CMD_LEN: nat := 128
  const MAX_CMD_HISTORY: nat := 50

  const KEY_UP: char := 1 as char
  const KEY_DOWN: char := 2 as char
  const KEY_LEFT: char := 3 as char
  const KEY_RIGHT: char := 4 as char
  const KEY_HOME: char := 5 as char
  const KEY_END: char := 6 as char
  const KEY_DEL: char := 7 as char
  const BACKSPACE: char := 8 as char
  const ENTER: char := 10 as char

  predicate Printable(c: char) {
    ' ' <= c <= '~'
  }

  predicate Typed(s: string) {
    forall i :: 0 <= i < |s| ==> Printable(s[i])
  }

  // ---- the abstract line ----

  /** The text before the cursor and the text after it. */
  datatype Line = Line(before: string, after: string) {
    function Text(): string {
      before + after
    }
  }

  predicate LineOk(l: Line) {
    |l.before| + |l.after| < MAX_CMD_LEN && Typed(l.before) && Typed(l.after)
  }

  predicate EditKey(k: char) {
    k != KEY_UP && k != KEY_DOWN && k != ENTER
  }

  function Edit(l: Line, k: char): Line {
    var n := |l.before|;
    if k == KEY_LEFT then
      if n > 0 then Line(l.before[..n - 1], [l.before[n - 1]] + l.after) else l
    else if k == KEY_RIGHT then
      if l.after != "" then Line(l.before + [l.after[0]], l.after[1..]) else l
    else if k == KEY_HOME then Line("", l.before + l.after)
    else if k == KEY_END then Line(l.before + l.after, "")
    else if k == KEY_DEL then
      if l.after != "" then Line(l.before, l.after[1..]) else l
    else if k == BACKSPACE then
      if n > 0 then Line(l.before[..n - 1], l.after) else l
    else if Printable(k) && n + |l.after| < MAX_CMD_LEN - 1 then Line(l.before + [k], l.after)
    else l
  }

  function EditAll(l: Line, keys: string): Line
    decreases |keys|
  {
    if keys == "" then l else EditAll(Edit(l, keys[0]), keys[1..])
  }

  // ---- the shell's variables ----

  datatype Sh = Sh(active: bool, buf: string, pos: nat, cursor: nat, hist: seq<string>, current: int, saved: string)

  predicate BufOk(buf: string, pos: nat) {
    && |buf| == MAX_CMD_LEN && pos < MAX_CMD_LEN
    && (forall i :: 0 <= i < pos ==> Printable(buf[i]))
    && (forall i :: 0 <= i < MAX_CMD_LEN ==> buf[i] == NUL || Printable(buf[i]))
    && (pos > 0 ==> buf[pos] == NUL)
    && Terminated(buf)
  }

  predicate CommandOk(s: string) {
    s != "" && |s| < MAX_CMD_LEN && Typed(s)
  }

  predicate HistOk(h: seq<string>) {
    |h| <= MAX_CMD_HISTORY && forall i :: 0 <= i < |h| ==> CommandOk(h[i])
  }

  predicate ShOk(s: Sh) {
    && BufOk(s.buf, s.pos) && s.cursor <= s.pos
    && HistOk(s.hist) && -1 <= s.current < |s.hist|
    && |s.saved| < MAX_CMD_LEN && Typed(s.saved)
  }

  function Text(s: Sh): string
    requires ShOk(s)
  {
    s.buf[..s.pos]
  }

  function LineOf(s: Sh): Line
    requires ShOk(s)
  {
    Line(s.buf[..s.cursor], s.buf[s.cursor..s.pos])
  }

  lemma {:induction false} TerminatedAt(a: string, i: nat)
    requires i < |a| && a[i] == NUL
    ensures Terminated(a)
  {
    if i > 0 && a[0] != NUL {
      TerminatedAt(a[1..], i - 1);
    }
  }

  /** A line that is not empty is the C string in the buffer. */
  lemma TextIsString(buf: string, pos: nat)
    requires BufOk(buf, pos) && pos > 0
    ensures CString(buf) == buf[..pos]
  {
    CStringIs(buf, buf[..pos]);
  }

  // ---- editing ----

  function Inserted(buf: string, pos: nat, at: nat, c: char): (r: string)
    requires |buf| == MAX_CMD_LEN && at <= pos < MAX_CMD_LEN - 1
    ensures |r| == |buf|
  {
    seq(|buf|, i requires 0 <= i < |buf| =>
      if i < at then buf[i] else if i == at then c else if i <= pos then buf[i - 1]
      else if i == pos + 1 then NUL else buf[i])
  }

  lemma InsertedIs(now: string, buf: string, pos: nat, at: nat, c: char)
    requires |now| == |buf| == MAX_CMD_LEN && at <= pos < MAX_CMD_LEN - 1
    requires now[at] == c && now[pos + 1] == NUL
    requires forall i :: 0 <= i < |buf| && (i < at || pos + 1 < i) ==> now[i] == buf[i]
    requires forall i {:trigger now[i]} :: at < i <= pos ==> now[i] == buf[i - 1]
    ensures now == Inserted(buf, pos, at, c)
  {
  }

  function Removed(buf: string, pos: nat, at: nat): (r: string)
    requires |buf| == MAX_CMD_LEN && at < pos < MAX_CMD_LEN
    ensures |r| == |buf|
  {
    seq(|buf|, i requires 0 <= i < |buf| =>
      if i < at then buf[i] else if i < pos - 1 then buf[i + 1] else if i == pos - 1 then NUL else buf[i])
  }

  function Insert(s: Sh, c: char): (t: Sh)
    requires ShOk(s) && Printable(c)
    ensures ShOk(t) && t == s.(buf := t.buf, pos := t.pos, cursor := t.cursor)
  {
    if s.pos < MAX_CMD_LEN - 1 then
      var buf := Inserted(s.buf, s.pos, s.cursor, c);
      TerminatedAt(buf, s.pos + 1);
      s.(buf := buf, pos := s.pos + 1, cursor := s.cursor + 1)
    else s
  }

  function Remove(s: Sh, at: nat): (t: Sh)
    requires ShOk(s) && at < s.pos
    ensures ShOk(t) && t == s.(buf := t.buf, pos := t.pos, cursor := t.cursor)
  {
    var buf := Removed(s.buf, s.pos, at);
    TerminatedAt(buf, s.pos - 1);
    s.(buf := buf, pos := s.pos - 1, cursor := at)
  }

  // ---- history ----

  /** history_add */
  function HistoryAdd(h: seq<string>, cmd: string): seq<string> {
    if cmd == "" then h
    else if |h| > 0 && h[|h| - 1] == cmd then h
    else if |h| >= MAX_CMD_HISTORY then h[1..] + [cmd]
    else h + [cmd]
  }

  lemma HistoryAddOk(h: seq<string>, cmd: string)
    requires HistOk(h) && CommandOk(cmd)
    ensures HistOk(HistoryAdd(h, cmd)) && |HistoryAdd(h, cmd)| >= |h|
  {
  }

  function Shown(buf: string, text: string): (r: string)
    requires |buf| == MAX_CMD_LEN && |text| < MAX_CMD_LEN
    ensures |r| == MAX_CMD_LEN
  {
    Overlay(buf, 0, text + [NUL])
  }

  // The line becomes this text, with the cursor at its end.
  function ShowText(s: Sh, text: string): (t: Sh)
    requires ShOk(s) && |text| < MAX_CMD_LEN && Typed(text)
    ensures ShOk(t) && t == s.(buf := t.buf, pos := |text|, cursor := |text|)
    ensures LineOf(t) == Line(text, "")
  {
    var buf := Shown(s.buf, text);
    TerminatedAt(buf, |text|);
    assert buf[..|text|] == text;
    s.(buf := buf, pos := |text|, cursor := |text|)
  }

  /** The buffer then holds exactly this text as a C string, and what lies behind it is as before. */
  lemma ShownString(s: Sh, text: string)
    requires ShOk(s) && |text| < MAX_CMD_LEN && Typed(text)
    ensures var t := ShowText(s, text);
            CString(t.buf) == text && forall i :: |text| < i < MAX_CMD_LEN ==> t.buf[i] == s.buf[i]
  {
    var t := ShowText(s, text);
    assert t.buf[..|text|] == text && t.buf[|text|] == NUL;
    CStringIs(t.buf, text);
  }

  /** After a character has been removed the C string in the buffer is the line, even if it is empty. */
  lemma RemovedString(s: Sh, at: nat)
    requires ShOk(s) && at < s.pos
    ensures CString(Remove(s, at).buf) == Text(Remove(s, at))
  {
    var t := Remove(s, at);
    assert t.buf[t.pos] == NUL;
    CStringIs(t.buf, Text(t));
  }

  // What history_show saves when it leaves the line being typed: the C string in the buffer.
  function SaveLine(s: Sh): (t: Sh)
    requires ShOk(s)
    ensures ShOk(t)
  {
    s.(saved := CString(s.buf))
  }

  // One step back in the history, keeping the line aside at the first one; and one step forward.
  function Older(s: Sh): (t: Sh)
    requires ShOk(s) && s.hist != []
    ensures ShOk(t) && t.hist == s.hist && t.active == s.active && t.current >= 0
  {
    var s1 := if s.current == -1 then SaveLine(s) else s;
    s1.(current := if s.current < |s.hist| - 1 then s.current + 1 else s.current)
  }

  function Newer(s: Sh): (t: Sh)
    requires ShOk(s)
    ensures ShOk(t) && t.hist == s.hist && t.active == s.active
  {
    s.(current := if s.current > -1 then s.current - 1 else s.current)
  }

  /** history_show(1) */
  function HistoryUp(s: Sh): (t: Sh)
    requires ShOk(s)
    ensures ShOk(t) && t.hist == s.hist && t.active == s.active
  {
    if s.hist == [] then s
    else
      var t := Older(s);
      assert CommandOk(t.hist[t.current]);
      ShowText(t, t.hist[t.current])
  }

  /** history_show(-1) */
  function HistoryDown(s: Sh): (t: Sh)
    requires ShOk(s)
    ensures ShOk(t) && t.hist == s.hist && t.active == s.active
  {
    if s.hist == [] then s
    else
      var t := Newer(s);
      assert t.current >= 0 ==> CommandOk(t.hist[t.current]);
      ShowText(t, if t.current >= 0 then t.hist[t.current] else t.saved)
  }

  // ---- entering a line ----

  function CutBuffer(buf: string, pos: nat): (r: string)
    requires BufOk(buf, pos)
    ensures BufOk(r, 0)
  {
    var r := Overlay(buf, 0, Cut(buf[..pos]));
    if pos > 0 then
      TerminatedAt(r, pos);
      r
    else
      assert r == buf;
      r
  }

  /** The line goes into the history, and its words are cut apart in the buffer; the buffer is not cleared. */
  function Enter(s: Sh): (t: Sh)
    requires ShOk(s)
    ensures ShOk(t)
  {
    if s.pos == 0 then s
    else
      HistoryAddOk(s.hist, Text(s));
      s.(hist := HistoryAdd(s.hist, Text(s)), buf := CutBuffer(s.buf, s.pos), pos := 0, cursor := 0)
  }

  // ---- a key ----

  /** shell_process_input */
  function Press(s: Sh, k: char): (t: Sh)
    requires ShOk(s)
    ensures ShOk(t)
  {
    if !s.active then s
    else if k == KEY_LEFT then if s.cursor > 0 then s.(cursor := s.cursor - 1) else s
    else if k == KEY_RIGHT then if s.cursor < s.pos then s.(cursor := s.cursor + 1) else s
    else if k == KEY_UP then HistoryUp(s)
    else if k == KEY_DOWN then HistoryDown(s)
    else if k == KEY_HOME then s.(cursor := 0)
    else if k == KEY_END then s.(cursor := s.pos)
    else if k == KEY_DEL then if s.cursor < s.pos then Remove(s, s.cursor) else s
    else if k == ENTER then Enter(s)
    else if k == BACKSPACE then if s.cursor > 0 then Remove(s, s.cursor - 1) else s
    else if Printable(k) then Insert(s, k)
    else s
  }

  function PressAll(s: Sh, keys: string): (t: Sh)
    requires ShOk(s)
    ensures ShOk(t)
    decreases |keys|
  {
    if keys == "" then s else PressAll(Press(s, keys[0]), keys[1..])
  }

  // ---- specification of the history ----

  // The line that this key enters, if any.
  function Entered(s: Sh, k: char): seq<string>
    requires ShOk(s)
  {
    if s.active && k == ENTER && s.pos > 0 then [Text(s)] else []
  }

  /** The lines entered during a run, in order. */
  function Submitted(s: Sh, keys: string): seq<string>
    requires ShOk(s)
    decreases |keys|
  {
    if keys == "" then [] else Entered(s, keys[0]) + Submitted(Press(s, keys[0]), keys[1..])
  }

  /** A line equal to the one entered just before it is dropped. */
  function Deduped(ls: seq<string>): seq<string> {
    var n := |ls|;
    if n == 0 then []
    else if n > 1 && ls[n - 2] == ls[n - 1] then Deduped(ls[..n - 1])
    else Deduped(ls[..n - 1]) + [ls[n - 1]]
  }

  function Recent(ls: seq<string>): seq<string> {
    if |ls| <= MAX_CMD_HISTORY then ls else ls[|ls| - MAX_CMD_HISTORY..]
  }
}
