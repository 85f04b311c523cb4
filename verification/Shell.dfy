/** shell.c: the edited buffer, the history rows and the argument splitter, in place. */
module ShellC {
  import opened CText
  import opened Tokens
  import opened ShellSpec

  class Shell {
    const cmdHistory: array<char>
    const cmdBuffer: array<char>
    const savedCmd: array<char>
    var historyCount: nat
    var historyCurrent: int
    var cmdPos: nat
    var cursorPos: nat
    var shellActive: bool

    ghost predicate Sizes()
    {
      && cmdHistory.Length == MAX_CMD_HISTORY * MAX_CMD_LEN
      && cmdBuffer.Length == savedCmd.Length == MAX_CMD_LEN
      && cmdHistory != cmdBuffer && cmdHistory != savedCmd && cmdBuffer != savedCmd
    }

    ghost function View(): Sh
      requires Sizes() && historyCount <= MAX_CMD_HISTORY
      reads this, cmdHistory, cmdBuffer, savedCmd
    {
      Sh(shellActive, cmdBuffer[..], cmdPos, cursorPos, Rows(cmdHistory[..], historyCount), historyCurrent,
         CString(savedCmd[..]))
    }

    ghost predicate Valid()
      reads this, cmdHistory, cmdBuffer, savedCmd
    {
      Sizes() && historyCount <= MAX_CMD_HISTORY && ShOk(View())
    }

    // ---- history ----

    /** history_add, of the C string in the buffer */
    method HistoryAdd()
      requires Sizes() && historyCount <= MAX_CMD_HISTORY && HistOk(Rows(cmdHistory[..], historyCount))
      requires Terminated(cmdBuffer[..])
      modifies this`historyCount, cmdHistory
      ensures historyCount <= MAX_CMD_HISTORY
      ensures Rows(cmdHistory[..], historyCount)
              == ShellSpec.HistoryAdd(old(Rows(cmdHistory[..], historyCount)), CString(cmdBuffer[..]))
    {
      ghost var h, cmd := Rows(cmdHistory[..], historyCount), CString(cmdBuffer[..]);
      assert cmdBuffer[0..] == cmdBuffer[..];
      if cmdBuffer[0] == NUL {
        return;
      }
      if historyCount > 0 {
        var same := IsLast();
        if same {
          return;
        }
      }
      if historyCount >= MAX_CMD_HISTORY {
        DropOldest();
      }
      AddRow();
    }

    method IsLast() returns (same: bool)
      requires Sizes() && 0 < historyCount <= MAX_CMD_HISTORY && HistOk(Rows(cmdHistory[..], historyCount))
      requires Terminated(cmdBuffer[..])
      ensures same <==> Rows(cmdHistory[..], historyCount)[historyCount - 1] == CString(cmdBuffer[..])
    {
      var at := (historyCount - 1) * MAX_CMD_LEN;
      assert cmdBuffer[0..] == cmdBuffer[..];
      RowString(cmdHistory[..], historyCount, historyCount - 1);
      var d := StrCmp(cmdHistory, at, cmdBuffer, 0);
      same := d == 0;
    }

    // Every row takes the string of the next one.
    method DropOldest()
      requires Sizes() && historyCount == MAX_CMD_HISTORY && HistOk(Rows(cmdHistory[..], historyCount))
      modifies this`historyCount, cmdHistory
      ensures historyCount == MAX_CMD_HISTORY - 1
      ensures Rows(cmdHistory[..], historyCount) == old(Rows(cmdHistory[..], historyCount))[1..]
    {
      ghost var h := Rows(cmdHistory[..], historyCount);
      for i := 0 to MAX_CMD_HISTORY - 1
        invariant historyCount == MAX_CMD_HISTORY
        invariant Rows(cmdHistory[..], MAX_CMD_HISTORY) == h[1..i + 1] + h[i..]
      {
        CopyRow(i);
        ShiftStep(h, i);
      }
      historyCount := MAX_CMD_HISTORY - 1;
      RowsFewer(cmdHistory[..], MAX_CMD_HISTORY);
      assert (h[1..MAX_CMD_HISTORY] + h[MAX_CMD_HISTORY - 1..])[..MAX_CMD_HISTORY - 1] == h[1..];
    }

    method CopyRow(i: nat)
      requires Sizes() && i < MAX_CMD_HISTORY - 1
      requires ShortRow(Rows(cmdHistory[..], MAX_CMD_HISTORY)[i + 1])
      modifies cmdHistory
      ensures Rows(cmdHistory[..], MAX_CMD_HISTORY)
              == old(Rows(cmdHistory[..], MAX_CMD_HISTORY))[i := old(Rows(cmdHistory[..], MAX_CMD_HISTORY))[i + 1]]
    {
      ghost var was := cmdHistory[..];
      RowString(was, MAX_CMD_HISTORY, i + 1);
      ghost var text := CString(was[(i + 1) * MAX_CMD_LEN..]);
      StrCopy(cmdHistory, i * MAX_CMD_LEN, cmdHistory, (i + 1) * MAX_CMD_LEN);
      RowWritten(was, i, text, MAX_CMD_HISTORY);
    }

    method AddRow()
      requires Sizes() && historyCount < MAX_CMD_HISTORY
      requires Terminated(cmdBuffer[..])
      modifies this`historyCount, cmdHistory
      ensures historyCount == old(historyCount) + 1
      ensures Rows(cmdHistory[..], historyCount) == old(Rows(cmdHistory[..], historyCount)) + [CString(cmdBuffer[..])]
    {
      ghost var was, n, text := cmdHistory[..], historyCount, CString(cmdBuffer[..]);
      assert cmdBuffer[0..] == cmdBuffer[..];
      StrCopy(cmdHistory, historyCount * MAX_CMD_LEN, cmdBuffer, 0);
      historyCount := historyCount + 1;
      RowWritten(was, n, text, n + 1);
      RowsFewer(was, n + 1);
      RowsLast(Rows(was, n + 1), n, text);
    }

    /** history_show, direction 1 */
    method HistoryShowUp()
      requires Valid()
      modifies this`historyCurrent, this`cmdPos, this`cursorPos, cmdBuffer, savedCmd
      ensures Sizes() && View() == HistoryUp(old(View()))
      ensures Valid()
    {
      if historyCount == 0 {
        return;
      }
      MoveBack();
      ShowRow();
    }

    method MoveBack()
      requires Valid() && historyCount > 0
      modifies this`historyCurrent, savedCmd
      ensures Sizes() && View() == Older(old(View()))
      ensures Valid() && historyCurrent >= 0
    {
      if historyCurrent == -1 {
        KeepAside();
      }
      if historyCurrent < historyCount - 1 {
        historyCurrent := historyCurrent + 1;
      }
    }

    /** history_show, any other direction */
    method HistoryShowDown()
      requires Valid()
      modifies this`historyCurrent, this`cmdPos, this`cursorPos, cmdBuffer
      ensures Sizes() && View() == HistoryDown(old(View()))
      ensures Valid()
    {
      if historyCount == 0 {
        return;
      }
      MoveForward();
      if historyCurrent >= 0 {
        ShowRow();
      } else {
        ShowSaved();
      }
    }

    method MoveForward()
      requires Valid()
      modifies this`historyCurrent
      ensures Sizes() && View() == Newer(old(View()))
      ensures Valid()
    {
      if historyCurrent > -1 {
        historyCurrent := historyCurrent - 1;
      }
    }

    method KeepAside()
      requires Valid()
      modifies savedCmd
      ensures Sizes() && View() == SaveLine(old(View()))
      ensures Valid()
    {
      assert cmdBuffer[0..] == cmdBuffer[..] && savedCmd[0..] == savedCmd[..];
      CopiedString(savedCmd[..], 0, CString(cmdBuffer[..]));
      StrCopy(savedCmd, 0, cmdBuffer, 0);
      assert savedCmd[0..] == savedCmd[..];
    }

    method ShowRow()
      requires Valid() && 0 <= historyCurrent
      modifies this`cmdPos, this`cursorPos, cmdBuffer
      ensures Sizes() && View() == ShowText(old(View()), old(View()).hist[historyCurrent])
      ensures Valid()
    {
      var at := historyCurrent * MAX_CMD_LEN;
      assert CommandOk(View().hist[historyCurrent]);
      RowString(cmdHistory[..], historyCount, historyCurrent);
      ShowFrom(cmdHistory, at);
    }

    method ShowSaved()
      requires Valid()
      modifies this`cmdPos, this`cursorPos, cmdBuffer
      ensures Sizes() && View() == ShowText(old(View()), old(View()).saved)
      ensures Valid()
    {
      assert savedCmd[0..] == savedCmd[..];
      ShowFrom(savedCmd, 0);
    }

    method ShowFrom(showCmd: array<char>, at: nat)
      requires Valid() && showCmd != cmdBuffer && at <= showCmd.Length && Terminated(showCmd[at..])
      requires |CString(showCmd[at..])| < MAX_CMD_LEN && Typed(CString(showCmd[at..]))
      modifies this`cmdPos, this`cursorPos, cmdBuffer
      ensures Sizes() && View() == ShowText(old(View()), CString(showCmd[at..]))
      ensures Valid()
    {
      var newLen := StrLen(showCmd, at);
      StrCopy(cmdBuffer, 0, showCmd, at);
      cmdPos := newLen;
      cursorPos := cmdPos;
    }

    // ---- the cursor ----

    /** move_cursor_to; returns by how many columns the displayed cursor moves to the right. */
    method MoveCursorTo(newPos0: int) returns (steps: int)
      requires Valid()
      modifies this`cursorPos
      ensures cursorPos == (if newPos0 < 0 then 0 else if newPos0 > cmdPos then cmdPos else newPos0)
      ensures steps == cursorPos - old(cursorPos)
      ensures View() == old(View()).(cursor := cursorPos)
      ensures Valid()
    {
      var newPos := newPos0;
      if newPos < 0 {
        newPos := 0;
      }
      if newPos > cmdPos {
        newPos := cmdPos;
      }
      steps := newPos - cursorPos;
      cursorPos := newPos;
    }

    // ---- editing ----

    method DeleteAt(at: nat)
      requires Valid() && at < cmdPos && (cursorPos == at || cursorPos == at + 1)
      modifies this`cmdPos, this`cursorPos, cmdBuffer
      ensures Sizes() && View() == Remove(old(View()), at)
      ensures Valid()
    {
      ghost var was := cmdBuffer[..];
      cursorPos := at;
      cmdPos := cmdPos - 1;
      CloseGap(at);
      cmdBuffer[cmdPos] := NUL;
      assert cmdBuffer[..] == Removed(was, old(cmdPos), at);
    }

    // The shifting loop of DEL and of backspace.
    method CloseGap(at: nat)
      requires Sizes() && at <= cmdPos < MAX_CMD_LEN - 1
      modifies cmdBuffer
      ensures forall j :: 0 <= j < MAX_CMD_LEN ==>
                cmdBuffer[j] == if at <= j < cmdPos then old(cmdBuffer[j + 1]) else old(cmdBuffer[j])
    {
      var i := at;
      while i < cmdPos
        invariant at <= i <= cmdPos
        invariant forall j :: 0 <= j < MAX_CMD_LEN ==>
                    cmdBuffer[j] == if at <= j < i then old(cmdBuffer[j + 1]) else old(cmdBuffer[j])
      {
        cmdBuffer[i] := cmdBuffer[i + 1];
        i := i + 1;
      }
    }

    method InsertChar(c: char)
      requires Valid() && Printable(c) && cmdPos < MAX_CMD_LEN - 1
      modifies this`cmdPos, this`cursorPos, cmdBuffer
      ensures Sizes() && View() == Insert(old(View()), c)
      ensures Valid()
    {
      ghost var was := cmdBuffer[..];
      if cursorPos < cmdPos {
        OpenGap();
      }
      cmdBuffer[cursorPos] := c;
      cmdPos := cmdPos + 1;
      cmdBuffer[cmdPos] := NUL;
      cursorPos := cursorPos + 1;
      InsertedIs(cmdBuffer[..], was, old(cmdPos), old(cursorPos), c);
    }

    method OpenGap()
      requires Sizes() && cursorPos < cmdPos < MAX_CMD_LEN - 1
      modifies cmdBuffer
      ensures forall j :: 0 <= j < MAX_CMD_LEN ==>
                cmdBuffer[j] == if cursorPos < j <= cmdPos then old(cmdBuffer[j - 1]) else old(cmdBuffer[j])
    {
      var i: int := cmdPos;
      while i > cursorPos
        invariant cursorPos <= i <= cmdPos
        invariant forall j :: 0 <= j < MAX_CMD_LEN ==>
                    cmdBuffer[j] == if i < j <= cmdPos then old(cmdBuffer[j - 1]) else old(cmdBuffer[j])
      {
        cmdBuffer[i] := cmdBuffer[i - 1];
        i := i - 1;
      }
    }

    // ---- entering a line ----

    /** execute_command, up to the arguments it hands to the command */
    method ExecuteCommand() returns (argc: nat, argv: array<int>)
      requires Valid() && cmdPos > 0
      modifies this`historyCount, cmdHistory, cmdBuffer
      ensures fresh(argv) && argv.Length == MAX_ARGS
      ensures Sizes() && historyCount <= MAX_CMD_HISTORY
      ensures argc == |Argv(old(Text(View())))| && argv[argc] == -1
      ensures argv[..argc] == Argv(old(Text(View())))
      ensures cmdBuffer[..] == CutBuffer(old(cmdBuffer[..]), cmdPos)
      ensures var s := old(View());
              View() == s.(buf := cmdBuffer[..], hist := ShellSpec.HistoryAdd(s.hist, old(Text(View()))))
    {
      ghost var was := cmdBuffer[..];
      cmdBuffer[cmdPos] := NUL;
      assert cmdBuffer[..] == was;
      TextIsString(was, cmdPos);
      HistoryAdd();
      argc, argv := ParseArguments(was[..cmdPos]);
    }

    /** parse_arguments on the buffer: argv[i] is the index at which argument i starts, and -1 stands for NULL. */
    method ParseArguments(ghost line: string) returns (argc: nat, argv: array<int>)
      requires Sizes() && HoldsLine(cmdBuffer[..], line)
      modifies cmdBuffer
      ensures fresh(argv) && argv.Length == MAX_ARGS
      ensures argc == |Argv(line)| && argv[argc] == -1
      ensures argv[..argc] == Argv(line)
      ensures cmdBuffer[..] == Overlay(old(cmdBuffer[..]), 0, Cut(line))
    {
      ghost var was := cmdBuffer[..];
      argv := new int[MAX_ARGS];
      argc := 0;
      var inArg := false;
      var p := 0;
      while cmdBuffer[p] != NUL && argc < MAX_ARGS - 1
        invariant p <= |line| && argc < MAX_ARGS && Scanned(argv[..argc], inArg, line, p)
        invariant CutUpTo(cmdBuffer[..], was, line, p)
        decreases |line| - p
      {
        Uncut(cmdBuffer[..], was, line, p);
        argc, inArg := ReadChar(argv, p, argc, inArg, was, line);
        p := p + 1;
      }
      Uncut(cmdBuffer[..], was, line, p);
      StopsThere(cmdBuffer[..], was, argv[..argc], inArg, line, p);
      argv[argc] := -1;
    }

    // The body of the loop, at character p.
    method ReadChar(argv: array<int>, p: nat, argc0: nat, inArg0: bool, ghost was: string, ghost line: string)
      returns (argc: nat, inArg: bool)
      requires Sizes() && argv.Length == MAX_ARGS && argc0 < MAX_ARGS - 1
      requires p < |line| <= |was| == MAX_CMD_LEN && Scanned(argv[..argc0], inArg0, line, p)
      requires CutUpTo(cmdBuffer[..], was, line, p) && cmdBuffer[p] == line[p]
      modifies cmdBuffer, argv
      ensures argc < MAX_ARGS && Scanned(argv[..argc], inArg, line, p + 1)
      ensures CutUpTo(cmdBuffer[..], was, line, p + 1)
    {
      argc, inArg := argc0, inArg0;
      if cmdBuffer[p] == ' ' || cmdBuffer[p] == '\t' {
        if inArg {
          cmdBuffer[p] := NUL;
          inArg := false;
        }
      } else {
        if !inArg {
          argv[argc] := p;
          argc := argc + 1;
          inArg := true;
        }
      }
    }

    /** The ENTER key */
    method EnterLine() returns (argc: nat, argv: array?<int>)
      requires Valid()
      modifies this`historyCount, this`cmdPos, this`cursorPos, cmdHistory, cmdBuffer
      ensures Sizes() && historyCount <= MAX_CMD_HISTORY
      ensures View() == Enter(old(View()))
      ensures Valid()
      ensures argc == (if old(cmdPos) > 0 then |Argv(old(Text(View())))| else 0)
      ensures old(cmdPos) > 0 ==> argv != null
      ensures argv != null ==> argv.Length == MAX_ARGS && argv[..argc] == Argv(old(Text(View())))
    {
      argc, argv := 0, null;
      if cmdPos > 0 {
        ghost var s := View();
        argc, argv := ExecuteCommand();
        cmdPos := 0;
        cursorPos := 0;
        assert View() == Enter(s);
      }
    }

    // ---- a key ----

    /** shell_process_input */
    method ShellProcessInput(c: char)
      requires Valid()
      modifies this`historyCount, this`historyCurrent, this`cmdPos, this`cursorPos, cmdHistory, cmdBuffer, savedCmd
      ensures Sizes() && historyCount <= MAX_CMD_HISTORY && View() == Press(old(View()), c)
      ensures Valid()
    {
      if !shellActive {
        return;
      }
      if c == KEY_UP || c == KEY_DOWN {
        HistoryKey(c);
      } else if KEY_UP <= c <= KEY_END {
        CursorKey(c);
      } else if c == ENTER {
        var argc, argv := EnterLine();
      } else {
        TextKey(c);
      }
    }

    method HistoryKey(c: char)
      requires Valid() && shellActive && (c == KEY_UP || c == KEY_DOWN)
      modifies this`historyCurrent, this`cmdPos, this`cursorPos, cmdBuffer, savedCmd
      ensures Sizes() && historyCount <= MAX_CMD_HISTORY && View() == Press(old(View()), c)
      ensures Valid()
    {
      if c == KEY_UP {
        if historyCount > 0 {
          HistoryShowUp();
        }
      } else {
        if historyCount > 0 {
          HistoryShowDown();
        }
      }
    }

    method CursorKey(c: char)
      requires Valid() && shellActive && KEY_LEFT <= c <= KEY_END
      modifies this`cursorPos
      ensures View() == Press(old(View()), c)
      ensures Valid()
    {
      if c == KEY_LEFT {
        if cursorPos > 0 {
          cursorPos := cursorPos - 1;
        }
      } else if c == KEY_RIGHT {
        if cursorPos < cmdPos {
          cursorPos := cursorPos + 1;
        }
      } else if c == KEY_HOME {
        var steps := MoveCursorTo(0);
      } else {
        var steps := MoveCursorTo(cmdPos);
      }
    }

    method TextKey(c: char)
      requires Valid() && shellActive && EditKey(c) && !(KEY_LEFT <= c <= KEY_END)
      modifies this`cmdPos, this`cursorPos, cmdBuffer
      ensures Sizes() && View() == Press(old(View()), c)
      ensures Valid()
    {
      if c == KEY_DEL {
        if cursorPos < cmdPos {
          DeleteAt(cursorPos);
        }
      } else if c == BACKSPACE {
        if cursorPos > 0 {
          DeleteAt(cursorPos - 1);
        }
      } else if cmdPos < MAX_CMD_LEN - 1 && ' ' <= c <= '~' {
        InsertChar(c);
      }
    }

    /** shell_init on the zeroed statics */
    constructor ()
      ensures Valid()
      ensures View() == Sh(true, Zeros(MAX_CMD_LEN), 0, 0, [], -1, "")
    {
      cmdHistory := new char[MAX_CMD_HISTORY * MAX_CMD_LEN](_ => NUL);
      cmdBuffer := new char[MAX_CMD_LEN](_ => NUL);
      savedCmd := new char[MAX_CMD_LEN](_ => NUL);
      historyCount, historyCurrent, cmdPos, cursorPos, shellActive := 0, -1, 0, 0, true;
      new;
      assert cmdBuffer[..] == Zeros(MAX_CMD_LEN) && savedCmd[..] == Zeros(MAX_CMD_LEN);
      CStringIs(Zeros(MAX_CMD_LEN), "");
    }
  }

  function Zeros(n: nat): string {
    seq(n, i => NUL)
  }

  // ---- rows ----

  predicate ShortRow(s: string) {
    |s| < MAX_CMD_LEN
  }

  function Row(h: string, i: nat): (r: string)
    requires |h| == MAX_CMD_HISTORY * MAX_CMD_LEN && i < MAX_CMD_HISTORY
    ensures |r| == MAX_CMD_LEN
  {
    h[i * MAX_CMD_LEN..i * MAX_CMD_LEN + MAX_CMD_LEN]
  }

  function Rows(h: string, n: nat): (r: seq<string>)
    requires |h| == MAX_CMD_HISTORY * MAX_CMD_LEN && n <= MAX_CMD_HISTORY
    ensures |r| == n
  {
    seq(n, i requires 0 <= i < n => CString(Row(h, i)))
  }

  // The string that starts at a row ends in it.
  lemma RowString(h: string, n: nat, i: nat)
    requires |h| == MAX_CMD_HISTORY * MAX_CMD_LEN && i < n <= MAX_CMD_HISTORY && ShortRow(Rows(h, n)[i])
    ensures i * MAX_CMD_LEN <= |h| && Terminated(h[i * MAX_CMD_LEN..])
    ensures CString(h[i * MAX_CMD_LEN..]) == Rows(h, n)[i]
  {
    var s, r, t := CString(Row(h, i)), Row(h, i), h[i * MAX_CMD_LEN..];
    assert t[..|s|] == r[..|s|] && t[|s|] == r[|s|];
    CStringIs(t, s);
  }

  lemma RowWritten(h: string, i: nat, text: string, n: nat)
    requires |h| == MAX_CMD_HISTORY * MAX_CMD_LEN && i < n <= MAX_CMD_HISTORY
    requires NoNul(text) && ShortRow(text)
    ensures i * MAX_CMD_LEN + |text| < |h|
    ensures Rows(Overlay(h, i * MAX_CMD_LEN, text + [NUL]), n) == Rows(h, n)[i := text]
  {
    var g := Overlay(h, i * MAX_CMD_LEN, text + [NUL]);
    forall j | 0 <= j < n ensures Rows(g, n)[j] == Rows(h, n)[i := text][j] {
      if j == i {
        assert Row(g, i)[..|text|] == text && Row(g, i)[|text|] == NUL;
        CStringIs(Row(g, i), text);
      } else {
        OtherRow(h, i, text, j);
      }
    }
  }

  lemma OtherRow(h: string, i: nat, text: string, j: nat)
    requires |h| == MAX_CMD_HISTORY * MAX_CMD_LEN && i < MAX_CMD_HISTORY && j < MAX_CMD_HISTORY && i != j
    requires ShortRow(text)
    ensures i * MAX_CMD_LEN + |text| < |h|
    ensures Row(Overlay(h, i * MAX_CMD_LEN, text + [NUL]), j) == Row(h, j)
  {
    if j < i {
      assert j * MAX_CMD_LEN + MAX_CMD_LEN <= i * MAX_CMD_LEN;
    } else {
      assert i * MAX_CMD_LEN + MAX_CMD_LEN <= j * MAX_CMD_LEN;
    }
  }

  lemma RowsFewer(h: string, n: nat)
    requires |h| == MAX_CMD_HISTORY * MAX_CMD_LEN && 0 < n <= MAX_CMD_HISTORY
    ensures Rows(h, n - 1) == Rows(h, n)[..n - 1]
  {
  }

  lemma RowsLast(r: seq<string>, n: nat, text: string)
    requires |r| == n + 1
    ensures r[n := text] == r[..n] + [text]
  {
  }

  lemma ShiftStep(h: seq<string>, i: nat)
    requires i + 1 < |h|
    ensures |h[1..i + 1] + h[i..]| == |h|
    ensures var r := h[1..i + 1] + h[i..]; r[i + 1] == h[i + 1] && r[i := r[i + 1]] == h[1..i + 2] + h[i + 1..]
  {
  }

  // ---- the argument splitter ----

  predicate HoldsLine(buf: string, line: string) {
    |line| < |buf| && line == buf[..|line|] && buf[|line|] == NUL && NoNul(line)
  }

  // The first p characters have been read: argv so far, whether a word is open, and what has been cut.
  predicate Scanned(argv: seq<int>, inArg: bool, line: string, p: nat)
    requires p <= |line|
  {
    && argv == Starts(line, p) && inArg == (p > 0 && !Blank(line[p - 1]))
    && (|argv| >= MAX_ARGS - 1 ==> argv[MAX_ARGS - 2] == p - 1)
  }

  predicate CutUpTo(now: string, was: string, line: string, p: nat)
    requires |line| <= |was|
  {
    && |now| == |was|
    && forall i :: 0 <= i < |now| ==> now[i] == if i < p && i < |line| && EndsAt(line, i) then NUL else was[i]
  }

  // Characters from p on are still as they were.
  lemma Uncut(now: string, was: string, line: string, p: nat)
    requires HoldsLine(was, line) && p <= |line| && CutUpTo(now, was, line, p)
    ensures if p < |line| then now[p] == line[p] && now[p] != NUL else now[p] == NUL
  {
  }

  lemma StopsThere(now: string, was: string, argv: seq<int>, inArg: bool, line: string, p: nat)
    requires HoldsLine(was, line) && p <= |line|
    requires Scanned(argv, inArg, line, p) && |argv| < MAX_ARGS && CutUpTo(now, was, line, p)
    requires p == |line| || |argv| == MAX_ARGS - 1
    ensures argv == Argv(line) && now == Overlay(was, 0, Cut(line))
  {
    StartsGrow(line, p, |line|);
    var r := Overlay(was, 0, Cut(line));
    assert p == Stop(line);
    assert forall i :: 0 <= i < |now| ==> now[i] == r[i];
  }

  lemma {:induction false} StartsGrow(line: string, p: nat, q: nat)
    requires p <= q <= |line|
    ensures Starts(line, p) <= Starts(line, q)
  {
    if p < q {
      StartsGrow(line, p, q - 1);
    }
  }
}
