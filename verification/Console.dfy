/** console.c: screen, terminals, backup and the history ring, in place. */
module ConsoleC {
  import opened Screen
  import opened HistoryRing
  import opened Machine
  import opened NumberText
  import opened FormatterC

  class Console {
    const vga: array<Cell>
    const ttyBuf: array<Cell>
    const screenBackup: array<Cell>
    const history: array<Cell>
    const ttyRow: array<Byte>
    const ttyCol: array<Byte>
    const ttyColor: array<Byte>
    var cursorRow: Byte
    var cursorCol: Byte
    var vgaColor: Byte
    var ttyCur: nat
    var historyWritePos: nat
    var historyCount: nat
    var isViewing: bool
    var viewOffset: int

    // All lines ever saved.
    ghost var lines: seq<Line>

    ghost function View(): Con
      reads this, vga, ttyBuf, screenBackup, ttyRow, ttyCol, ttyColor
    {
      Con(vga[..], ttyBuf[..], screenBackup[..], lines, cursorRow, cursorCol, vgaColor,
          ttyCur, ttyRow[..], ttyCol[..], ttyColor[..], isViewing, viewOffset)
    }

    ghost predicate Separate()
    {
      && vga != ttyBuf && vga != screenBackup && vga != history
      && ttyBuf != screenBackup && ttyBuf != history && screenBackup != history
      && ttyRow != ttyCol && ttyRow != ttyColor && ttyCol != ttyColor
    }

    ghost predicate RingOk()
      reads this`lines, this`historyWritePos, this`historyCount, history
    {
      && RingHolds(history[..], lines)
      && historyWritePos == RingSlot(|lines|) && historyCount == Kept(lines)
    }

    ghost predicate ViewingOk()
      reads this`isViewing, this`viewOffset, this`lines
    {
      OffsetIn(isViewing, viewOffset, lines)
    }

    ghost predicate Sizes()
    {
      && vga.Length == CELLS + 1 && ttyBuf.Length == TTY_COUNT * CELLS + 1 && screenBackup.Length == CELLS
      && history.Length == HISTORY_SIZE * WIDTH
      && ttyRow.Length == ttyCol.Length == ttyColor.Length == TTY_COUNT
    }

    ghost predicate Valid()
      reads this, vga, ttyBuf, screenBackup, history, ttyRow, ttyCol, ttyColor
    {
      Separate() && Sizes() && Shape(View()) && ViewingOk() && RingOk()
    }

    // Valid, but for a cursor that may be in the row below the screen.
    ghost predicate ValidBelow()
      reads this, vga, ttyBuf, screenBackup, history, ttyRow, ttyCol, ttyColor
    {
      Separate() && Sizes() && Shape(View().(row := 0)) && ViewingOk() && RingOk()
    }

    // ---- the history ring ----

    method SaveLineToHistory(lineNum: nat)
      requires Separate() && Sizes() && RingOk() && lineNum < HEIGHT
      modifies this`historyWritePos, this`historyCount, this`lines, history
      ensures RingOk()
      ensures lines == old(lines) + [vga[lineNum * WIDTH..lineNum * WIDTH + WIDTH]]
    {
      ghost var line := vga[lineNum * WIDTH..lineNum * WIDTH + WIDTH];
      RingAdd(history[..], lines, line);
      StoreLine(lineNum);
      NextSlot(|lines|);
      historyWritePos := (historyWritePos + 1) % HISTORY_SIZE;
      if historyCount < HISTORY_SIZE {
        historyCount := historyCount + 1;
      }
      lines := lines + [line];
    }

    // The cells of one screen row, copied to the write position.
    method StoreLine(lineNum: nat)
      requires Separate() && Sizes() && lineNum < HEIGHT && historyWritePos < HISTORY_SIZE
      modifies history
      ensures historyWritePos * WIDTH + WIDTH <= history.Length
      ensures history[..] ==
              Splice(old(history[..]), historyWritePos * WIDTH, vga[lineNum * WIDTH..lineNum * WIDTH + WIDTH])
    {
      ghost var line, ring := vga[lineNum * WIDTH..lineNum * WIDTH + WIDTH], history[..];
      var base := historyWritePos * WIDTH;
      for col := 0 to WIDTH
        invariant forall i :: 0 <= i < history.Length ==>
                    history[i] == if base <= i < base + col then line[i - base] else ring[i]
      {
        var idx := lineNum * WIDTH + col;
        history[base + col] := vga[idx];
      }
      SpliceIs(ring, base, line, history[..]);
    }

    // ---- copies ----

    method BackupCurrentScreen()
      requires Separate() && Sizes()
      modifies screenBackup
      ensures screenBackup[..] == vga[..CELLS]
    {
      for row := 0 to HEIGHT
        invariant forall i :: 0 <= i < row * WIDTH ==> screenBackup[i] == vga[i]
      {
        for col := 0 to WIDTH
          invariant forall i :: 0 <= i < row * WIDTH + col ==> screenBackup[i] == vga[i]
        {
          var idx := row * WIDTH + col;
          screenBackup[idx] := vga[idx];
        }
      }
    }

    method RestoreScreenFromBackup()
      requires Separate() && Sizes() && ttyCur < TTY_COUNT
      modifies vga, ttyBuf
      ensures vga[..] == Splice(old(vga[..]), 0, screenBackup[..])
      ensures ttyBuf[..] == Splice(old(ttyBuf[..]), ttyCur * CELLS, screenBackup[..])
    {
      ghost var content := screenBackup[..];
      var tb := ttyCur * CELLS;
      assert tb + CELLS < ttyBuf.Length;
      for row := 0 to HEIGHT
        invariant forall i :: 0 <= i < vga.Length ==> vga[i] == if i < row * WIDTH then content[i] else old(vga[i])
        invariant forall i :: 0 <= i < ttyBuf.Length ==>
                    ttyBuf[i] == if tb <= i < tb + row * WIDTH then content[i - tb] else old(ttyBuf[i])
      {
        for col := 0 to WIDTH
          invariant forall i :: 0 <= i < vga.Length ==>
                      vga[i] == if i < row * WIDTH + col then content[i] else old(vga[i])
          invariant forall i :: 0 <= i < ttyBuf.Length ==>
                      ttyBuf[i] == if tb <= i < tb + row * WIDTH + col then content[i - tb] else old(ttyBuf[i])
        {
          var idx := row * WIDTH + col;
          vga[idx] := screenBackup[idx];
          ttyBuf[tb + idx] := screenBackup[idx];
        }
      }
      SpliceIs(old(vga[..]), 0, content, vga[..]);
      SpliceIs(old(ttyBuf[..]), tb, content, ttyBuf[..]);
    }

    method VtRenderActive()
      requires Separate() && Sizes() && ttyCur < TTY_COUNT
      modifies vga
      ensures vga[..] == Splice(old(vga[..]), 0, ttyBuf[ttyCur * CELLS..ttyCur * CELLS + CELLS])
    {
      var tb := ttyCur * CELLS;
      assert tb + CELLS < ttyBuf.Length;
      for i := 0 to WIDTH * HEIGHT
        invariant forall j :: 0 <= j < vga.Length ==> vga[j] == if j < i then ttyBuf[tb + j] else old(vga[j])
      {
        vga[i] := ttyBuf[tb + i];
      }
      SpliceIs(old(vga[..]), 0, ttyBuf[tb..tb + CELLS], vga[..]);
    }

    // ---- scrolling and clearing ----

    // Row `from` of the current terminal, copied to row `to` of the terminal and of the screen.
    method CopyRow(from: nat, to: nat)
      requires Separate() && Sizes() && ttyCur < TTY_COUNT && from < HEIGHT && to < HEIGHT && from != to
      modifies vga, ttyBuf
      ensures ttyCur * CELLS + CELLS < ttyBuf.Length
      ensures forall i :: 0 <= i < vga.Length ==>
                vga[i] == if InRow(0, to, i) then old(ttyBuf[ttyCur * CELLS + from * WIDTH + (i - to * WIDTH)])
                          else old(vga[i])
      ensures forall i :: 0 <= i < ttyBuf.Length ==>
                ttyBuf[i] == if InRow(ttyCur, to, i) then old(ttyBuf[i + from * WIDTH - to * WIDTH]) else old(ttyBuf[i])
    {
      var src, dst, at := ttyCur * CELLS + from * WIDTH, ttyCur * CELLS + to * WIDTH, to * WIDTH;
      assert ttyCur * CELLS + CELLS < ttyBuf.Length;
      for col := 0 to WIDTH
        invariant forall i :: 0 <= i < vga.Length ==>
                    vga[i] == if at <= i < at + col then old(ttyBuf[src + (i - at)]) else old(vga[i])
        invariant forall i :: 0 <= i < ttyBuf.Length ==>
                    ttyBuf[i] == if dst <= i < dst + col then old(ttyBuf[i + src - dst]) else old(ttyBuf[i])
      {
        ttyBuf[dst + col] := ttyBuf[src + col];
        vga[at + col] := ttyBuf[dst + col];
      }
    }

    // A row of the current terminal and of the screen, blanked.
    method BlankRow(to: nat)
      requires Separate() && Sizes() && ttyCur < TTY_COUNT && to < HEIGHT
      modifies vga, ttyBuf
      ensures RowBlank(old(vga[..]), vga[..], to * WIDTH, MakeCell(vgaColor, SPACE))
      ensures RowBlank(old(ttyBuf[..]), ttyBuf[..], ttyCur * CELLS + to * WIDTH, MakeCell(vgaColor, SPACE))
    {
      var at, dst := to * WIDTH, ttyCur * CELLS + to * WIDTH;
      assert ttyCur * CELLS + CELLS < ttyBuf.Length;
      var empty := MakeCell(vgaColor, SPACE);
      for col := 0 to WIDTH
        invariant forall i :: 0 <= i < vga.Length ==> vga[i] == if at <= i < at + col then empty else old(vga[i])
        invariant forall i :: 0 <= i < ttyBuf.Length ==>
                    ttyBuf[i] == if dst <= i < dst + col then empty else old(ttyBuf[i])
      {
        ttyBuf[dst + col] := empty;
        vga[at + col] := empty;
      }
    }

    // The loop shared by scroll_screen and scroll_up: every row moves up.
    method LiftRows()
      requires Separate() && Sizes() && ttyCur < TTY_COUNT
      modifies vga, ttyBuf
      ensures Lifted(old(vga[..]), vga[..], 0, old(ttyBuf[..]), ttyCur * CELLS)
      ensures Lifted(old(ttyBuf[..]), ttyBuf[..], ttyCur * CELLS, old(ttyBuf[..]), ttyCur * CELLS)
    {
      ghost var tb := ttyCur * CELLS;
      assert tb + CELLS < ttyBuf.Length;
      for row := 1 to HEIGHT
        invariant forall i :: 0 <= i < vga.Length ==>
                    vga[i] == if i < (row - 1) * WIDTH then old(ttyBuf[tb + i + WIDTH]) else old(vga[i])
        invariant forall i :: 0 <= i < ttyBuf.Length ==>
                    ttyBuf[i] == if tb <= i < tb + (row - 1) * WIDTH then old(ttyBuf[i + WIDTH]) else old(ttyBuf[i])
      {
        CopyRow(row, row - 1);
      }
    }

    // The loop of scroll_down: every row moves down.
    method LowerRows()
      requires Separate() && Sizes() && ttyCur < TTY_COUNT
      modifies vga, ttyBuf
      ensures Lowered(old(vga[..]), vga[..], 0, old(ttyBuf[..]), ttyCur * CELLS)
      ensures Lowered(old(ttyBuf[..]), ttyBuf[..], ttyCur * CELLS, old(ttyBuf[..]), ttyCur * CELLS)
    {
      ghost var tb := ttyCur * CELLS;
      assert tb + CELLS < ttyBuf.Length;
      for row := HEIGHT - 1 downto 0
        invariant forall i :: 0 <= i < vga.Length ==>
                    vga[i] == if (row + 1) * WIDTH <= i < CELLS then old(ttyBuf[tb + i - WIDTH]) else old(vga[i])
        invariant forall i :: 0 <= i < ttyBuf.Length ==>
                    ttyBuf[i] == if tb + (row + 1) * WIDTH <= i < tb + CELLS then old(ttyBuf[i - WIDTH])
                                 else old(ttyBuf[i])
      {
        CopyRow(row, row + 1);
      }
    }

    method ShiftUp()
      requires Separate() && Sizes() && ttyCur < TTY_COUNT
      modifies vga, ttyBuf
      ensures var content := old(ttyBuf[ttyCur * CELLS..ttyCur * CELLS + CELLS])[WIDTH..] + Blank(vgaColor);
              && vga[..] == Splice(old(vga[..]), 0, content)
              && ttyBuf[..] == Splice(old(ttyBuf[..]), ttyCur * CELLS, content)
    {
      ghost var tb, v, t := ttyCur * CELLS, vga[..], ttyBuf[..];
      LiftRows();
      ghost var v1, t1 := vga[..], ttyBuf[..];
      BlankRow(HEIGHT - 1);
      UpIs(v, v1, vga[..], 0, t, tb, MakeCell(vgaColor, SPACE));
      UpIs(t, t1, ttyBuf[..], tb, t, tb, MakeCell(vgaColor, SPACE));
    }

    method ShiftDown()
      requires Separate() && Sizes() && ttyCur < TTY_COUNT
      modifies vga, ttyBuf
      ensures var content := Blank(vgaColor) + old(ttyBuf[ttyCur * CELLS..ttyCur * CELLS + CELLS])[..CELLS - WIDTH];
              && vga[..] == Splice(old(vga[..]), 0, content)
              && ttyBuf[..] == Splice(old(ttyBuf[..]), ttyCur * CELLS, content)
    {
      ghost var tb, v, t := ttyCur * CELLS, vga[..], ttyBuf[..];
      LowerRows();
      ghost var v1, t1 := vga[..], ttyBuf[..];
      BlankRow(0);
      DownIs(v, v1, vga[..], 0, t, tb, MakeCell(vgaColor, SPACE));
      DownIs(t, t1, ttyBuf[..], tb, t, tb, MakeCell(vgaColor, SPACE));
    }

    // The clearing loop.
    method FillScreen()
      requires Separate() && Sizes() && ttyCur < TTY_COUNT
      modifies vga, ttyBuf
      ensures var content := Screen.Fill(MakeCell(vgaColor, SPACE), CELLS);
              && vga[..] == Splice(old(vga[..]), 0, content)
              && ttyBuf[..] == Splice(old(ttyBuf[..]), ttyCur * CELLS, content)
    {
      var tb := ttyCur * CELLS;
      assert tb + CELLS < ttyBuf.Length;
      var empty := MakeCell(vgaColor, SPACE);
      ghost var content := Screen.Fill(empty, CELLS);
      for i := 0 to WIDTH * HEIGHT
        invariant Moved(old(vga[..]), vga[..], 0, content, i)
        invariant Moved(old(ttyBuf[..]), ttyBuf[..], tb, content, i)
      {
        vga[i] := empty;
        ttyBuf[tb + i] := empty;
      }
      SpliceIs(old(vga[..]), 0, content, vga[..]);
      SpliceIs(old(ttyBuf[..]), tb, content, ttyBuf[..]);
    }

    // The same loops, as operations on the whole console.

    method RowsUp()
      requires Valid()
      modifies vga, ttyBuf
      ensures View() == Screen.RowsUp(old(View()))
      ensures Valid()
    {
      ShiftUp();
    }

    method RowsDown()
      requires Valid()
      modifies vga, ttyBuf
      ensures View() == Screen.RowsDown(old(View()))
      ensures Valid()
    {
      ShiftDown();
    }

    method Wipe()
      requires Valid()
      modifies vga, ttyBuf
      ensures View() == Screen.Wipe(old(View()))
      ensures Valid()
    {
      FillScreen();
    }

    method KeepBackup()
      requires Valid()
      modifies screenBackup
      ensures View() == Backup(old(View()))
      ensures Valid()
    {
      BackupCurrentScreen();
    }

    method SaveRow(r: nat)
      requires Valid() && r < HEIGHT
      modifies this`historyWritePos, this`historyCount, this`lines, history
      ensures View() == SaveLine(old(View()), r)
      ensures Valid()
    {
      SaveLineToHistory(r);
    }

    // ---- the history view ----

    /** show_history_lines */
    method ShowHistoryLines()
      requires Separate() && Sizes() && RingOk() && ViewOk(lines, viewOffset)
      modifies vga
      ensures vga[..] == ViewImage(lines, viewOffset) + [old(vga[CELLS])]
    {
      for i := 0 to WIDTH * HEIGHT
        invariant forall j :: 0 <= j < vga.Length ==> vga[j] == if j < i then DEFAULT_CELL else old(vga[j])
      {
        vga[i] := DEFAULT_CELL;
      }
      var linesToShow := HEIGHT - 1;
      if linesToShow > historyCount {
        linesToShow := historyCount;
      }
      ShowRows(linesToShow);
      ghost var v := vga[..];
      ShowPrompt(linesToShow);
      RowsKept(v, vga[..], lines, viewOffset);
      ImageAssembled(vga[..], lines, viewOffset);
    }

    // The lines of the window, from the ring.
    method ShowRows(linesToShow: nat)
      requires Separate() && Sizes() && RingOk() && ViewOk(lines, viewOffset) && linesToShow == Window(lines)
      modifies vga
      ensures forall r :: 0 <= r < linesToShow ==> RowShown(vga[..], lines, viewOffset, r)
      ensures forall i :: linesToShow * WIDTH <= i < vga.Length ==> vga[i] == old(vga[i])
    {
      var startIndex := CRem(historyWritePos - linesToShow - viewOffset, HISTORY_SIZE);
      if startIndex < 0 {
        startIndex := startIndex + HISTORY_SIZE;
      }
      for screenRow := 0 to linesToShow
        invariant forall r :: 0 <= r < screenRow ==> RowShown(vga[..], lines, viewOffset, r)
        invariant forall i :: screenRow * WIDTH <= i < vga.Length ==> vga[i] == old(vga[i])
      {
        ghost var v := vga[..];
        ShowWindowRow(screenRow, startIndex, linesToShow);
        forall r | 0 <= r < screenRow ensures RowShown(vga[..], lines, viewOffset, r) {
          assert RowShown(v, lines, viewOffset, r);
          RowKept(v, vga[..], lines, viewOffset, r);
        }
      }
    }

    method ShowWindowRow(screenRow: nat, startIndex: nat, ghost linesToShow: nat)
      requires Separate() && Sizes() && RingOk() && ViewOk(lines, viewOffset)
      requires linesToShow == Window(lines) && screenRow < linesToShow
      requires var start := CRem(RingSlot(|lines|) - linesToShow - viewOffset, HISTORY_SIZE);
               startIndex == if start < 0 then start + HISTORY_SIZE else start
      modifies vga
      ensures RowShown(vga[..], lines, viewOffset, screenRow)
      ensures forall i :: 0 <= i < vga.Length && !(screenRow * WIDTH <= i < screenRow * WIDTH + WIDTH) ==>
                vga[i] == old(vga[i])
    {
      var histIndex := (startIndex + screenRow) % HISTORY_SIZE;
      WindowSlot(history[..], lines, viewOffset, screenRow, startIndex);
      ShowOneRow(screenRow, histIndex);
    }

    method ShowOneRow(screenRow: nat, histIndex: nat)
      requires Separate() && Sizes() && screenRow < HEIGHT && histIndex < HISTORY_SIZE
      modifies vga
      ensures vga[screenRow * WIDTH..screenRow * WIDTH + WIDTH] == BlankedLine(RingLine(history[..], histIndex))
      ensures forall i :: 0 <= i < vga.Length && !(screenRow * WIDTH <= i < screenRow * WIDTH + WIDTH) ==>
                vga[i] == old(vga[i])
    {
      var at, from := screenRow * WIDTH, histIndex * WIDTH;
      for col := 0 to WIDTH
        invariant forall i :: 0 <= i < vga.Length ==>
                    vga[i] == if at <= i < at + col then Blanked(history[from + (i - at)]) else old(vga[i])
      {
        var saved := history[from + col];
        var ch := saved % 256;
        if ch >= 32 && ch <= 126 {
          vga[at + col] := saved;
        } else {
          vga[at + col] := DEFAULT_CELL;
        }
      }
    }

    method ShowPrompt(promptRow: nat)
      requires Separate() && Sizes() && promptRow == Window(lines)
      requires forall i :: promptRow * WIDTH <= i < CELLS ==> vga[i] == DEFAULT_CELL
      modifies vga
      ensures forall i :: 0 <= i < vga.Length ==>
                vga[i] == if promptRow * WIDTH <= i < CELLS then PromptCell(lines, i) else old(vga[i])
    {
      ShowText(promptRow * WIDTH + (WIDTH - |PROMPT|) / 2, PROMPT);
    }

    method ShowText(at: nat, text: string)
      requires at + |text| <= vga.Length
      modifies vga
      ensures forall j :: 0 <= j < vga.Length ==>
                vga[j] == if at <= j < at + |text| then PROMPT_ATTR + text[j - at] as nat % 256 else old(vga[j])
    {
      for i := 0 to |text|
        invariant forall j :: 0 <= j < vga.Length ==>
                    vga[j] == if at <= j < at + i then PROMPT_ATTR + text[j - at] as nat % 256 else old(vga[j])
      {
        vga[at + i] := PROMPT_ATTR + text[i] as nat % 256;
      }
    }

    method ViewHistoryUp()
      requires Valid()
      modifies this`isViewing, this`viewOffset, screenBackup, vga
      ensures View() == ViewUp(old(View()))
      ensures Valid()
    {
      if historyCount == 0 {
        return;
      }
      if !isViewing {
        BackupCurrentScreen();
        isViewing := true;
        viewOffset := 0;
      } else {
        viewOffset := viewOffset + 1;
        if viewOffset > historyCount - (HEIGHT - 1) {
          viewOffset := historyCount - (HEIGHT - 1);
        }
        if viewOffset < 0 {
          viewOffset := 0;
        }
      }
      ShowHistoryLines();
    }

    method ViewHistoryDown()
      requires Valid()
      modifies this`isViewing, this`viewOffset, vga, ttyBuf
      ensures View() == ViewDown(old(View()))
      ensures Valid()
    {
      if !isViewing {
        return;
      }
      viewOffset := viewOffset - 1;
      if viewOffset < 0 {
        isViewing := false;
        viewOffset := 0;
        RestoreScreenFromBackup();
      } else {
        ShowHistoryLines();
      }
    }

    // ---- operations ----

    method SetVgaColor(fg: Byte, bg: Byte)
      requires Valid()
      modifies this`vgaColor, ttyColor
      ensures View() == SetColor(old(View()), fg, bg)
      ensures Valid()
    {
      vgaColor := MakeColor(fg, bg);
      ttyColor[ttyCur] := vgaColor;
    }

    /** scroll_screen: the cursor comes from the row below the screen. */
    method ScrollScreen()
      requires ValidBelow()
      modifies this`historyWritePos, this`historyCount, this`lines, this`cursorRow, this`cursorCol,
               history, vga, ttyBuf, screenBackup
      ensures View() == Scroll(old(View()))
      ensures Valid()
    {
      ghost var s0 := View();
      SaveTopRow();
      ghost var s1 := View();
      MoveRowsUp();
      ghost var s2 := View();
      CursorToLastRow();
      ScrollSteps(s0, s1, s2);
      KeepBackup();
    }

    method SaveTopRow()
      requires ValidBelow()
      modifies this`historyWritePos, this`historyCount, this`lines, history
      ensures View() == SaveLine(old(View()).(row := 0), 0).(row := cursorRow)
      ensures ValidBelow()
    {
      SaveLineToHistory(0);
    }

    method MoveRowsUp()
      requires ValidBelow()
      modifies vga, ttyBuf
      ensures View() == Screen.RowsUp(old(View()).(row := 0)).(row := cursorRow)
      ensures ValidBelow()
    {
      ShiftUp();
    }

    method CursorToLastRow()
      requires ValidBelow()
      modifies this`cursorRow, this`cursorCol
      ensures View() == old(View()).(row := HEIGHT - 1, col := 0)
      ensures Valid()
    {
      cursorRow := HEIGHT - 1;
      cursorCol := 0;
    }

    method ClearScreen()
      requires Valid()
      modifies this`historyWritePos, this`historyCount, this`lines, this`cursorRow, this`cursorCol, this`isViewing,
               history, vga, ttyBuf, screenBackup
      ensures View() == Clear(old(View()))
      ensures Valid()
    {
      SaveAllRows();
      Wipe();
      HomeCursor();
      KeepBackup();
      EndView();
    }

    method EndView()
      requires Valid()
      modifies this`isViewing
      ensures View() == old(View()).(viewing := false)
      ensures Valid()
    {
      isViewing := false;
    }

    method HomeCursor()
      requires Valid()
      modifies this`cursorRow, this`cursorCol
      ensures View() == old(View()).(row := 0, col := 0)
      ensures Valid()
    {
      cursorRow := 0;
      cursorCol := 0;
    }

    method SaveAllRows()
      requires Valid()
      modifies this`historyWritePos, this`historyCount, this`lines, history
      ensures View() == SaveRows(old(View()), 0)
      ensures Valid()
    {
      for row := 0 to HEIGHT
        invariant Valid() && SaveRows(View(), row) == SaveRows(old(View()), 0)
      {
        SaveRow(row);
      }
    }

    method PrintCharColor(c: Byte, fg: Byte, bg: Byte)
      requires Valid()
      modifies this`historyWritePos, this`historyCount, this`lines, this`cursorRow, this`cursorCol, this`isViewing,
               this`viewOffset, this`vgaColor, ttyColor, history, vga, ttyBuf, screenBackup
      ensures View() == Print(old(View()), c, fg, bg)
      ensures Valid()
    {
      LeaveHistoryView();
      var oldColor := vgaColor;
      SetVgaColor(fg, bg);
      PlaceChar(c);
      if cursorRow >= HEIGHT {
        ScrollScreen();
      }
      EndPrint(oldColor);
    }

    method LeaveHistoryView()
      requires Valid()
      modifies this`isViewing, this`viewOffset, vga, ttyBuf
      ensures View() == LeaveView(old(View()))
      ensures Valid()
    {
      if isViewing {
        isViewing := false;
        viewOffset := 0;
        RestoreScreenFromBackup();
      }
    }

    method EndPrint(oldColor: Byte)
      requires Valid()
      modifies this`vgaColor, ttyColor, screenBackup
      ensures View() == Backup(old(View()).(color := oldColor, ttyColor := old(ttyColor[..])[ttyCur := oldColor]))
      ensures Valid()
    {
      vgaColor := oldColor;
      ttyColor[ttyCur] := oldColor;
      BackupCurrentScreen();
    }

    // The switch of print_char_color; the row may end up just below the screen.
    method PlaceChar(c: Byte)
      requires Valid()
      modifies this`cursorRow, this`cursorCol, vga, ttyBuf
      ensures View() == Advance(old(View()), c)
      ensures ValidBelow()
    {
      if c == 10 {
        cursorRow := cursorRow + 1;
        cursorCol := 0;
      } else if c == 13 {
        cursorCol := 0;
      } else if c == 9 {
        cursorCol := (cursorCol + 4) / 4 * 4 % 256;
      } else {
        if cursorCol >= WIDTH {
          cursorCol := 0;
          cursorRow := cursorRow + 1;
        }
        var idx := cursorRow * WIDTH + cursorCol;
        var val := MakeCell(vgaColor, c);
        ttyBuf[ttyCur * CELLS + idx] := val;
        vga[idx] := val;
        cursorCol := cursorCol + 1;
      }
    }

    method VtSwitch(ttyNum: int)
      requires Valid()
      modifies this`ttyCur, this`cursorRow, this`cursorCol, this`vgaColor, ttyRow, ttyCol, ttyColor, vga, screenBackup
      ensures View() == Switch(old(View()), ttyNum)
      ensures Valid()
    {
      if ttyNum < 0 || ttyNum >= TTY_COUNT || ttyNum == ttyCur {
        return;
      }
      TakeSeat(ttyNum);
      VtRenderActive();
      BackupCurrentScreen();
    }

    method TakeSeat(ttyNum: nat)
      requires Valid() && ttyNum < TTY_COUNT
      modifies this`ttyCur, this`cursorRow, this`cursorCol, this`vgaColor, ttyRow, ttyCol, ttyColor
      ensures View() == Seat(old(View()), ttyNum)
      ensures Valid()
    {
      ttyRow[ttyCur] := cursorRow;
      ttyCol[ttyCur] := cursorCol;
      ttyColor[ttyCur] := vgaColor;
      ttyCur := ttyNum;
      cursorRow := ttyRow[ttyCur];
      cursorCol := ttyCol[ttyCur];
      vgaColor := ttyColor[ttyCur];
    }

    method ScrollUpByHand()
      requires Valid()
      modifies this`historyWritePos, this`historyCount, this`lines, this`cursorRow, history, vga, ttyBuf, screenBackup
      ensures View() == ScrollUp(old(View()))
      ensures Valid()
    {
      SaveRow(0);
      RowsUp();
      FollowUp();
      KeepBackup();
    }

    method FollowUp()
      requires Valid()
      modifies this`cursorRow
      ensures View() == old(View()).(row := if old(cursorRow) > 0 then old(cursorRow) - 1 else 0)
      ensures Valid()
    {
      if cursorRow == HEIGHT - 1 {
        cursorRow := cursorRow - 1;
      } else if cursorRow > 0 {
        cursorRow := cursorRow - 1;
      }
    }

    method ScrollDownByHand()
      requires Valid()
      modifies this`historyWritePos, this`historyCount, this`lines, this`cursorRow, history, vga, ttyBuf, screenBackup
      ensures View() == ScrollDown(old(View()))
      ensures Valid()
    {
      SaveRow(HEIGHT - 1);
      RowsDown();
      FollowDown();
      KeepBackup();
    }

    method FollowDown()
      requires Valid()
      modifies this`cursorRow
      ensures View() == old(View()).(row := if old(cursorRow) < HEIGHT - 1 then old(cursorRow) + 1 else old(cursorRow))
      ensures Valid()
    {
      if cursorRow == 0 {
        cursorRow := cursorRow + 1;
      } else if cursorRow < HEIGHT - 1 {
        cursorRow := cursorRow + 1;
      }
    }

    // ---- cursor keys ----

    method MoveCursorUp()
      requires Valid()
      modifies this`cursorRow, this`isViewing, this`viewOffset, screenBackup, vga
      ensures View() == CursorUp(old(View()))
      ensures Valid()
    {
      if cursorRow > 0 {
        cursorRow := cursorRow - 1;
      } else {
        ViewHistoryUp();
        cursorRow := 0;
      }
    }

    method MoveCursorDown()
      requires Valid()
      modifies this`cursorRow, this`isViewing, this`viewOffset, vga, ttyBuf
      ensures View() == CursorDown(old(View()))
      ensures Valid()
    {
      if cursorRow < HEIGHT - 1 {
        cursorRow := cursorRow + 1;
      } else {
        ViewHistoryDown();
        cursorRow := HEIGHT - 1;
      }
    }

    method MoveCursorLeft()
      requires Valid()
      modifies this`cursorRow, this`cursorCol
      ensures View() == CursorLeft(old(View()))
      ensures Valid()
    {
      if cursorCol > 0 {
        cursorCol := cursorCol - 1;
      } else if cursorRow > 0 {
        cursorRow := cursorRow - 1;
        cursorCol := WIDTH - 1;
      }
    }

    method MoveCursorRight()
      requires Valid()
      modifies this`cursorRow, this`cursorCol
      ensures View() == CursorRight(old(View()))
      ensures Valid()
    {
      if cursorCol < WIDTH - 1 {
        cursorCol := cursorCol + 1;
      } else if cursorRow < HEIGHT - 1 {
        cursorRow := cursorRow + 1;
        cursorCol := 0;
      }
    }

    // ---- text ----

    method PrintStrColor(str: seq<Byte>, fg: Byte, bg: Byte)
      requires Valid()
      modifies this`historyWritePos, this`historyCount, this`lines, this`cursorRow, this`cursorCol, this`isViewing,
               this`viewOffset, this`vgaColor, ttyColor, history, vga, ttyBuf, screenBackup
      ensures View() == PrintAll(old(View()), str, fg, bg)
      ensures Valid()
    {
      for i := 0 to |str|
        invariant Valid() && PrintAll(View(), str[i..], fg, bg) == PrintAll(old(View()), str, fg, bg)
      {
        assert str[i..][1..] == str[i + 1..];
        PrintFirst(str[i], fg, bg, str[i..]);
      }
    }

    // The first character of a text that is still to be printed.
    method PrintFirst(c: Byte, fg: Byte, bg: Byte, ghost rest: seq<Byte>)
      requires Valid() && rest != [] && rest[0] == c
      modifies this`historyWritePos, this`historyCount, this`lines, this`cursorRow, this`cursorCol, this`isViewing,
               this`viewOffset, this`vgaColor, ttyColor, history, vga, ttyBuf, screenBackup
      ensures Valid() && PrintAll(View(), rest[1..], fg, bg) == PrintAll(old(View()), rest, fg, bg)
    {
      PrintCharColor(c, fg, bg);
    }

    /** print_uint64_color: prints the decimal digits, from a buffer of 20 characters. */
    method PrintUint64Color(num: Word, fg: Byte, bg: Byte)
      requires Valid()
      modifies this`historyWritePos, this`historyCount, this`lines, this`cursorRow, this`cursorCol, this`isViewing,
               this`viewOffset, this`vgaColor, ttyColor, history, vga, ttyBuf, screenBackup
      ensures View() == PrintAll(old(View()), Bytes(Digits(num, 10, false)), fg, bg)
      ensures Valid()
    {
      if num == 0 {
        assert Bytes(['0']) == [48];
        PrintCharColor(48, fg, bg);
        return;
      }
      var buf, idx := DecimalDigits(num);
      PrintBackwards(buf[..idx], fg, bg);
    }

    // The characters of the buffer, from the last one to the first.
    method PrintBackwards(buf: string, fg: Byte, bg: Byte)
      requires Valid()
      modifies this`historyWritePos, this`historyCount, this`lines, this`cursorRow, this`cursorCol, this`isViewing,
               this`viewOffset, this`vgaColor, ttyColor, history, vga, ttyBuf, screenBackup
      ensures View() == PrintAll(old(View()), Bytes(Reversed(buf)), fg, bg)
      ensures Valid()
    {
      ghost var rest := Bytes(Reversed(buf));
      assert buf[..|buf|] == buf;
      var i: int := |buf|;
      while i > 0
        invariant 0 <= i <= |buf| && rest == Bytes(Reversed(buf[..i]))
        invariant Valid() && PrintAll(View(), rest, fg, bg) == PrintAll(old(View()), Bytes(Reversed(buf)), fg, bg)
      {
        i := i - 1;
        BackwardsStep(buf, i);
        PrintFirst(buf[i] as nat % 256, fg, bg, rest);
        rest := rest[1..];
      }
    }

    // The digit loop of print_uint64_color.
    method DecimalDigits(num0: Word) returns (buf: array<char>, idx: nat)
      requires num0 > 0
      ensures fresh(buf) && buf.Length == 20 && idx <= 20 && Reversed(buf[..idx]) == Digits(num0, 10, false)
    {
      buf := new char[20];
      idx := 0;
      var num: Word := num0;
      ScratchSuffices(num0, 10, false);
      assert Reversed(buf[..0]) == "" && Rest(num, 10, false) + "" == Rest(num, 10, false);
      while num > 0
        invariant idx <= 20 && Rest(num, 10, false) + Reversed(buf[..idx]) == Digits(num0, 10, false)
        decreases num
      {
        ghost var done := buf[..idx];
        RestStep(num, 10, false, Reversed(done));
        assert |Rest(num, 10, false)| + idx == |Rest(num, 10, false) + Reversed(done)|;
        buf[idx] := '0' + (num % 10) as char;
        ReversedSnoc(done, buf[idx]);
        assert buf[..idx + 1] == done + [buf[idx]];
        idx := idx + 1;
        num := num / 10;
      }
      assert "" + Reversed(buf[..idx]) == Reversed(buf[..idx]);
    }
  }

  // Saving and moving rows do not look at the cursor.
  lemma ScrollSteps(s0: Con, s1: Con, s2: Con)
    requires Shape(s0.(row := 0)) && s1 == SaveLine(s0.(row := 0), 0).(row := s0.row)
    requires s2 == Screen.RowsUp(s1.(row := 0)).(row := s0.row)
    ensures Backup(s2.(row := HEIGHT - 1, col := 0)) == Scroll(s0)
  {
  }

  function Bytes(s: string): seq<Byte> {
    seq(|s|, i requires 0 <= i < |s| => s[i] as nat % 256)
  }

  lemma BackwardsStep(s: string, i: nat)
    requires i < |s|
    ensures var rest := Bytes(Reversed(s[..i + 1]));
            |rest| > 0 && rest[0] == s[i] as nat % 256 && rest[1..] == Bytes(Reversed(s[..i]))
  {
    assert s[..i + 1] == s[..i] + [s[i]];
    ReversedSnoc(s[..i], s[i]);
  }

  // Index i lies in row r of the buffer of terminal t.
  ghost predicate InRow(t: nat, r: nat, i: int) {
    t * CELLS + r * WIDTH <= i < t * CELLS + r * WIDTH + WIDTH
  }

  // The first n cells of `content` are in place from `at` on, and nothing else has changed.
  ghost predicate Moved(was: seq<Cell>, now: seq<Cell>, at: nat, content: seq<Cell>, n: nat) {
    && |now| == |was| && n <= |content| && at + |content| <= |was|
    && forall i :: 0 <= i < |was| ==> now[i] == if at <= i < at + n then content[i - at] else was[i]
  }

  // The rows of the buffer at `tb` of `t`, moved up by one, are stored at `at`; moved down by one; a row is blanked.
  ghost predicate Lifted(was: seq<Cell>, now: seq<Cell>, at: nat, t: seq<Cell>, tb: nat) {
    && tb + CELLS <= |t| && at + CELLS <= |was| == |now|
    && forall i :: 0 <= i < |now| ==>
         now[i] == if at <= i < at + CELLS - WIDTH then t[tb + (i - at) + WIDTH] else was[i]
  }

  ghost predicate Lowered(was: seq<Cell>, now: seq<Cell>, at: nat, t: seq<Cell>, tb: nat) {
    && tb + CELLS <= |t| && at + CELLS <= |was| == |now|
    && forall i :: 0 <= i < |now| ==>
         now[i] == if at + WIDTH <= i < at + CELLS then t[tb + (i - at) - WIDTH] else was[i]
  }

  ghost predicate RowBlank(was: seq<Cell>, now: seq<Cell>, at: nat, blank: Cell) {
    |now| == |was| && forall i :: 0 <= i < |now| ==> now[i] == if at <= i < at + WIDTH then blank else was[i]
  }

  lemma UpIs(was: seq<Cell>, mid: seq<Cell>, now: seq<Cell>, at: nat, t: seq<Cell>, tb: nat, blank: Cell)
    requires Lifted(was, mid, at, t, tb) && RowBlank(mid, now, at + CELLS - WIDTH, blank)
    ensures now == Splice(was, at, t[tb..tb + CELLS][WIDTH..] + Screen.Fill(blank, WIDTH))
  {
    SpliceIs(was, at, t[tb..tb + CELLS][WIDTH..] + Screen.Fill(blank, WIDTH), now);
  }

  lemma DownIs(was: seq<Cell>, mid: seq<Cell>, now: seq<Cell>, at: nat, t: seq<Cell>, tb: nat, blank: Cell)
    requires Lowered(was, mid, at, t, tb) && RowBlank(mid, now, at, blank)
    ensures now == Splice(was, at, Screen.Fill(blank, WIDTH) + t[tb..tb + CELLS][..CELLS - WIDTH])
  {
    SpliceIs(was, at, Screen.Fill(blank, WIDTH) + t[tb..tb + CELLS][..CELLS - WIDTH], now);
  }
}
