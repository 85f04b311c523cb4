/** What the line editor and the history promise, over every sequence of keys. */
module ShellLaws {
  import opened CText
  import opened Tokens
  import opened ShellSpec

  // ---- the buffer refines the pair (before, after) ----

  lemma InsertRefines(s: Sh, c: char)
    requires ShOk(s) && Printable(c)
    ensures LineOf(Insert(s, c)) ==
            if s.pos < MAX_CMD_LEN - 1 then Line(LineOf(s).before + [c], LineOf(s).after) else LineOf(s)
  {
    if s.pos < MAX_CMD_LEN - 1 {
      var t := Insert(s, c);
      assert t.buf[..t.cursor] == s.buf[..s.cursor] + [c];
      assert t.buf[t.cursor..t.pos] == s.buf[s.cursor..s.pos];
    }
  }

  lemma RemoveRefines(s: Sh, at: nat)
    requires ShOk(s) && at < s.pos
    ensures LineOf(Remove(s, at)) == Line(s.buf[..at], s.buf[at + 1..s.pos])
  {
    var t := Remove(s, at);
    assert t.buf[..at] == s.buf[..at];
    assert t.buf[at..t.pos] == s.buf[at + 1..s.pos];
  }

  lemma MoveRefines(s: Sh, cursor: nat)
    requires ShOk(s) && cursor <= s.pos
    ensures LineOf(s.(cursor := cursor)) == Line(Text(s)[..cursor], Text(s)[cursor..])
    ensures LineOf(s).before + LineOf(s).after == Text(s)
  {
    var t := s.(cursor := cursor);
    assert t.buf[..cursor] == Text(s)[..cursor];
    assert t.buf[cursor..t.pos] == Text(s)[cursor..];
  }

  /** One key other than UP, DOWN and ENTER does to the buffer what the pair prescribes. */
  lemma EditRefines(s: Sh, k: char)
    requires ShOk(s) && s.active && EditKey(k)
    ensures LineOf(Press(s, k)) == Edit(LineOf(s), k)
    ensures Press(s, k) == s.(buf := Press(s, k).buf, pos := Press(s, k).pos, cursor := Press(s, k).cursor)
  {
    var l := LineOf(s);
    MoveRefines(s, s.cursor);
    if k == KEY_LEFT {
      LeftRefines(s);
    } else if k == KEY_RIGHT {
      RightRefines(s);
    } else if k == KEY_HOME {
      MoveRefines(s, 0);
    } else if k == KEY_END {
      MoveRefines(s, s.pos);
    } else if k == KEY_DEL {
      if s.cursor < s.pos {
        RemoveRefines(s, s.cursor);
        assert l.after[1..] == s.buf[s.cursor + 1..s.pos];
      }
    } else if k == BACKSPACE {
      if s.cursor > 0 {
        RemoveRefines(s, s.cursor - 1);
        assert l.before[..s.cursor - 1] == s.buf[..s.cursor - 1];
      }
    } else if Printable(k) {
      InsertRefines(s, k);
    }
  }

  lemma LeftRefines(s: Sh)
    requires ShOk(s) && s.active
    ensures LineOf(Press(s, KEY_LEFT)) == Edit(LineOf(s), KEY_LEFT)
  {
    if s.cursor > 0 {
      LeftOn(s.buf, s.cursor, s.pos);
    }
  }

  lemma LeftOn(buf: string, c: nat, p: nat)
    requires 0 < c <= p <= |buf|
    ensures Edit(Line(buf[..c], buf[c..p]), KEY_LEFT) == Line(buf[..c - 1], buf[c - 1..p])
  {
    assert buf[..c][..c - 1] == buf[..c - 1] && [buf[..c][c - 1]] + buf[c..p] == buf[c - 1..p];
  }

  lemma RightRefines(s: Sh)
    requires ShOk(s) && s.active
    ensures LineOf(Press(s, KEY_RIGHT)) == Edit(LineOf(s), KEY_RIGHT)
  {
    if s.cursor < s.pos {
      RightOn(s.buf, s.cursor, s.pos);
      assert Press(s, KEY_RIGHT) == s.(cursor := s.cursor + 1);
    } else {
      assert Press(s, KEY_RIGHT) == s && LineOf(s).after == "";
    }
  }

  lemma RightOn(buf: string, c: nat, p: nat)
    requires c < p <= |buf|
    ensures Edit(Line(buf[..c], buf[c..p]), KEY_RIGHT) == Line(buf[..c + 1], buf[c + 1..p])
  {
    assert buf[..c] + [buf[c..p][0]] == buf[..c + 1] && buf[c..p][1..] == buf[c + 1..p];
  }

  /** So does every sequence of such keys, and the line never holds more than 127 characters. */
  lemma {:induction false} EditingRefines(s: Sh, keys: string)
    requires ShOk(s) && s.active && forall i :: 0 <= i < |keys| ==> EditKey(keys[i])
    ensures LineOf(PressAll(s, keys)) == EditAll(LineOf(s), keys)
    ensures PressAll(s, keys).hist == s.hist && PressAll(s, keys).current == s.current
    ensures LineOk(EditAll(LineOf(s), keys))
    decreases |keys|
  {
    if keys == "" {
      MoveRefines(s, s.cursor);
    } else {
      EditRefines(s, keys[0]);
      EditingRefines(Press(s, keys[0]), keys[1..]);
    }
  }

  // ---- laws of editing ----

  /** A typed character is taken back by BACKSPACE. */
  lemma BackspaceUndoesTyping(l: Line, c: char)
    requires Printable(c) && |l.Text()| < MAX_CMD_LEN - 1
    ensures Edit(Edit(l, c), BACKSPACE) == l
  {
    assert (l.before + [c])[..|l.before|] == l.before;
  }

  /** DEL is RIGHT and BACKSPACE, except at the end of the line. */
  lemma DeleteIsRightBackspace(l: Line)
    requires l.after != ""
    ensures Edit(l, KEY_DEL) == Edit(Edit(l, KEY_RIGHT), BACKSPACE)
  {
    assert (l.before + [l.after[0]])[..|l.before|] == l.before;
  }

  lemma RightUndoesLeft(l: Line)
    requires l.before != ""
    ensures Edit(Edit(l, KEY_LEFT), KEY_RIGHT) == l
  {
  }

  lemma LeftUndoesRight(l: Line)
    requires l.after != ""
    ensures Edit(Edit(l, KEY_RIGHT), KEY_LEFT) == l
  {
    assert (l.before + [l.after[0]])[..|l.before|] == l.before;
  }

  /** HOME and END go to the ends of the line and keep its text. */
  lemma HomeAndEnd(l: Line)
    ensures Edit(l, KEY_HOME) == Line("", l.Text()) && Edit(l, KEY_END) == Line(l.Text(), "")
  {
  }

  /** Keys that are none of the nine special ones and no printable ASCII character change nothing, nor does any key in a
    * shell that is not active. */
  lemma OtherKeys(s: Sh, k: char)
    requires ShOk(s)
    ensures !(1 <= k as int <= 8 || k as int == 10 || 32 <= k as int <= 126) ==> Press(s, k) == s
    ensures !s.active ==> Press(s, k) == s
  {
  }

  /** Every printable ASCII character is inserted before the cursor as long as the line has fewer than 127. */
  lemma PrintableKeys(s: Sh, k: char)
    requires ShOk(s) && s.active && 32 <= k as int <= 126
    ensures var (l, m) := (LineOf(s), LineOf(Press(s, k)));
            if s.pos < 127 then m.before == l.before + [k] && m.after == l.after else m == l
  {
    InsertRefines(s, k);
  }

  /** ENTER leaves an empty line, ready for the next one, and a shell that is still active; on an empty line it does
    * nothing. */
  lemma EnterEmpties(s: Sh)
    requires ShOk(s) && s.active
    ensures LineOf(Press(s, ENTER)) == Line("", "") && Press(s, ENTER).active
    ensures s.pos == 0 ==> Press(s, ENTER) == s
  {
  }

  /** UP and DOWN do nothing as long as no line has been entered. */
  lemma NoHistory(s: Sh)
    requires ShOk(s) && s.hist == []
    ensures Press(s, KEY_UP) == s && Press(s, KEY_DOWN) == s
  {
  }

  function Times(k: char, n: nat): string {
    seq(n, i => k)
  }

  /** HOME and p times RIGHT put the cursor at p, or at the end of a shorter line, and keep the text. */
  lemma CursorReaches(l: Line, p: nat)
    ensures var q := if p < |l.Text()| then p else |l.Text()|;
            EditAll(l, [KEY_HOME] + Times(KEY_RIGHT, p)) == Line(l.Text()[..q], l.Text()[q..])
  {
    var keys := [KEY_HOME] + Times(KEY_RIGHT, p);
    assert keys[1..] == Times(KEY_RIGHT, p);
    Rights(Line("", l.Text()), p);
    assert "" + l.Text() == l.Text();
  }

  lemma {:induction false} Rights(l: Line, p: nat)
    ensures var q := |l.before| + if p < |l.after| then p else |l.after|;
            EditAll(l, Times(KEY_RIGHT, p)) == Line(l.Text()[..q], l.Text()[q..])
    decreases p
  {
    if p == 0 {
      assert l.Text()[..|l.before|] == l.before && l.Text()[|l.before|..] == l.after;
    } else {
      assert Times(KEY_RIGHT, p)[1..] == Times(KEY_RIGHT, p - 1);
      var m := Edit(l, KEY_RIGHT);
      assert m.Text() == l.Text();
      Rights(m, p - 1);
    }
  }

  /** Text typed at the cursor is inserted there, as far as there is room. */
  lemma {:induction false} TypingInserts(l: Line, text: string)
    requires Typed(text) && LineOk(l)
    ensures var n := if |text| < MAX_CMD_LEN - 1 - |l.Text()| then |text| else MAX_CMD_LEN - 1 - |l.Text()|;
            EditAll(l, text) == Line(l.before + text[..n], l.after)
    decreases |text|
  {
    if text == "" {
      assert l.before + "" == l.before;
    } else {
      var m := Edit(l, text[0]);
      TypingInserts(m, text[1..]);
      if |l.Text()| < MAX_CMD_LEN - 1 {
        var n := if |text| < MAX_CMD_LEN - 1 - |l.Text()| then |text| else MAX_CMD_LEN - 1 - |l.Text()|;
        assert l.before + [text[0]] + text[1..][..n - 1] == l.before + text[..n];
      } else {
        assert l.before + text[..0] == l.before && l.before + text[1..][..0] == l.before;
      }
    }
  }

  // ---- the history ----

  lemma {:induction false} LastKept(ls: seq<string>)
    requires ls != []
    ensures Deduped(ls) != [] && Deduped(ls)[|Deduped(ls)| - 1] == ls[|ls| - 1]
  {
    if |ls| > 1 && ls[|ls| - 2] == ls[|ls| - 1] {
      LastKept(ls[..|ls| - 1]);
    }
  }

  lemma DedupedSnoc(done: seq<string>, cmd: string)
    ensures var d := Deduped(done);
            Deduped(done + [cmd]) == if d != [] && d[|d| - 1] == cmd then d else d + [cmd]
  {
    assert (done + [cmd])[..|done|] == done;
    if done != [] {
      LastKept(done);
      assert (done + [cmd])[|done| - 1] == done[|done| - 1];
    }
  }

  lemma RecentSnoc(d: seq<string>, cmd: string)
    requires cmd != ""
    ensures HistoryAdd(Recent(d), cmd) == Recent(if d != [] && d[|d| - 1] == cmd then d else d + [cmd])
  {
  }

  lemma PressHistory(s: Sh, k: char)
    requires ShOk(s)
    ensures Press(s, k).hist == if Entered(s, k) == [] then s.hist else HistoryAdd(s.hist, Entered(s, k)[0])
    ensures Entered(s, k) == [] || (|Entered(s, k)| == 1 && Entered(s, k)[0] != "")
  {
  }

  lemma EnteredStep(h: seq<string>, done: seq<string>, entered: seq<string>)
    requires h == Recent(Deduped(done)) && (entered == [] || (|entered| == 1 && entered[0] != ""))
    ensures (if entered == [] then h else HistoryAdd(h, entered[0])) == Recent(Deduped(done + entered))
  {
    if entered == [] {
      assert done + entered == done;
    } else {
      assert entered == [entered[0]];
      DedupedSnoc(done, entered[0]);
      RecentSnoc(Deduped(done), entered[0]);
    }
  }

  lemma Regroup(a: seq<string>, b: seq<string>, c: seq<string>)
    ensures (a + b) + c == a + (b + c)
  {
  }

  /** After any keys, the history is the last 50 of the lines entered so far, consecutive duplicates removed. */
  lemma {:induction false} HistoryIs(s: Sh, keys: string, done: seq<string>)
    requires ShOk(s) && s.hist == Recent(Deduped(done))
    ensures PressAll(s, keys).hist == Recent(Deduped(done + Submitted(s, keys)))
    decreases |keys|
  {
    if keys == "" {
      assert done + [] == done;
    } else {
      var t, entered := Press(s, keys[0]), Entered(s, keys[0]);
      PressHistory(s, keys[0]);
      EnteredStep(s.hist, done, entered);
      HistoryIs(t, keys[1..], done + entered);
      Regroup(done, entered, Submitted(t, keys[1..]));
    }
  }

  // ---- UP and DOWN ----

  function Min(a: nat, b: nat): nat {
    if a < b then a else b
  }

  // The same key n times.
  function Presses(s: Sh, k: char, n: nat): (t: Sh)
    requires ShOk(s)
    ensures ShOk(t)
  {
    if n == 0 then s else Press(Presses(s, k, n - 1), k)
  }

  lemma UpOnce(s: Sh)
    requires ShOk(s) && s.active && s.hist != []
    ensures var t := Press(s, KEY_UP);
            && t.active && t.hist == s.hist && t.current == Min(s.current + 1, |s.hist| - 1)
            && t.saved == (if s.current == -1 then CString(s.buf) else s.saved)
            && LineOf(t) == Line(s.hist[t.current], "")
  {
  }

  lemma DownOnce(s: Sh)
    requires ShOk(s) && s.active && s.hist != []
    ensures var t := Press(s, KEY_DOWN);
            && t.active && t.hist == s.hist && t.saved == s.saved
            && t.current == (if s.current >= 0 then s.current - 1 else -1)
            && LineOf(t) == Line(if s.current >= 1 then s.hist[s.current - 1] else s.saved, "")
  {
  }

  /** From the line being typed, k UPs lead to entry min(k, n) - 1 counted from the oldest, and the C string that was
    * in the buffer is kept aside. */
  lemma {:induction false} UpsShow(s: Sh, k: nat)
    requires ShOk(s) && s.active && s.current == -1 && s.hist != [] && k >= 1
    ensures var t := Presses(s, KEY_UP, k);
            && t.active && t.hist == s.hist && t.current == Min(k, |s.hist|) - 1
            && t.saved == CString(s.buf) && LineOf(t) == Line(s.hist[t.current], "")
  {
    if k > 1 {
      UpsShow(s, k - 1);
    }
    UpOnce(Presses(s, KEY_UP, k - 1));
  }

  /** From an entry of the history, m DOWNs lead m entries back, and from the first one to the text kept aside. */
  lemma {:induction false} DownsShow(s: Sh, m: nat)
    requires ShOk(s) && s.active && s.current >= 0 && m >= 1
    ensures var t := Presses(s, KEY_DOWN, m);
            && t.active && t.hist == s.hist && t.saved == s.saved
            && t.current == (if m <= s.current then s.current - m else -1)
            && LineOf(t) == Line(if m <= s.current then s.hist[s.current - m] else s.saved, "")
  {
    if m > 1 {
      DownsShow(s, m - 1);
    }
    DownOnce(Presses(s, KEY_DOWN, m - 1));
  }

  lemma {:induction false} PressBoth(s: Sh, a: string, b: string)
    requires ShOk(s)
    ensures PressAll(s, a + b) == PressAll(PressAll(s, a), b)
    decreases |a|
  {
    if a == "" {
      assert a + b == b;
    } else {
      assert (a + b)[1..] == a[1..] + b;
      PressBoth(Press(s, a[0]), a[1..], b);
    }
  }

  lemma OneKey(s: Sh, k: char)
    requires ShOk(s)
    ensures PressAll(s, [k]) == Press(s, k)
  {
    assert [k][1..] == "";
  }

  lemma {:induction false} PressTimes(s: Sh, k: char, n: nat)
    requires ShOk(s)
    ensures PressAll(s, Times(k, n)) == Presses(s, k, n)
  {
    if n > 0 {
      assert Times(k, n) == Times(k, n - 1) + [k];
      PressBoth(s, Times(k, n - 1), [k]);
      PressTimes(s, k, n - 1);
      OneKey(Presses(s, k, n - 1), k);
    }
  }

  /** UPs from the line being typed and enough DOWNs bring that line back, with the cursor at its end, exactly when the
    * line is not empty or the buffer starts with a NUL. */
  lemma UpsDownsRestore(s: Sh, k: nat, m: nat)
    requires ShOk(s) && s.active && s.current == -1 && s.hist != [] && k >= 1 && m >= Min(k, |s.hist|)
    ensures var t := PressAll(s, Times(KEY_UP, k) + Times(KEY_DOWN, m));
            && t.current == -1 && LineOf(t) == Line(CString(s.buf), "")
            && (LineOf(t) == Line(Text(s), "") <==> s.pos > 0 || s.buf[0] == NUL)
  {
    PressBoth(s, Times(KEY_UP, k), Times(KEY_DOWN, m));
    PressTimes(s, KEY_UP, k);
    PressTimes(Presses(s, KEY_UP, k), KEY_DOWN, m);
    UpsShow(s, k);
    DownsShow(Presses(s, KEY_UP, k), m);
    RestoredText(s);
  }

  lemma RestoredText(s: Sh)
    requires ShOk(s)
    ensures CString(s.buf) == Text(s) <==> s.pos > 0 || s.buf[0] == NUL
  {
    if s.pos > 0 {
      TextIsString(s.buf, s.pos);
    }
  }

  /** The case it excludes is reached: after entering the line "x", the buffer still holds it, and UP and DOWN on the
    * empty line bring it back. */
  lemma EmptyLineNotRestored(s: Sh)
    requires ShOk(s) && s.active && s.current == -1 && s.pos == 0
    ensures var t := Enter(Insert(s, 'x'));
            && t.pos == 0 && t.active && t.current == -1 && t.hist != []
            && LineOf(PressAll(t, Times(KEY_UP, 1) + Times(KEY_DOWN, 1))) == Line("x", "")
  {
    OneLetterEntered(s, Insert(s, 'x'), Enter(Insert(s, 'x')));
    UpsDownsRestore(Enter(Insert(s, 'x')), 1, 1);
  }

  lemma OneLetterEntered(s: Sh, u: Sh, t: Sh)
    requires ShOk(s) && s.pos == 0 && u == Insert(s, 'x') && t == Enter(u)
    ensures t.pos == 0 && t.current == s.current && t.active == s.active && t.hist != [] && CString(t.buf) == "x"
  {
    assert u.buf[0] == 'x' && u.buf[1] == NUL;
    assert Text(u) == "x";
    CutOneLetter();
    assert t.buf[..1] == "x" && t.buf[1] == NUL;
    CStringIs(t.buf, "x");
  }

  lemma CutOneLetter()
    ensures Cut("x") == "x"
  {
    var line := "x";
    assert forall i :: 0 <= i < |line| ==> !EndsAt(line, i);
  }

  /** ENTER does not leave the history: while an entry is shown, what was kept aside stays as it is, and the next UP
    * goes on from that entry. */
  lemma EnterKeepsPlace(s: Sh)
    requires ShOk(s) && s.active && s.current >= 0 && s.pos > 0
    ensures var t := Press(s, ENTER);
            && t.current == s.current && t.saved == s.saved
            && Press(t, KEY_UP).saved == s.saved
            && Press(t, KEY_UP).current == Min(s.current + 1, |t.hist| - 1)
  {
    HistoryAddOk(s.hist, Text(s));
  }

  // ---- the arguments of an entered line ----

  lemma {:induction false} CStringPrefix(a: string, b: string)
    requires Terminated(a)
    ensures CString(a + b) == CString(a)
  {
    CStringIs(a + b, CString(a));
  }

  /** The strings a command receives for an entered line: its words, if there are at most fourteen of them; the
    * fifteenth argument otherwise runs to the end of the line. */
  lemma EnteredArguments(s: Sh, i: nat)
    requires ShOk(s) && s.pos > 0 && i < |Argv(Text(s))|
    ensures CString(Enter(s).buf[Argv(Text(s))[i]..])
            == if i < 14 then Words(Text(s))[i] else Text(s)[Argv(Text(s))[i]..]
  {
    BufferArgument(s.buf, Text(s), i);
    Arguments(Text(s), i);
  }

  lemma BufferArgument(buf: string, line: string, i: nat)
    requires |line| < |buf| && buf[|line|] == NUL && i < |Argv(line)|
    ensures CString(Overlay(buf, 0, Cut(line))[Argv(line)[i]..]) == Argument(line, i)
  {
    OverlaidString(buf, Cut(line), Argv(line)[i]);
  }

  lemma OverlaidString(buf: string, cut: string, q: nat)
    requires |cut| < |buf| && buf[|cut|] == NUL && q <= |cut|
    ensures CString(Overlay(buf, 0, cut)[q..]) == CString((cut + [NUL])[q..])
  {
    var t, n := Overlay(buf, 0, cut), |cut| + 1;
    assert t[..n] == cut + [NUL];
    TerminatedAt((cut + [NUL])[q..], |cut| - q);
    assert t[q..] == (cut + [NUL])[q..] + t[n..];
    CStringPrefix((cut + [NUL])[q..], t[n..]);
  }
}
