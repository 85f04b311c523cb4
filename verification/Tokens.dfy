/** Splitting a line into words: the words, and what cutting them out of the line in place leaves. */
module Tokens {
  import opened CText

  const MAX_ARGS: nat := 16

  predicate Blank(c: char) {
    c == ' ' || c == '\t'
  }

  predicate StartsAt(line: string, i: nat)
    requires i < |line|
  {
    !Blank(line[i]) && (i == 0 || Blank(line[i - 1]))
  }

  predicate EndsAt(line: string, i: nat)
    requires i < |line|
  {
    Blank(line[i]) && i > 0 && !Blank(line[i - 1])
  }

  /** Where the words of the first p characters begin. */
  function Starts(line: string, p: nat): (r: seq<nat>)
    requires p <= |line|
    ensures forall i :: 0 <= i < |r| ==> r[i] < p
  {
    if p == 0 then []
    else if StartsAt(line, p - 1) then Starts(line, p - 1) + [p - 1]
    else Starts(line, p - 1)
  }

  lemma {:induction false} StartsSound(line: string, p: nat, i: nat)
    requires p <= |line| && i < |Starts(line, p)|
    ensures StartsAt(line, Starts(line, p)[i])
  {
    if i < |Starts(line, p - 1)| {
      StartsSound(line, p - 1, i);
    }
  }

  lemma {:induction false} StartsAscend(line: string, p: nat, i: nat, j: nat)
    requires p <= |line| && i < j < |Starts(line, p)|
    ensures Starts(line, p)[i] < Starts(line, p)[j]
  {
    if j < |Starts(line, p - 1)| {
      StartsAscend(line, p - 1, i, j);
    }
  }

  lemma {:induction false} StartsComplete(line: string, p: nat, q: nat) returns (i: nat)
    requires q < p <= |line| && StartsAt(line, q)
    ensures i < |Starts(line, p)| && Starts(line, p)[i] == q
  {
    if q == p - 1 {
      i := |Starts(line, p - 1)|;
    } else {
      i := StartsComplete(line, p - 1, q);
    }
  }

  function WordEnd(line: string, q: nat): (e: nat)
    requires q <= |line|
    ensures q <= e <= |line| && (e < |line| ==> Blank(line[e]))
    ensures forall i :: q <= i < e ==> !Blank(line[i])
    decreases |line| - q
  {
    if q == |line| || Blank(line[q]) then q else WordEnd(line, q + 1)
  }

  lemma {:induction false} WordEndIs(line: string, q: nat, e: nat)
    requires q <= e <= |line| && (e < |line| ==> Blank(line[e]))
    requires forall i :: q <= i < e ==> !Blank(line[i])
    ensures WordEnd(line, q) == e
    decreases e - q
  {
    if q < e {
      WordEndIs(line, q + 1, e);
    }
  }

  // The word that starts at q.
  function WordAt(line: string, q: nat): string
    requires q <= |line|
  {
    line[q..WordEnd(line, q)]
  }

  function Words(line: string): (ws: seq<string>)
    ensures |ws| == |Starts(line, |line|)|
    ensures forall i :: 0 <= i < |ws| ==> ws[i] == WordAt(line, Starts(line, |line|)[i])
  {
    var s := Starts(line, |line|);
    seq(|s|, i requires 0 <= i < |s| => WordAt(line, s[i]))
  }

  predicate MaximalRun(line: string, i: nat, j: nat) {
    && i < j <= |line|
    && (forall k :: i <= k < j ==> line[k] != ' ' && line[k] != '\t')
    && (i == 0 || line[i - 1] == ' ' || line[i - 1] == '\t')
    && (j == |line| || line[j] == ' ' || line[j] == '\t')
  }

  /** The words are exactly the maximal runs of characters other than blank and tab. */
  lemma WordsAreRuns(line: string, i: nat, j: nat)
    ensures MaximalRun(line, i, j)
            <==> exists k :: 0 <= k < |Words(line)| && Starts(line, |line|)[k] == i && WordEnd(line, i) == j
  {
    if MaximalRun(line, i, j) {
      var k := StartsComplete(line, |line|, i);
      WordEndIs(line, i, j);
      assert 0 <= k < |Words(line)| && Starts(line, |line|)[k] == i;
    }
    if k :| 0 <= k < |Words(line)| && Starts(line, |line|)[k] == i && WordEnd(line, i) == j {
      StartsSound(line, |line|, k);
    }
  }

  // ---- cutting ----

  function Argv(line: string): (r: seq<nat>)
    ensures |r| <= MAX_ARGS - 1
  {
    var s := Starts(line, |line|);
    if |s| < MAX_ARGS then s else s[..MAX_ARGS - 1]
  }

  // How far the line is read: to its end, or through the first character of the fifteenth word.
  function Stop(line: string): (p: nat)
    ensures p <= |line|
  {
    var s := Starts(line, |line|);
    if |s| < MAX_ARGS - 1 then |line| else s[MAX_ARGS - 2] + 1
  }

  // The first p characters have been cut: the blank after each word is a NUL.
  function CutTo(line: string, p: nat): (r: string)
    requires p <= |line|
    ensures |r| == |line|
  {
    seq(|line|, i requires 0 <= i < |line| => if i < p && EndsAt(line, i) then NUL else line[i])
  }

  function Cut(line: string): (r: string)
    ensures |r| == |line|
  {
    CutTo(line, Stop(line))
  }

  /** The characters that are cut are exactly the first blank or tab after each word, as far as the line is read. */
  lemma CutExactly(line: string, i: nat)
    requires i < |line|
    ensures var white := c => c == ' ' || c == '\t';
            Cut(line)[i] == if i < Stop(line) && white(line[i]) && i > 0 && !white(line[i - 1]) then NUL else line[i]
  {
  }

  /** The string that argv[i] points at once the line has been cut. */
  function Argument(line: string, i: nat): string
    requires i < |Argv(line)|
  {
    CString((Cut(line) + [NUL])[Argv(line)[i]..])
  }

  /** The first fourteen arguments are words; a fifteenth is all the rest of the line, blanks and further words
    * included. */
  lemma Arguments(line: string, i: nat)
    requires NoNul(line) && i < |Argv(line)|
    ensures Argument(line, i) == if i < 14 then Words(line)[i] else line[Argv(line)[i]..]
  {
    if i < MAX_ARGS - 2 {
      WordArgument(line, i);
    } else {
      TailArgument(line, i);
      assert line[Argv(line)[i]..|line|] == line[Argv(line)[i]..];
    }
  }

  lemma WordArgument(line: string, i: nat)
    requires NoNul(line) && i < |Argv(line)| && i < MAX_ARGS - 2
    ensures Argument(line, i) == WordAt(line, Starts(line, |line|)[i])
  {
    var q := Starts(line, |line|)[i];
    WordClosed(line, i);
    UncutString(line, q, WordEnd(line, q));
  }

  lemma TailArgument(line: string, i: nat)
    requires NoNul(line) && i < |Argv(line)| && i == MAX_ARGS - 2
    ensures Argument(line, i) == line[Argv(line)[i]..|line|]
  {
    StartsSound(line, |line|, i);
    var q := Starts(line, |line|)[i];
    assert !Blank(line[q]) && Stop(line) == q + 1 && Argv(line)[i] == q;
    UncutString(line, q, |line|);
  }

  lemma UncutString(line: string, q: nat, e: nat)
    requires NoNul(line) && q <= e <= |line| && (Cut(line) + [NUL])[e] == NUL
    requires forall i :: q <= i < e && i < Stop(line) ==> !Blank(line[i])
    ensures CString((Cut(line) + [NUL])[q..]) == line[q..e]
  {
    var cut := Cut(line) + [NUL];
    assert cut[q..q + (e - q)] == line[q..e];
    CStringAt(cut, q, line[q..e]);
  }

  lemma WordClosed(line: string, i: nat)
    requires i < |Argv(line)| && i < MAX_ARGS - 2
    ensures (Cut(line) + [NUL])[WordEnd(line, Starts(line, |line|)[i])] == NUL
  {
    var q := Starts(line, |line|)[i];
    StartsSound(line, |line|, i);
    if |Starts(line, |line|)| >= MAX_ARGS - 1 {
      StartsAscend(line, |line|, i, MAX_ARGS - 2);
      StartsSound(line, |line|, MAX_ARGS - 2);
      WordEndBefore(line, q, Starts(line, |line|)[MAX_ARGS - 2]);
    } else {
      WordEndBefore(line, q, |line|);
    }
  }

  // A word ends before the next one starts.
  lemma WordEndBefore(line: string, q: nat, n: nat)
    requires q < |line| && StartsAt(line, q) && q < n <= |line| && (n < |line| ==> StartsAt(line, n))
    ensures WordEnd(line, q) <= n
    ensures WordEnd(line, q) < |line| ==> EndsAt(line, WordEnd(line, q)) && (n < |line| ==> WordEnd(line, q) < n)
  {
    var e := WordEnd(line, q);
    assert !Blank(line[q]);
    if n < |line| {
      assert Blank(line[n - 1]);
    }
  }

  /** So a line of at most fourteen words is split into exactly its words. */
  lemma FewWords(line: string)
    requires NoNul(line) && |Words(line)| <= 14
    ensures |Argv(line)| == |Words(line)| && forall i :: 0 <= i < |Argv(line)| ==> Argument(line, i) == Words(line)[i]
  {
    forall i | 0 <= i < |Argv(line)| ensures Argument(line, i) == Words(line)[i] {
      Arguments(line, i);
    }
  }

  /** And one of more words gives fifteen arguments, the last of which is a word only if the line ends with it. */
  lemma ManyWords(line: string)
    requires NoNul(line) && |Words(line)| > 14
    ensures |Argv(line)| == 15
    ensures Argument(line, 14) == Words(line)[14] <==> WordEnd(line, Argv(line)[14]) == |line|
  {
    Arguments(line, MAX_ARGS - 2);
    var q := Argv(line)[MAX_ARGS - 2];
    assert |line[q..]| == |line| - q && |line[q..WordEnd(line, q)]| == WordEnd(line, q) - q;
    if WordEnd(line, q) == |line| {
      assert line[q..WordEnd(line, q)] == line[q..];
    }
  }

  // ---- joining words splits back ----

  predicate IsWord(w: string) {
    w != "" && forall j :: 0 <= j < |w| ==> !Blank(w[j])
  }

  predicate WordList(ws: seq<string>) {
    forall i :: 0 <= i < |ws| ==> IsWord(ws[i])
  }

  function Join(ws: seq<string>): string {
    if |ws| == 0 then ""
    else if |ws| == 1 then ws[0]
    else Join(ws[..|ws| - 1]) + " " + ws[|ws| - 1]
  }

  lemma {:induction false} StartsPrefix(a: string, b: string, p: nat)
    requires p <= |a|
    ensures Starts(a + b, p) == Starts(a, p)
  {
    if p > 0 {
      StartsPrefix(a, b, p - 1);
      assert StartsAt(a + b, p - 1) == StartsAt(a, p - 1);
    }
  }

  // A word appended at a position where one can start.
  lemma {:induction false} StartsWord(a: string, w: string, n: nat)
    requires 0 < n <= |w| && forall j :: 0 <= j < |w| ==> !Blank(w[j])
    requires a == "" || Blank(a[|a| - 1])
    ensures Starts(a + w, |a| + n) == Starts(a, |a|) + [|a|]
  {
    var line := a + w;
    if n == 1 {
      StartsPrefix(a, w, |a|);
      assert StartsAt(line, |a|);
    } else {
      StartsWord(a, w, n - 1);
      assert line[|a| + n - 2] == w[n - 2];
      assert !StartsAt(line, |a| + n - 1);
    }
  }

  lemma WordEndPrefix(a: string, b: string, q: nat)
    requires q < |a| && (b == "" || Blank(b[0]))
    ensures WordEnd(a + b, q) == WordEnd(a, q) && WordAt(a + b, q) == WordAt(a, q)
  {
    WordEndIs(a + b, q, WordEnd(a, q));
  }

  lemma LastWord(pre: string, w: string)
    requires forall j :: 0 <= j < |w| ==> !Blank(w[j])
    ensures WordAt(pre + w, |pre|) == w
  {
    WordEndIs(pre + w, |pre|, |pre| + |w|);
  }

  lemma StartsSnoc(a: string, w: string)
    requires IsWord(w)
    ensures var line := (a + " ") + w; Starts(line, |line|) == Starts(a, |a|) + [|a| + 1]
  {
    var pre := a + " ";
    StartsWord(pre, w, |w|);
    StartsPrefix(a, " ", |a|);
    assert !StartsAt(pre, |a|);
  }

  lemma WordsSnoc(a: string, w: string)
    requires IsWord(w)
    ensures Words((a + " ") + w) == Words(a) + [w]
  {
    var line := (a + " ") + w;
    StartsSnoc(a, w);
    var s := Starts(a, |a|);
    forall i | 0 <= i < |s| ensures Words(line)[i] == Words(a)[i] {
      assert line == a + (" " + w);
      WordEndPrefix(a, " " + w, s[i]);
    }
    LastWord(a + " ", w);
    assert Words(line)[|s|] == w;
  }

  lemma OneWord(w: string)
    requires IsWord(w)
    ensures Words(w) == [w]
  {
    assert "" + w == w;
    StartsWord("", w, |w|);
    LastWord("", w);
  }

  lemma WordsAreWords(line: string)
    ensures WordList(Words(line))
  {
    forall i | 0 <= i < |Words(line)| ensures IsWord(Words(line)[i]) {
      StartsSound(line, |line|, i);
    }
  }

  /** Words joined by single blanks are split into the same words. */
  lemma {:induction false} JoinSplits(ws: seq<string>)
    requires WordList(ws)
    ensures Words(Join(ws)) == ws
  {
    if |ws| == 1 {
      assert IsWord(ws[0]);
      OneWord(ws[0]);
    } else if |ws| > 1 {
      var init, w := ws[..|ws| - 1], ws[|ws| - 1];
      assert IsWord(w);
      JoinSplits(init);
      WordsSnoc(Join(init), w);
      assert init + [w] == ws;
    }
  }

  /** Splitting a line, joining the words by single blanks and splitting again gives the same words. */
  lemma SplitAgain(line: string)
    ensures Words(Join(Words(line))) == Words(line)
  {
    WordsAreWords(line);
    JoinSplits(Words(line));
  }
}
