/** The history ring: 1000 lines of cells, written round and round. */
module HistoryRing {
  import opened Screen

  lemma SpliceIs(a: seq<Cell>, at: nat, b: seq<Cell>, r: seq<Cell>)
    requires at + |b| <= |a| == |r|
    requires forall i :: 0 <= i < |a| ==> r[i] == if at <= i < at + |b| then b[i - at] else a[i]
    ensures r == Splice(a, at, b)
  {
  }

  /** C's remainder: the quotient is truncated toward zero. */
  function CRem(a: int, b: nat): int
    requires b > 0
  {
    if a >= 0 then a % b else -((-a) % b)
  }

  // The ring slot of the k-th line ever saved.
  function RingSlot(k: nat): nat {
    k % HISTORY_SIZE
  }

  /** The ring holds the last min(w, 1000) of the w lines saved. */
  ghost predicate RingHolds(ring: seq<Cell>, lines: seq<Line>) {
    && |ring| == HISTORY_SIZE * WIDTH
    && forall k :: |lines| - Kept(lines) <= k < |lines| ==> RingLine(ring, RingSlot(k)) == lines[k]
  }

  function RingLine(ring: seq<Cell>, p: nat): Line
    requires |ring| == HISTORY_SIZE * WIDTH && p < HISTORY_SIZE
  {
    ring[p * WIDTH..p * WIDTH + WIDTH]
  }

  lemma SlotsDiffer(j: nat, k: nat)
    requires j < k < j + HISTORY_SIZE
    ensures RingSlot(j) != RingSlot(k)
  {
  }

  lemma NextSlot(w: nat)
    ensures (RingSlot(w) + 1) % HISTORY_SIZE == RingSlot(w + 1)
  {
  }

  lemma RingLineKept(ring: seq<Cell>, p: nat, line: Line, q: nat)
    requires |ring| == HISTORY_SIZE * WIDTH && p < HISTORY_SIZE && q < HISTORY_SIZE && |line| == WIDTH
    ensures p * WIDTH + WIDTH <= |ring|
    ensures RingLine(Splice(ring, p * WIDTH, line), q) == if q == p then line else RingLine(ring, q)
  {
    if q < p {
      assert q * WIDTH + WIDTH <= p * WIDTH;
    } else if q > p {
      assert p * WIDTH + WIDTH <= q * WIDTH;
    }
  }

  /** Storing a line at the write position adds it to what the ring holds, and drops only the oldest. */
  lemma RingAdd(ring: seq<Cell>, lines: seq<Line>, line: Line)
    requires RingHolds(ring, lines) && |line| == WIDTH
    ensures RingSlot(|lines|) * WIDTH + WIDTH <= |ring|
    ensures RingHolds(Splice(ring, RingSlot(|lines|) * WIDTH, line), lines + [line])
  {
    var w := |lines|;
    var ring' := Splice(ring, RingSlot(w) * WIDTH, line);
    var more := lines + [line];
    forall k | |more| - Kept(more) <= k < |more| ensures RingLine(ring', RingSlot(k)) == more[k] {
      RingLineKept(ring, RingSlot(w), line, RingSlot(k));
      if k < w {
        SlotsDiffer(k, w);
        assert RingLine(ring, RingSlot(k)) == lines[k];
      }
    }
  }

  /** The index computation of the view, negative remainders included, finds the line the window asks for. */
  lemma StartIndex(w: nat, n: nat, offset: nat, r: nat)
    requires n + offset <= w && n + offset <= HISTORY_SIZE
    ensures var start := CRem(RingSlot(w) - n - offset, HISTORY_SIZE);
            var start' := if start < 0 then start + HISTORY_SIZE else start;
            start' >= 0 && (start' + r) % HISTORY_SIZE == RingSlot(w - n - offset + r)
  {
    var q := w / HISTORY_SIZE;
    assert w == HISTORY_SIZE * q + RingSlot(w);
    var x := RingSlot(w) - n - offset;
    var start := CRem(x, HISTORY_SIZE);
    var start' := if start < 0 then start + HISTORY_SIZE else start;
    if x >= 0 || x + HISTORY_SIZE == 0 {
      assert start' == if x >= 0 then x else 0;
    } else {
      assert start' == x + HISTORY_SIZE;
    }
    var d := (x - start') / HISTORY_SIZE;
    assert x == start' + HISTORY_SIZE * d;
    assert w - n - offset + r == HISTORY_SIZE * (q + d) + (start' + r);
  }

  // So the ring holds, at that index, the line that row r of the view shows.
  lemma WindowSlot(ring: seq<Cell>, lines: seq<Line>, offset: int, r: nat, start': nat)
    requires RingHolds(ring, lines) && ViewOk(lines, offset) && r < Window(lines)
    requires var start := CRem(RingSlot(|lines|) - Window(lines) - offset, HISTORY_SIZE);
             start' == if start < 0 then start + HISTORY_SIZE else start
    ensures RingLine(ring, (start' + r) % HISTORY_SIZE) == ViewLine(lines, offset, r)
  {
    StartIndex(|lines|, Window(lines), offset, r);
    var k := |lines| - Window(lines) - offset + r;
    assert RingLine(ring, RingSlot(k)) == lines[k];
  }

  // ---- the rows of the view ----

  function Blanked(cell: Cell): Cell {
    if Printable(cell) then cell else DEFAULT_CELL
  }

  function BlankedLine(l: Line): (b: Line)
    ensures |b| == |l|
  {
    seq(|l|, k requires 0 <= k < |l| => Blanked(l[k]))
  }

  // Row r of the screen content v is row r of the view.
  ghost predicate RowShown(v: seq<Cell>, lines: seq<Line>, offset: int, r: nat)
    requires |v| >= CELLS && ViewOk(lines, offset) && r < Window(lines)
  {
    v[r * WIDTH..r * WIDTH + WIDTH] == BlankedLine(ViewLine(lines, offset, r))
  }

  lemma RowCell(v: seq<Cell>, lines: seq<Line>, offset: int, i: nat)
    requires |v| >= CELLS && ViewOk(lines, offset) && i < Window(lines) * WIDTH && RowShown(v, lines, offset, i / WIDTH)
    ensures v[i] == Blanked(ViewLine(lines, offset, i / WIDTH)[i % WIDTH])
  {
    var r := i / WIDTH;
    assert i == r * WIDTH + i % WIDTH;
    assert v[i] == v[r * WIDTH..r * WIDTH + WIDTH][i % WIDTH];
  }

  lemma RowKept(v: seq<Cell>, v': seq<Cell>, lines: seq<Line>, offset: int, r: nat)
    requires |v| == |v'| >= CELLS && ViewOk(lines, offset) && r < Window(lines) && RowShown(v, lines, offset, r)
    requires forall i :: r * WIDTH <= i < r * WIDTH + WIDTH ==> v'[i] == v[i]
    ensures RowShown(v', lines, offset, r)
  {
    assert v'[r * WIDTH..r * WIDTH + WIDTH] == v[r * WIDTH..r * WIDTH + WIDTH];
  }

  lemma RowsKept(v: seq<Cell>, v': seq<Cell>, lines: seq<Line>, offset: int)
    requires |v| == |v'| >= CELLS && ViewOk(lines, offset)
    requires forall r :: 0 <= r < Window(lines) ==> RowShown(v, lines, offset, r)
    requires forall i :: 0 <= i < Window(lines) * WIDTH ==> v'[i] == v[i]
    ensures forall r :: 0 <= r < Window(lines) ==> RowShown(v', lines, offset, r)
  {
    forall r | 0 <= r < Window(lines) ensures RowShown(v', lines, offset, r) {
      assert RowShown(v, lines, offset, r);
      RowKept(v, v', lines, offset, r);
    }
  }

  // Rows, prompt and blanks make up the view.
  lemma ImageAssembled(v: seq<Cell>, lines: seq<Line>, offset: int)
    requires |v| == CELLS + 1 && ViewOk(lines, offset)
    requires forall r :: 0 <= r < Window(lines) ==> RowShown(v, lines, offset, r)
    requires forall i :: Window(lines) * WIDTH <= i < CELLS ==> v[i] == PromptCell(lines, i)
    ensures v == ViewImage(lines, offset) + [v[CELLS]]
  {
    forall i | 0 <= i < CELLS ensures v[i] == ViewCell(lines, offset, i) {
      if i < Window(lines) * WIDTH {
        RowCell(v, lines, offset, i);
      }
    }
  }

  function PromptCell(lines: seq<Line>, i: nat): Cell {
    var p := Window(lines) * WIDTH + (WIDTH - |PROMPT|) / 2;
    if p <= i < p + |PROMPT| then PROMPT_ATTR + PROMPT[i - p] as nat % 256 else DEFAULT_CELL
  }
}
