/** `free` merges list neighbours without looking at their addresses. Here: the frames of the machine must be
  * consecutive for the heap to be sound, and that is exactly what it takes. */
module HeapGaps {
  import opened Machine
  import opened HeapSpec
  import opened HeapLaws
  import opened HeapOps
  import opened HeapRuns

  ghost predicate Ascending(pool: seq<nat>) {
    forall i, j :: 0 <= i < j < |pool| ==> pool[i] < pool[j]
  }

  // ---- a run that crosses a gap ----

  // The list after one malloc of the largest size from each of the given frames.
  function Filled(frames: seq<nat>): seq<Block> {
    if frames == [] then []
    else Filled(frames[..|frames| - 1]) + Carve(Fresh(frames[|frames| - 1]), MAX_ALLOWED)
  }

  function Fills(m: nat): (ops: seq<Op>)
    ensures |ops| == m
  {
    if m == 0 then [] else Fills(m - 1) + [OpMalloc(MAX_ALLOWED)]
  }

  lemma {:induction false} RunAppend(c: Client, ops: seq<Op>, op: Op)
    ensures Run(c, ops + [op]) == Step(Run(c, ops), op)
    decreases |ops|
  {
    if ops == [] {
      assert [op][1..] == [];
    } else {
      RunAppend(Step(c, ops[0]), ops[1..], op);
      assert (ops + [op])[1..] == ops[1..] + [op];
    }
  }

  // No block of a filled list has room for a request of 81 bytes or more.
  lemma {:induction false} FilledIsFull(frames: seq<nat>, r: nat)
    requires r > 80
    ensures forall i :: 0 <= i < |Filled(frames)| ==> !Fits(Filled(frames)[i], r)
  {
    if frames != [] {
      FilledIsFull(frames[..|frames| - 1], r);
    }
  }

  lemma {:induction false} FillRun(pool: seq<nat>, lo: nat, hi: nat, m: nat)
    requires m <= |pool|
    ensures var c := Run(Init(pool, lo, hi), Fills(m));
            && c.heap.blocks == Filled(pool[..m]) && c.heap.taken == m
            && c.heap.pool == pool && c.heap.lo == lo && c.heap.hi == hi
            && (m > 0 ==> var p := Fresh(pool[m - 1]).Payload(); p in c.live)
  {
    if m > 0 {
      FillRun(pool, lo, hi, m - 1);
      var c := Run(Init(pool, lo, hi), Fills(m - 1));
      RunAppend(Init(pool, lo, hi), Fills(m - 1), OpMalloc(MAX_ALLOWED));
      FilledIsFull(pool[..m - 1], Rounded(MAX_ALLOWED));
      assert pool[..m][..m - 1] == pool[..m - 1];
    }
  }

  lemma {:induction false} FilledAlternates(frames: seq<nat>)
    ensures NoFreeNeighbours(Filled(frames))
  {
    if frames != [] {
      FilledAlternates(frames[..|frames| - 1]);
      NoFreeNeighboursAppend(Filled(frames[..|frames| - 1]), Carve(Fresh(frames[|frames| - 1]), MAX_ALLOWED));
    }
  }

  lemma {:induction false} FilledPayloads(frames: seq<nat>, p: nat)
    requires p % PAGE_2M_SIZE == HEADER_SIZE
    requires forall i :: 0 <= i < |frames| ==> frames[i] % PAGE_2M_SIZE == 0 && PhyToVirt(frames[i]) + HEADER_SIZE != p
    ensures forall i :: 0 <= i < |Filled(frames)| ==> Filled(frames)[i].Payload() != p
  {
    if frames != [] {
      FilledPayloads(frames[..|frames| - 1], p);
      var f := frames[|frames| - 1];
      var cs := Carve(Fresh(f), MAX_ALLOWED);
      assert PhyToVirt(f) % PAGE_2M_SIZE == 0;
      assert cs[1].Payload() == PhyToVirt(f) + (MAX_ALLOWED + 2 * HEADER_SIZE);
      assert cs[1].Payload() % PAGE_2M_SIZE == MAX_ALLOWED + 2 * HEADER_SIZE;
    }
  }

  lemma IndexOfSkips(bs: seq<Block>, cs: seq<Block>, p: nat)
    requires forall i :: 0 <= i < |bs| ==> bs[i].Payload() != p
    requires cs != [] && cs[0].Payload() == p
    ensures IndexOf(bs + cs, p) == |bs|
  {
    assert (bs + cs)[|bs|] == cs[0];
    assert IndexOf(bs + cs, p) >= |bs|;
  }

  lemma FirstFitSkips(bs: seq<Block>, cs: seq<Block>, r: nat)
    requires forall i :: 0 <= i < |bs| ==> !Fits(bs[i], r)
    requires cs != [] && Fits(cs[0], r)
    ensures FirstFit(bs + cs, r) == |bs|
  {
    assert (bs + cs)[|bs|] == cs[0];
    assert FirstFit(bs + cs, r) >= |bs|;
  }

  /** Fill frames 0..k+1, free the last block, ask for 200 bytes. */
  function CrossGap(k: nat, p: nat): seq<Op> {
    Fills(k + 2) + [OpFree(p)] + [OpMalloc(200)]
  }

  // Releasing the block of the last of k+2 filled frames merges it with the remainder of the frame before.
  lemma ReleaseAcross(frames: seq<nat>, k: nat)
    requires |frames| == k + 2 && Ascending(frames)
    requires forall i :: 0 <= i < |frames| ==> frames[i] % PAGE_2M_SIZE == 0
    ensures var bs := Filled(frames);
            var p := Fresh(frames[k + 1]).Payload();
            var prefix := Filled(frames[..k]) + [Block(PhyToVirt(frames[k]), MAX_ALLOWED, false)];
            && IndexOf(bs, p) < |bs| && bs[IndexOf(bs, p)].size == MAX_ALLOWED
            && Release(bs, IndexOf(bs, p)) ==
               prefix + [Block(PhyToVirt(frames[k]) + HEADER_SIZE + MAX_ALLOWED, 104 + PAGE_2M_SIZE, true)]
  {
    var f, g := frames[k], frames[k + 1];
    var p := Fresh(g).Payload();
    var u := Block(PhyToVirt(f), MAX_ALLOWED, false);
    var rem := Block(PhyToVirt(f) + HEADER_SIZE + MAX_ALLOWED, 104, true);
    var x := Block(PhyToVirt(g), MAX_ALLOWED, false);
    var rem' := Block(PhyToVirt(g) + HEADER_SIZE + MAX_ALLOWED, 104, true);
    var start := Filled(frames[..k]);
    assert frames[..k + 1][..k] == frames[..k];
    assert frames[..|frames| - 1] == frames[..k + 1];
    var bs := Filled(frames);
    assert Carve(Fresh(f), MAX_ALLOWED) == [u, rem];
    assert Carve(Fresh(g), MAX_ALLOWED) == [x, rem'];
    assert bs == Filled(frames[..k + 1]) + [x, rem'];
    assert PhyToVirt(g) % PAGE_2M_SIZE == 0;
    FilledPayloads(frames[..k + 1], p);
    IndexOfSkips(Filled(frames[..k + 1]), [x, rem'], p);
    FilledAlternates(frames[..k]);
    var prefix := start + [u];
    NoFreeNeighboursAppend(start, [u]);
    var x' := x.(free := true);
    assert bs[|start| + 2 := x'] == prefix + [rem, x', rem'];
    CoalesceSkips(prefix, [rem, x', rem']);
    CoalesceThree(rem, x', rem');
  }

  lemma CoalesceThree(a: Block, b: Block, c: Block)
    requires a.free && b.free && c.free
    ensures Coalesce([a, b, c]) == [Merge(Merge(a, b), c)]
  {
    var ab := Merge(a, b);
    assert [ab] + [a, b, c][2..] == [ab, c];
    assert [Merge(ab, c)] + [ab, c][2..] == [Merge(ab, c)];
    assert Coalesce([ab, c]) == Coalesce([Merge(ab, c)]);
  }

  // The list after the free: full blocks, then one free block that spans the gap.
  lemma CrossGapFreed(pool: seq<nat>, lo: nat, hi: nat, k: nat)
    requires PoolOk(pool, lo, hi) && Ascending(pool) && k + 1 < |pool|
    ensures var p := Fresh(pool[k + 1]).Payload();
            var d := Run(Init(pool, lo, hi), Fills(k + 2) + [OpFree(p)]);
            && d.heap.taken == k + 2 && d.heap.pool == pool
            && d.heap.blocks == Filled(pool[..k]) + [Block(PhyToVirt(pool[k]), MAX_ALLOWED, false)]
                 + [Block(PhyToVirt(pool[k]) + HEADER_SIZE + MAX_ALLOWED, 104 + PAGE_2M_SIZE, true)]
  {
    var p := Fresh(pool[k + 1]).Payload();
    FillRun(pool, lo, hi, k + 2);
    RunAppend(Init(pool, lo, hi), Fills(k + 2), OpFree(p));
    var frames := pool[..k + 2];
    ReleaseAcross(frames, k);
    assert frames[..k] == pool[..k];
  }

  // The state the run reaches: a live pointer of 200 bytes, 104 bytes before the end of frame k.
  lemma CrossGapRun(pool: seq<nat>, lo: nat, hi: nat, k: nat)
    requires PoolOk(pool, lo, hi) && Ascending(pool) && k + 1 < |pool|
    ensures var q := PhyToVirt(pool[k]) + PAGE_2M_SIZE - 104;
            var d := Run(Init(pool, lo, hi), CrossGap(k, Fresh(pool[k + 1]).Payload()));
            && q in d.live && d.live[q] == 200 && d.heap.taken == k + 2 && d.heap.pool == pool
  {
    var p := Fresh(pool[k + 1]).Payload();
    var c0 := Init(pool, lo, hi);
    CrossGapFreed(pool, lo, hi, k);
    RunAppend(c0, Fills(k + 2) + [OpFree(p)], OpMalloc(200));
    var wide := Block(PhyToVirt(pool[k]) + HEADER_SIZE + MAX_ALLOWED, 104 + PAGE_2M_SIZE, true);
    var prefix := Filled(pool[..k]) + [Block(PhyToVirt(pool[k]), MAX_ALLOWED, false)];
    FilledIsFull(pool[..k], 200);
    FirstFitSkips(prefix, [wide], 200);
  }

  // Bytes beyond the end of frame k are in no frame, if frame k+1 does not follow it.
  lemma GapIsOutside(pool: seq<nat>, lo: nat, hi: nat, k: nat)
    requires PoolOk(pool, lo, hi) && Ascending(pool) && k + 1 < |pool| && pool[k + 1] != pool[k] + PAGE_2M_SIZE
    ensures forall i :: 0 <= i < |pool| ==> !InFrame(pool[i], PhyToVirt(pool[k]) + PAGE_2M_SIZE)
  {
    forall i | 0 <= i < |pool| ensures !InFrame(pool[i], PhyToVirt(pool[k]) + PAGE_2M_SIZE) {
      assert pool[i] == PAGE_2M_SIZE * (pool[i] / PAGE_2M_SIZE);
      assert pool[k] == PAGE_2M_SIZE * (pool[k] / PAGE_2M_SIZE);
      assert pool[k + 1] == PAGE_2M_SIZE * (pool[k + 1] / PAGE_2M_SIZE);
      assert i <= k || i == k + 1 || pool[i] > pool[k + 1];
    }
  }

  /** At any gap between frames, the run hands out a payload that leaves the machine's frames. */
  lemma GapBreaksSafety(pool: seq<nat>, lo: nat, hi: nat, k: nat)
    requires PoolOk(pool, lo, hi) && Ascending(pool) && k + 1 < |pool| && pool[k + 1] != pool[k] + PAGE_2M_SIZE
    ensures !PayloadsInFrames(Run(Init(pool, lo, hi), CrossGap(k, Fresh(pool[k + 1]).Payload())))
  {
    var q := PhyToVirt(pool[k]) + PAGE_2M_SIZE - 104;
    var d := Run(Init(pool, lo, hi), CrossGap(k, Fresh(pool[k + 1]).Payload()));
    CrossGapRun(pool, lo, hi, k);
    GapIsOutside(pool, lo, hi, k);
    var x := PhyToVirt(pool[k]) + PAGE_2M_SIZE;
    assert q in d.live && q <= x < q + d.live[q] && !InTaken(d.heap, x);
  }

  /** Every run hands out only bytes of the frames taken if and only if the frames are consecutive. */
  lemma SafeIffContiguous(pool: seq<nat>, lo: nat, hi: nat)
    requires PoolOk(pool, lo, hi) && Ascending(pool)
    ensures (forall ops :: PayloadsInFrames(Run(Init(pool, lo, hi), ops))) <==> Contiguous(pool)
  {
    var c := Init(pool, lo, hi);
    if Contiguous(pool) {
      forall ops ensures PayloadsInFrames(Run(c, ops)) {
        InitOk(pool, lo, hi);
        RunOk(c, ops);
        OkPayloadsInFrames(Run(c, ops));
      }
    } else {
      var k :| 0 <= k < |pool| - 1 && pool[k + 1] != pool[k] + PAGE_2M_SIZE;
      GapBreaksSafety(pool, lo, hi, k);
    }
  }
}
