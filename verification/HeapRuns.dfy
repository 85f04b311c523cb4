/** Whole runs of malloc and free by a client that frees only what it holds. */
module HeapRuns {
  import opened Machine
  import opened HeapSpec
  import opened HeapLaws
  import opened HeapOps

  datatype Op = OpMalloc(n: nat) | OpFree(p: nat)

  /** The heap together with what the client holds: each live pointer with the size it was requested with,
    * and the number of successful mallocs so far. */
  datatype Client = Client(heap: Heap, live: map<nat, nat>, grants: nat)

  function Init(pool: seq<nat>, lo: nat, hi: nat): Client {
    Client(Heap([], pool, 0, lo, hi, 0, 0), map[], 0)
  }

  function Step(c: Client, op: Op): Client {
    match op
    case OpMalloc(n) =>
      var (h, p) := Malloc(c.heap, n);
      if p == 0 then c.(heap := h) else Client(h, c.live[p := n], c.grants + 1)
    case OpFree(p) =>
      // `free` takes only live pointers; anything else is not a step of the client.
      if p in c.live && Listed(c.heap, p) then c.(heap := Free(c.heap, p), live := c.live - {p}) else c
  }

  function Run(c: Client, ops: seq<Op>): Client
    decreases |ops|
  {
    if ops == [] then c else Run(Step(c, ops[0]), ops[1..])
  }

  // ---- the invariant of runs ----

  ghost function Payloads(bs: seq<Block>): set<nat> {
    set b | b in Used(bs) :: b.Payload()
  }

  // The recorded size of a live block, against the size it was requested with.
  ghost predicate Serves(b: Block, n: nat) {
    0 < n <= MAX_ALLOWED && Rounded(n) <= b.size <= Rounded(n) + 56
  }

  ghost predicate ClientOk(c: Client) {
    && HeapOk(c.heap)
    && c.live.Keys == Payloads(c.heap.blocks)
    && forall b :: b in Used(c.heap.blocks) ==> b.Payload() in c.live && Serves(b, c.live[b.Payload()])
  }

  lemma InitOk(pool: seq<nat>, lo: nat, hi: nat)
    requires PoolOk(pool, lo, hi) && Contiguous(pool)
    ensures ClientOk(Init(pool, lo, hi))
  {
  }

  // The block in use behind a live pointer.
  lemma LiveBlock(c: Client, p: nat) returns (b: Block)
    requires ClientOk(c) && p in c.live
    ensures b in Used(c.heap.blocks) && b.Payload() == p && Serves(b, c.live[p])
  {
    assert p in Payloads(c.heap.blocks);
    b :| b in Used(c.heap.blocks) && b.Payload() == p;
  }

  // Blocks in use are told apart by their payload address.
  lemma PayloadsDistinct(h: Heap, a: Block, b: Block)
    requires HeapOk(h) && a in Used(h.blocks) && b in Used(h.blocks) && a.Payload() == b.Payload()
    ensures a == b
  {
    Ordered(h.blocks, Base(h), Limit(h));
    var i :| 0 <= i < |h.blocks| && h.blocks[i] == a;
    var j :| 0 <= j < |h.blocks| && h.blocks[j] == b;
    assert i == j;
  }

  lemma MallocStepOk(c: Client, n: nat)
    requires ClientOk(c)
    ensures ClientOk(Step(c, OpMalloc(n)))
  {
    var (h, p) := Malloc(c.heap, n);
    MallocNull(c.heap, n);
    if p != 0 {
      var c' := Step(c, OpMalloc(n));
      var g := Granted(c.heap, n);
      MallocOk(c.heap, n);
      MallocGrants(c.heap, n);
      assert g in Used(h.blocks);
      forall b | b in Used(h.blocks) ensures b.Payload() in c'.live && Serves(b, c'.live[b.Payload()]) {
        if b.Payload() == p {
          PayloadsDistinct(h, b, g);
        } else {
          assert b in Used(c.heap.blocks);
        }
      }
      assert Payloads(h.blocks) == Payloads(c.heap.blocks) + {p};
    }
  }

  lemma FreeStepOk(c: Client, p: nat)
    requires ClientOk(c)
    ensures ClientOk(Step(c, OpFree(p)))
  {
    if p in c.live && Listed(c.heap, p) {
      var h := Free(c.heap, p);
      var b := LiveBlock(c, p);
      FreeReleases(c.heap, b);
      forall q ensures q in Payloads(h.blocks) <==> q in c.live && q != p {
        if q in Payloads(h.blocks) {
          var a :| a in Used(h.blocks) && a.Payload() == q;
          if q == p { PayloadsDistinct(c.heap, a, b); }
        }
        if q in c.live && q != p {
          var a := LiveBlock(c, q);
          assert a in Used(h.blocks);
        }
      }
    }
  }

  /** What every run of malloc and free keeps: the list tiles exactly the frames taken, no two free blocks are
    * neighbours, and the live pointers are exactly the payloads of the blocks in use. */
  lemma {:induction false} RunOk(c: Client, ops: seq<Op>)
    requires ClientOk(c)
    ensures ClientOk(Run(c, ops))
    ensures Run(c, ops).heap.pool == c.heap.pool && Run(c, ops).heap.lo == c.heap.lo && Run(c, ops).heap.hi == c.heap.hi
    decreases |ops|
  {
    if ops != [] {
      match ops[0] {
        case OpMalloc(n) => MallocStepOk(c, n);
        case OpFree(p) => FreeStepOk(c, p);
      }
      RunOk(Step(c, ops[0]), ops[1..]);
    }
  }

  // ---- safety ----

  /** Two live payloads never overlap, and each is at least as long as it was requested. */
  lemma LivePayloadsDisjoint(c: Client, p: nat, q: nat)
    requires ClientOk(c) && p in c.live && q in c.live && p < q
    ensures p + c.live[p] + HEADER_SIZE <= q
  {
    var a := LiveBlock(c, p);
    var b := LiveBlock(c, q);
    RoundedBounds(c.live[p]);
    Ordered(c.heap.blocks, Base(c.heap), Limit(c.heap));
    var i :| 0 <= i < |c.heap.blocks| && c.heap.blocks[i] == a;
    var j :| 0 <= j < |c.heap.blocks| && c.heap.blocks[j] == b;
    assert i < j;
  }

  /** A live payload overlaps no header of the list. */
  lemma LivePayloadsAvoidHeaders(c: Client, p: nat, k: nat)
    requires ClientOk(c) && p in c.live && k < |c.heap.blocks|
    ensures var a := c.heap.blocks[k].addr; p + c.live[p] <= a || a + HEADER_SIZE <= p
  {
    var b := LiveBlock(c, p);
    RoundedBounds(c.live[p]);
    Ordered(c.heap.blocks, Base(c.heap), Limit(c.heap));
    var i :| 0 <= i < |c.heap.blocks| && c.heap.blocks[i] == b;
    assert i < k || i == k || k < i;
  }

  ghost predicate InFrame(frame: nat, x: nat) {
    PhyToVirt(frame) <= x < PhyToVirt(frame) + PAGE_2M_SIZE
  }

  ghost predicate InTaken(h: Heap, x: nat) {
    exists i :: 0 <= i < h.taken && i < |h.pool| && InFrame(h.pool[i], x)
  }

  /** Every byte the client may use lies in a frame the heap has taken. */
  ghost predicate PayloadsInFrames(c: Client) {
    forall p, x :: p in c.live && p <= x < p + c.live[p] ==> InTaken(c.heap, x)
  }

  lemma OkPayloadsInFrames(c: Client)
    requires ClientOk(c)
    ensures PayloadsInFrames(c)
  {
    var h := c.heap;
    forall p, x | p in c.live && p <= x < p + c.live[p] ensures InTaken(h, x) {
      var b := LiveBlock(c, p);
      RoundedBounds(c.live[p]);
      Ordered(h.blocks, Base(h), Limit(h));
      var i := (x - Base(h)) / PAGE_2M_SIZE;
      assert i < h.taken;
      ContiguousAt(h.pool, i);
      assert InFrame(h.pool[i], x);
    }
  }

  // ---- freeing everything ----

  lemma SomeBlockInUse(bs: seq<Block>)
    requires NoFreeNeighbours(bs) && |bs| > 1
    ensures Used(bs) != {}
  {
    assert !(bs[0].free && bs[0 + 1].free);
    var b := if bs[0].free then bs[1] else bs[0];
    assert b in Used(bs);
  }

  /** With nothing live, the heap is one free block spanning all frames taken. */
  lemma AllFreed(c: Client)
    requires ClientOk(c) && c.live == map[] && c.heap.taken > 0
    ensures c.heap.blocks == [Block(Base(c.heap), c.heap.taken * PAGE_2M_SIZE - HEADER_SIZE, true)]
  {
    var bs := c.heap.blocks;
    assert forall b :: b in Used(bs) ==> b.Payload() in c.live;
    assert forall i :: 0 <= i < |bs| && !bs[i].free ==> bs[i] in Used(bs);
    if |bs| > 1 {
      SomeBlockInUse(bs);
    }
  }

  function Frees(ps: seq<nat>): (ops: seq<Op>)
    ensures |ops| == |ps|
  {
    if ps == [] then [] else [OpFree(ps[0])] + Frees(ps[1..])
  }

  lemma FreesCons(c: Client, ps: seq<nat>)
    requires ps != []
    ensures Run(c, Frees(ps)) == Run(Step(c, OpFree(ps[0])), Frees(ps[1..]))
  {
    assert Frees(ps)[0] == OpFree(ps[0]) && Frees(ps)[1..] == Frees(ps[1..]);
  }

  // One free of any of them.
  lemma FreeLeaves(c: Client, p: nat)
    requires ClientOk(c)
    ensures var d := Step(c, OpFree(p));
            && ClientOk(d) && d.heap.taken == c.heap.taken && Base(d.heap) == Base(c.heap)
            && forall q :: q in d.live ==> q in c.live && q != p
  {
    FreeStepOk(c, p);
    if p in c.live {
      var b := LiveBlock(c, p);
      FreeReleases(c.heap, b);
    }
  }

  /** Freeing all live pointers, in any order, leaves one free block spanning all frames taken. */
  lemma {:induction false} FreeAllInAnyOrder(c: Client, ps: seq<nat>)
    requires ClientOk(c) && c.heap.taken > 0
    requires forall p :: p in c.live ==> p in ps
    ensures var d := Run(c, Frees(ps));
            && d.live == map[] && d.heap.taken == c.heap.taken
            && d.heap.blocks == [Block(Base(c.heap), c.heap.taken * PAGE_2M_SIZE - HEADER_SIZE, true)]
    decreases |ps|
  {
    if ps == [] {
      AllFreed(c);
    } else {
      var p := ps[0];
      var c' := Step(c, OpFree(p));
      FreeLeaves(c, p);
      assert forall q :: q in ps ==> q == p || q in ps[1..];
      FreeAllInAnyOrder(c', ps[1..]);
      FreesCons(c, ps);
    }
  }

  /** Two runs that end with the same blocks in use and as many frames taken end with the same list. */
  lemma SameLiveSameHeap(pool: seq<nat>, lo: nat, hi: nat, ops: seq<Op>, ops': seq<Op>)
    requires PoolOk(pool, lo, hi) && Contiguous(pool)
    requires var (c, c') := (Run(Init(pool, lo, hi), ops), Run(Init(pool, lo, hi), ops'));
             Used(c.heap.blocks) == Used(c'.heap.blocks) && c.heap.taken == c'.heap.taken
    ensures Run(Init(pool, lo, hi), ops).heap.blocks == Run(Init(pool, lo, hi), ops').heap.blocks
  {
    var c0 := Init(pool, lo, hi);
    InitOk(pool, lo, hi);
    RunOk(c0, ops);
    RunOk(c0, ops');
    var (h, h') := (Run(c0, ops).heap, Run(c0, ops').heap);
    CanonicalForm(h.blocks, h'.blocks, Base(h), Limit(h));
  }

  // ---- conservation ----

  // Bytes of the list, headers included, and bytes of the payloads in use.
  function TotalBytes(bs: seq<Block>): nat {
    if bs == [] then 0 else HEADER_SIZE + bs[0].size + TotalBytes(bs[1..])
  }

  function LiveSize(b: Block): nat {
    if b.free then 0 else b.size
  }

  function LiveBytes(bs: seq<Block>): nat {
    if bs == [] then 0 else LiveSize(bs[0]) + LiveBytes(bs[1..])
  }

  lemma {:induction false} TotalBytesOfTiling(bs: seq<Block>, lo: nat, hi: nat)
    requires Tiles(bs, lo, hi)
    ensures lo + TotalBytes(bs) == hi
  {
    if bs != [] {
      TilesTail(bs, lo, hi);
      TotalBytesOfTiling(bs[1..], bs[0].End(), hi);
    }
  }

  lemma {:induction false} LiveBytesAppend(bs: seq<Block>, cs: seq<Block>)
    ensures LiveBytes(bs + cs) == LiveBytes(bs) + LiveBytes(cs)
  {
    if bs == [] {
      assert bs + cs == cs;
    } else {
      LiveBytesAppend(bs[1..], cs);
      assert (bs + cs)[1..] == bs[1..] + cs;
    }
  }

  lemma LiveBytesReplace(bs: seq<Block>, k: nat, cs: seq<Block>)
    requires k < |bs|
    ensures LiveBytes(Replace(bs, k, 1, cs)) == LiveBytes(bs) - LiveSize(bs[k]) + LiveBytes(cs)
  {
    var t := bs[k + 1..];
    assert bs == bs[..k] + ([bs[k]] + t);
    assert Replace(bs, k, 1, cs) == bs[..k] + (cs + t);
    LiveBytesAppend(bs[..k], [bs[k]] + t);
    LiveBytesAppend(bs[..k], cs + t);
    LiveBytesAppend(cs, t);
  }

  lemma {:induction false} LiveBytesCoalesce(bs: seq<Block>)
    ensures LiveBytes(Coalesce(bs)) == LiveBytes(bs)
    decreases |bs|
  {
    if |bs| <= 1 {
    } else if bs[0].free && bs[1].free {
      var m := Merge(bs[0], bs[1]);
      LiveBytesCoalesce([m] + bs[2..]);
      assert ([m] + bs[2..])[1..] == bs[1..][1..] == bs[2..];
    } else {
      LiveBytesCoalesce(bs[1..]);
      assert ([bs[0]] + Coalesce(bs[1..]))[1..] == Coalesce(bs[1..]);
    }
  }

  lemma LiveBytesCarve(b: Block, r: nat)
    requires b.size >= r + HEADER_SIZE
    ensures LiveBytes(Carve(b, r)) == Carve(b, r)[0].size
  {
    var cs := Carve(b, r);
    assert cs == [cs[0]] + cs[1..];
    LiveBytesAppend([cs[0]], cs[1..]);
    if Splits(b, r) {
      assert cs[1..] == [cs[1]];
    }
  }

  lemma MallocAccounts(h: Heap, n: nat)
    requires HeapOk(h) && Malloc(h, n).1 != 0
    ensures var h' := Malloc(h, n).0;
            && h'.totalAllocated == h.totalAllocated + Rounded(n) && h'.totalFreed == h.totalFreed
            && LiveBytes(h'.blocks) == LiveBytes(h.blocks) + Granted(h, n).size
  {
    var b := Source(h, n);
    SourceOk(h, n);
    LiveBytesCarve(b, Rounded(n));
    var k := FirstFit(h.blocks, Rounded(n));
    if k < |h.blocks| {
      LiveBytesReplace(h.blocks, k, Carve(b, Rounded(n)));
    } else {
      LiveBytesAppend(h.blocks, Carve(b, Rounded(n)));
    }
  }

  lemma FreeAccounts(h: Heap, b: Block)
    requires HeapOk(h) && b in Used(h.blocks)
    ensures Listed(h, b.Payload())
    ensures var h' := Free(h, b.Payload());
            && h'.totalAllocated == h.totalAllocated && h'.totalFreed == h.totalFreed + b.size
            && LiveBytes(h'.blocks) == LiveBytes(h.blocks) - b.size
  {
    FreeReleases(h, b);
    var k := IndexOf(h.blocks, b.Payload());
    var b' := b.(free := true);
    LiveBytesReplace(h.blocks, k, [b']);
    assert h.blocks[k := b'] == Replace(h.blocks, k, 1, [b']);
    LiveBytesCoalesce(h.blocks[k := b']);
  }

  // The books of a run: bytes live or freed against bytes asked for.
  ghost predicate Books(c: Client) {
    c.heap.totalAllocated <= LiveBytes(c.heap.blocks) + c.heap.totalFreed <= c.heap.totalAllocated + 56 * c.grants
  }

  /** Conservation over all runs. */
  lemma {:induction false} Conservation(c: Client, ops: seq<Op>)
    requires ClientOk(c) && Books(c)
    ensures var d := Run(c, ops);
            && TotalBytes(d.heap.blocks) == d.heap.taken * PAGE_2M_SIZE && d.heap.taken <= |c.heap.pool|
            && Books(d)
    decreases |ops|
  {
    if ops == [] {
      TotalBytesOfTiling(c.heap.blocks, Base(c.heap), Limit(c.heap));
    } else {
      match ops[0] {
        case OpMalloc(n) =>
          MallocStepOk(c, n);
          MallocNull(c.heap, n);
          if Malloc(c.heap, n).1 != 0 {
            MallocAccounts(c.heap, n);
            MallocGrants(c.heap, n);
          }
        case OpFree(p) =>
          FreeStepOk(c, p);
          if p in c.live {
            var b := LiveBlock(c, p);
            FreeAccounts(c.heap, b);
          }
      }
      Conservation(Step(c, ops[0]), ops[1..]);
    }
  }
}
