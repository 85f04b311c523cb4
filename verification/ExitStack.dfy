/** process_exit frees the stack it runs on, and goes on running on it. What it allocates after that may put a header
  * into this stack; this module says exactly when. */
module ExitStack {
  import opened Machine
  import opened HeapSpec
  import opened HeapLaws
  import opened HeapOps
  import opened HeapRoom
  import opened HeapImage
  import opened HeapParts
  import opened SchedSpec

  // The first STACK_SIZE bytes of a block.
  function StackOf(b: Block): Block {
    Block(b.addr, STACK_SIZE, false)
  }

  // ---- the list after the free ----

  // In a tiling, no header lies in the payload of a block, so none in a part of it.
  lemma PartClear(bs: seq<Block>, lo: nat, hi: nat, k: nat)
    requires Tiles(bs, lo, hi) && k < |bs| && bs[k].size >= STACK_SIZE
    ensures HeadersClear(bs, [StackOf(bs[k])])
  {
    Ordered(bs, lo, hi);
    var b := StackOf(bs[k]);
    forall j | 0 <= j < |bs| ensures ClearOf(bs[j].addr, [b]) {
      assert j < k ==> bs[j].End() <= bs[k].addr;
    }
  }

  /** Freeing the stack leaves no header in it. */
  lemma ReleaseClear(bs: seq<Block>, lo: nat, hi: nat, k: nat)
    requires Tiles(bs, lo, hi) && NoFreeNeighbours(bs) && k < |bs| && !bs[k].free && bs[k].size >= STACK_SIZE
    ensures HeadersClear(Release(bs, k), [StackOf(bs[k])])
  {
    PartClear(bs, lo, hi, k);
    var rs, p, q := Release(bs, k), First(bs, k), Last(bs, k) + 1;
    var m := ReleaseMerges(bs, k);
    forall j | 0 <= j < |rs| ensures ClearOf(rs[j].addr, [StackOf(bs[k])]) {
      assert rs[j].addr == bs[if j <= p then j else q + (j - p - 1)].addr;
    }
  }

  // ---- the list after malloc has carved it again ----

  // Where carving `b` puts a second header.
  function SecondHeader(b: Block): nat {
    b.addr + STACK_SIZE + HEADER_SIZE
  }

  lemma CarveClear(rs: seq<Block>, j: nat, live: seq<Block>)
    requires j < |rs| && Fits(rs[j], STACK_SIZE) && HeadersClear(rs, live)
    ensures HeadersClear(Replace(rs, j, 1, Carve(rs[j], STACK_SIZE)), live)
            <==> !Splits(rs[j], STACK_SIZE) || ClearOf(SecondHeader(rs[j]), live)
  {
    var cs := Replace(rs, j, 1, Carve(rs[j], STACK_SIZE));
    var w := |Carve(rs[j], STACK_SIZE)|;
    forall i | 0 <= i < |cs| && i != j + 1 ensures ClearOf(cs[i].addr, live) {
      assert cs[i].addr == rs[if i <= j then i else i - w + 1].addr;
    }
    if Splits(rs[j], STACK_SIZE) {
      assert cs[j + 1].addr == SecondHeader(rs[j]);
    } else if j + 1 < |cs| {
      assert cs[j + 1] == rs[j + 1];
    }
  }

  /** Freeing block k and allocating a stack puts a header into the stack freed: block k is merged with a free block
    * before it that is too small for a stack, no block before these has room, and what they make is split. */
  predicate Hits(bs: seq<Block>, k: nat)
    requires k < |bs|
  {
    && First(bs, k) < k && bs[k - 1].size < STACK_SIZE && !Room(bs[..k - 1], STACK_SIZE)
    && RoomAt(bs, k) > STACK_SIZE + HEADER_SIZE + HEADER_SIZE + 8
  }

  // The block that the next stack comes from: the first one with room, after block k has been freed.
  lemma NextFit(bs: seq<Block>, k: nat)
    requires NoFreeNeighbours(bs) && k < |bs| && !bs[k].free
    ensures var p, j := First(bs, k), FirstFit(Release(bs, k), STACK_SIZE);
            && p < |Release(bs, k)| && (j < p <==> Room(bs[..p], STACK_SIZE))
            && (j < p ==> Release(bs, k)[j] == bs[j])
            && (j == p ==> Release(bs, k)[p].size == RoomAt(bs, k) && Release(bs, k)[p].addr == bs[p].addr)
            && (j > p ==> RoomAt(bs, k) < STACK_SIZE + HEADER_SIZE)
            && (p < j < |Release(bs, k)| ==>
                  Last(bs, k) + (j - p) < |bs| && Release(bs, k)[j] == bs[Last(bs, k) + (j - p)])
  {
    var rs, p := Release(bs, k), First(bs, k);
    var m := ReleaseMerges(bs, k);
    assert rs[p] == m;
    assert forall i :: 0 <= i < p ==> rs[i] == bs[i] == bs[..p][i];
  }

  // The second header that malloc makes lies in the stack only in that case.
  lemma SecondClear(bs: seq<Block>, lo: nat, hi: nat, k: nat, c: Block, j: nat)
    requires Tiles(bs, lo, hi) && NoFreeNeighbours(bs) && k < |bs| && !bs[k].free && bs[k].size >= STACK_SIZE
    requires j == FirstFit(Release(bs, k), STACK_SIZE) < |Release(bs, k)| && c == Release(bs, k)[j]
    ensures Splits(c, STACK_SIZE) && !ClearOf(SecondHeader(c), [StackOf(bs[k])]) <==> Hits(bs, k)
  {
    var p, b := First(bs, k), StackOf(bs[k]);
    Ordered(bs, lo, hi);
    NextFit(bs, k);
    assert Used([b]) == {b};
    if j < p {
      assert c.End() <= bs[k].addr;
    } else if j == p {
      assert p < k ==> bs[k - 1].End() == bs[k - 1 + 1].addr;
    } else {
      assert bs[k].End() <= c.addr;
    }
  }

  // A new frame lies behind all blocks.
  lemma GrownClear(h: Heap, b: Block)
    requires HeapOk(h) && HeadersClear(h.blocks, [b]) && b.End() <= Limit(h) && !b.free
    requires FirstFit(h.blocks, STACK_SIZE) == |h.blocks|
    ensures HeadersClear(Malloc(h, STACK_SIZE).0.blocks, [b])
  {
    assert Rounded(STACK_SIZE) == STACK_SIZE;
    if h.taken < |h.pool| {
      ContiguousAt(h.pool, h.taken);
      var cs := Malloc(h, STACK_SIZE).0.blocks;
      assert Used([b]) == {b};
      forall i | 0 <= i < |cs| ensures ClearOf(cs[i].addr, [b]) {
        if i < |h.blocks| {
          assert cs[i] == h.blocks[i];
        } else {
          assert cs[i] == Carve(Fresh(h.pool[h.taken]), STACK_SIZE)[i - |h.blocks|];
          assert Limit(h) <= cs[i].addr;
        }
      }
    }
  }

  // The heap after block k has been freed.
  ghost predicate Freed(h: Heap, k: nat, h1: Heap) {
    && HeapOk(h) && k < |h.blocks| && !h.blocks[k].free && h.blocks[k].size >= STACK_SIZE
    && HeapOk(h1) && h1.blocks == Release(h.blocks, k) && h1.pool == h.pool && h1.taken == h.taken
  }

  /** After malloc has served the next stack, no header lies in the stack freed, except in that case. */
  lemma HitsExactly(h: Heap, k: nat, h1: Heap)
    requires Freed(h, k, h1)
    ensures HeadersClear(Malloc(h1, STACK_SIZE).0.blocks, [StackOf(h.blocks[k])]) <==> !Hits(h.blocks, k)
  {
    var bs, rs, b := h.blocks, h1.blocks, StackOf(h.blocks[k]);
    var j := FirstFit(h1.blocks, STACK_SIZE);
    assert Rounded(STACK_SIZE) == STACK_SIZE;
    ReleaseClear(bs, Base(h), Limit(h), k);
    if j < |rs| {
      CarveClear(rs, j, [b]);
      SecondClear(bs, Base(h), Limit(h), k, rs[j], j);
    } else {
      NextFit(bs, k);
      TilesWithin(bs, Base(h), Limit(h), k);
      GrownClear(h1, b);
    }
  }

  // ---- process_exit ----

  /** The current process runs on a block in use with room for a stack. */
  predicate OwnsStack(s: Sys)
    requires TableShape(s.table)
  {
    s.table.current >= 0 &&
    var stack := s.table.procs[s.table.current].stack;
    InRange(s.heap, stack) && Listed(s.heap, stack) &&
    var b := s.heap.blocks[IndexOf(s.heap.blocks, stack)];
    !b.free && b.size >= STACK_SIZE
  }

  function StackIndex(s: Sys): (k: nat)
    requires TableShape(s.table) && OwnsStack(s)
    ensures k < |s.heap.blocks|
  {
    IndexOf(s.heap.blocks, s.table.procs[s.table.current].stack)
  }

  // The stack of the current process: its payload is [stack, stack + STACK_SIZE).
  function StackExtent(s: Sys): Block
    requires TableShape(s.table) && OwnsStack(s)
  {
    StackOf(s.heap.blocks[StackIndex(s)])
  }

  // Nobody but the current process can run.
  predicate Alone(t: Table)
    requires TableShape(t)
  {
    forall i :: 0 <= i < MAX_PROCESSES && i != t.current ==> t.procs[i].state != Ready && t.procs[i].state != Running
  }

  /** Exit puts a header into the stack that it runs on: the last process exits, and its idle successor's stack is
    * carved out of what freeing makes of the stack and a small free block before it. */
  predicate ExitHits(s: Sys)
    requires TableShape(s.table) && OwnsStack(s)
  {
    Alone(s.table) && Hits(s.heap.blocks, StackIndex(s))
  }

  lemma VacateFrees(s: Sys)
    requires TableShape(s.table) && OwnsStack(s) && HeapOk(s.heap)
    ensures Releasable(s) && Freed(s.heap, StackIndex(s), Vacate(s).heap)
    ensures StackExtent(s).Payload() == s.table.procs[s.table.current].stack
  {
    var stack, k := s.table.procs[s.table.current].stack, StackIndex(s);
    FreeOk(s.heap, stack);
    assert BlockOk(s.heap.blocks[k]);
  }

  // The heap that exit leaves: with a successor at hand it only frees, otherwise it also allocates.
  lemma ExitHeap(s: Sys)
    requires TableShape(s.table) && OwnsStack(s) && Releasable(s)
    ensures (FirstOther(Vacate(s).table.procs, s.table.current, 0) == MAX_PROCESSES) <==> Alone(s.table)
    ensures Exit(s).heap == if Alone(s.table) then Malloc(Vacate(s).heap, STACK_SIZE).0 else Vacate(s).heap
  {
    var ps := Vacate(s).table.procs;
    var next := FirstOther(ps, s.table.current, 0);
    if Alone(s.table) {
      assert ps[s.table.current].state == Unused;
      assert FirstIn(ps, Unused) < MAX_PROCESSES;
    } else {
      var i :| 0 <= i < MAX_PROCESSES && i != s.table.current &&
               (s.table.procs[i].state == Ready || s.table.procs[i].state == Running);
      assert ps[i] == s.table.procs[i];
    }
  }

  /** Exit leaves no header in the stack it runs on, if and only if that case does not apply. */
  lemma ExitExactly(s: Sys)
    requires TableShape(s.table) && OwnsStack(s) && HeapOk(s.heap)
    ensures Releasable(s)
    ensures HeadersClear(Exit(s).heap.blocks, [StackExtent(s)]) <==> !ExitHits(s)
  {
    VacateFrees(s);
    ExitHeap(s);
    if Alone(s.table) {
      HitsExactly(s.heap, StackIndex(s), Vacate(s).heap);
    } else {
      ReleaseClear(s.heap.blocks, Base(s.heap), Limit(s.heap), StackIndex(s));
    }
  }

  // Between the free and the malloc, no header lies in the stack either; and it overlaps no block in use.
  lemma VacateClear(s: Sys)
    requires TableShape(s.table) && OwnsStack(s) && HeapOk(s.heap)
    ensures Releasable(s) && HeadersClear(Vacate(s).heap.blocks, [StackExtent(s)])
    ensures Apart(StackExtent(s), Vacate(s).heap.blocks)
    ensures StackExtent(s).End() <= Limit(Vacate(s).heap)
  {
    VacateFrees(s);
    var h, k := s.heap, StackIndex(s);
    ReleaseClear(h.blocks, Base(h), Limit(h), k);
    ReleaseLaws(h.blocks, Base(h), Limit(h), k);
    Ordered(h.blocks, Base(h), Limit(h));
  }

  // What exit allocates, when that case does not apply, spares the stack and the blocks in use.
  lemma ExitSpares(s: Sys)
    requires TableShape(s.table) && OwnsStack(s) && HeapOk(s.heap) && Alone(s.table) && !ExitHits(s)
    ensures Releasable(s)
    ensures Spared(Vacate(s).heap, STACK_SIZE, Vacate(s).heap.blocks + [StackExtent(s)])
  {
    VacateFrees(s);
    VacateClear(s);
    var h1, b := Vacate(s).heap, StackExtent(s);
    HitsExactly(s.heap, StackIndex(s), h1);
    OwnSpared(h1, STACK_SIZE);
    BothClear(Malloc(h1, STACK_SIZE).0.blocks, h1.blocks, [b]);
    UsedAppend(h1.blocks, [b]);
    assert Used([b]) == {b};
  }

  // The payloads whose words exit keeps: those in use once it has freed its stack, and its own stack.
  ghost function KeptByExit(s: Sys): seq<Block>
    requires TableShape(s.table) && s.table.current >= 0 && Releasable(s)
  {
    Vacate(s).heap.blocks + if OwnsStack(s) && !ExitHits(s) then [StackExtent(s)] else []
  }

  lemma ExitKeeps(s: Sys)
    requires TableShape(s.table) && s.table.current >= 0 && Releasable(s) && HeapOk(s.heap)
    ensures HeapOk(Vacate(s).heap)
    ensures FirstOther(Vacate(s).table.procs, s.table.current, 0) == MAX_PROCESSES ==>
              Spared(Vacate(s).heap, STACK_SIZE, KeptByExit(s))
    ensures OwnsStack(s) ==> Apart(StackExtent(s), Vacate(s).heap.blocks)
  {
    var h1 := Vacate(s).heap;
    FreeOk(s.heap, s.table.procs[s.table.current].stack);
    if OwnsStack(s) {
      ExitHeap(s);
      VacateClear(s);
    }
    if OwnsStack(s) && Alone(s.table) && !ExitHits(s) {
      ExitSpares(s);
    } else {
      OwnSpared(h1, STACK_SIZE);
      assert h1.blocks + [] == h1.blocks;
    }
  }

  // The stack that exit runs on; for a table whose current process owns none, nothing.
  ghost function RunningOn(s: Sys): (b: Block)
    requires TableShape(s.table)
    ensures !b.free
  {
    if OwnsStack(s) then StackExtent(s) else Block(0, 0, false)
  }

  lemma RunningClear(s: Sys)
    requires TableShape(s.table) && s.table.current >= 0 && Releasable(s) && HeapOk(s.heap)
    ensures OwnsStack(s) ==> HeadersClear(Vacate(s).heap.blocks, [RunningOn(s)])
    ensures OwnsStack(s) && !ExitHits(s) ==> HeadersClear(Exit(s).heap.blocks, [RunningOn(s)])
  {
    if OwnsStack(s) {
      VacateClear(s);
      ExitExactly(s);
    }
  }

  lemma SplitWrites(before: seq<Write>, after: seq<Write>, b: Block, n: nat)
    requires before + after != [] ==> WritesIn(before + after, b, n)
    ensures WritesIn(before, b, n) && WritesIn(after, b, n) && WritesFit(before + after, n)
  {
    var ws := before + after;
    forall i | 0 <= i < |before| ensures before[i].word < n && InPayload(b, before[i].word) {
      assert before[i] == ws[i];
    }
    forall i | 0 <= i < |after| ensures after[i].word < n && InPayload(b, after[i].word) {
      assert after[i] == ws[|before| + i];
    }
  }

  // With nothing stored, nothing is asked of the stack.
  lemma WrittenUnder(s: Sys, ws: seq<Write>, m: seq<Word>)
    requires TableShape(s.table) && s.table.current >= 0 && Releasable(s) && HeapOk(s.heap)
    requires WritesIn(ws, RunningOn(s), |m|) && (ws != [] ==> OwnsStack(s))
    ensures KeepsLive(Vacate(s).heap.blocks, m, Written(m, ws))
  {
    if ws != [] {
      VacateClear(s);
      WrittenKeeps(m, ws, RunningOn(s), Vacate(s).heap.blocks);
    }
  }

  // The blocks in use after the free.
  lemma ExitOthers(s: Sys, before: seq<Write>, after: seq<Write>, m0: seq<Word>, m1: seq<Word>, m2: seq<Word>,
                   m3: seq<Word>, m4: seq<Word>)
    requires TableShape(s.table) && s.table.current >= 0 && Releasable(s) && HeapOk(s.heap)
    requires WritesIn(before, RunningOn(s), |m1|) && WritesIn(after, RunningOn(s), |m3|)
    requires before + after != [] ==> OwnsStack(s)
    requires KeepsLive(s.heap.blocks, m0, m1) && m2 == Written(m1, before)
    requires KeepsLive(KeptByExit(s), m2, m3) && m4 == Written(m3, after)
    ensures KeepsLive(Vacate(s).heap.blocks, m0, m4)
  {
    var bs := Vacate(s).heap.blocks;
    FreeUsesFewer(s.heap, s.table.procs[s.table.current].stack);
    KeepsFewer(s.heap.blocks, bs, m0, m1);
    WrittenUnder(s, before, m1);
    KeepsLiveTrans(bs, m0, m1, m2);
    UsedAppend(bs, KeptByExit(s)[|bs|..]);
    assert KeptByExit(s) == bs + KeptByExit(s)[|bs|..];
    KeepsFewer(KeptByExit(s), bs, m2, m3);
    KeepsLiveTrans(bs, m0, m2, m3);
    WrittenUnder(s, after, m3);
    KeepsLiveTrans(bs, m0, m3, m4);
  }

  // The freed stack.
  lemma ExitOwn(s: Sys, before: seq<Write>, after: seq<Write>, m0: seq<Word>, m1: seq<Word>, m2: seq<Word>,
                m3: seq<Word>, m4: seq<Word>)
    requires TableShape(s.table) && OwnsStack(s) && Releasable(s) && !ExitHits(s)
    requires WritesFit(before, |m0|) && WritesFit(after, |m0|) && |m1| == |m2| == |m3| == |m0|
    requires KeepsLive(s.heap.blocks, m0, m1) && m2 == Written(m1, before)
    requires KeepsLive(KeptByExit(s), m2, m3) && m4 == Written(m3, after)
    ensures WritesFit(before + after, |m0|)
    ensures KeepsLive([StackExtent(s)], Written(m0, before + after), m4)
  {
    var b := [StackExtent(s)];
    KeepsPart(s.heap.blocks, StackIndex(s), m0, m1);
    WrittenAgree(m0, m1, before, b);
    UsedAppend(Vacate(s).heap.blocks, b);
    KeepsFewer(KeptByExit(s), b, m2, m3);
    WrittenBoth(m0, before, after);
    KeepsLiveTrans(b, Written(m0, before), m2, m3);
    WrittenAgree(Written(m0, before), m3, after, b);
  }

  lemma KeepsPart(bs: seq<Block>, k: nat, m: seq<Word>, m': seq<Word>)
    requires k < |bs| && !bs[k].free && bs[k].size >= STACK_SIZE && KeepsLive(bs, m, m')
    ensures KeepsLive([StackOf(bs[k])], m, m')
  {
    forall i | 0 <= i < |m| && InPayload(StackOf(bs[k]), i) ensures m'[i] == m[i] {
      assert bs[k] in Used(bs) && InPayload(bs[k], i);
    }
  }

  /** The memory during exit: after the free, the stores before the allocation, the allocation, and the stores
    * after it. */
  lemma ExitMemory(s: Sys, before: seq<Write>, after: seq<Write>, m0: seq<Word>, m1: seq<Word>, m2: seq<Word>,
                   m3: seq<Word>, m4: seq<Word>)
    requires TableShape(s.table) && s.table.current >= 0 && Releasable(s) && HeapOk(s.heap)
    requires WritesIn(before, RunningOn(s), |m0|) && WritesIn(after, RunningOn(s), |m0|)
    requires |m1| == |m2| == |m3| == |m0|
    requires before + after != [] ==> OwnsStack(s)
    requires KeepsLive(s.heap.blocks, m0, m1) && m2 == Written(m1, before)
    requires KeepsLive(KeptByExit(s), m2, m3) && m4 == Written(m3, after)
    ensures KeepsLive(Vacate(s).heap.blocks, m0, m4)
    ensures OwnsStack(s) && !ExitHits(s) ==>
              WritesFit(before + after, |m0|) && KeepsLive([StackExtent(s)], Written(m0, before + after), m4)
  {
    ExitOthers(s, before, after, m0, m1, m2, m3, m4);
    if OwnsStack(s) && !ExitHits(s) {
      ExitOwn(s, before, after, m0, m1, m2, m3, m4);
    }
  }

  /** In a memory that holds the heap exit leaves, every store into the stack that exit runs on leaves that heap
    * intact, if and only if that case does not apply. */
  lemma ExitStores(s: Sys, m: seq<Word>)
    requires TableShape(s.table) && OwnsStack(s) && HeapOk(s.heap)
    requires Releasable(s) && Headers(m, Exit(s).heap.blocks)
    ensures var bs := Exit(s).heap.blocks;
            (forall i: nat, v: Word :: i < |m| && InPayload(StackExtent(s), i) ==> StoreKeeps(m, bs, i, v))
            <==> !ExitHits(s)
  {
    ExitExactly(s);
    assert BlockOk(s.heap.blocks[StackIndex(s)]);
    StoresHarmless(m, Exit(s).heap.blocks, StackExtent(s));
  }

  /** Between the free and the malloc, every store into the stack leaves the heap intact. */
  lemma VacateStores(s: Sys, m: seq<Word>, i: nat, v: Word)
    requires TableShape(s.table) && OwnsStack(s) && HeapOk(s.heap)
    requires Releasable(s) && Headers(m, Vacate(s).heap.blocks)
    requires i < |m| && InPayload(StackExtent(s), i)
    ensures Headers(m[i := v], Vacate(s).heap.blocks)
  {
    VacateClear(s);
    StoreBeside(m, Vacate(s).heap.blocks, StackExtent(s), i, v);
  }
}
