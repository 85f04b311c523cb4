/** The new heap of each case of malloc and free, field by field, as the imperative code builds it. */
module HeapParts {
  import opened Machine
  import opened HeapSpec
  import opened HeapLaws
  import opened HeapOps
  import opened HeapImage

  // The heap once an empty one has taken its first frame.
  function AfterFirstPage(h: Heap): Heap
    requires h.taken < |h.pool|
  {
    h.(blocks := [Fresh(h.pool[h.taken])], taken := h.taken + 1)
  }

  /** Taking the first frame before looking for a block comes to the same as taking it after finding none. */
  lemma FirstPageSame(h: Heap, n: nat)
    requires HeapOk(h) && h.blocks == [] && h.taken < |h.pool| && 0 < n <= MAX_ALLOWED
    ensures HeapSpec.Malloc(AfterFirstPage(h), n) == HeapSpec.Malloc(h, n)
  {
    var r, f := Rounded(n), Fresh(h.pool[h.taken]);
    RoundedBounds(n);
    FreshFits(h.pool[h.taken], r);
    assert FirstFit([f], r) == 0;
    assert Replace([f], 0, 1, Carve(f, r)) == Carve(f, r) == [] + Carve(f, r);
  }

  lemma FirstPageOk(h: Heap)
    requires HeapOk(h) && h.blocks == [] && h.taken < |h.pool|
    ensures HeapOk(AfterFirstPage(h)) && Base(AfterFirstPage(h)) == Base(h)
    ensures Limit(AfterFirstPage(h)) == Limit(h) + PAGE_2M_SIZE
  {
    FreshFits(h.pool[h.taken], 8);
  }

  // malloc from block number k of the list, and malloc from a new frame: the parts of the new heap.
  lemma MallocInPlace(h: Heap, n: nat, k: nat)
    requires HeapOk(h) && 0 < n <= MAX_ALLOWED && k < |h.blocks| && k == FirstFit(h.blocks, Rounded(n))
    ensures var h' := HeapSpec.Malloc(h, n).0;
            && HeapOk(h') && Base(h') == Base(h) && Limit(h') == Limit(h)
            && HeadAddr(h'.blocks) == HeadAddr(h.blocks)
            && h' == h.(blocks := Replace(h.blocks, k, 1, Carve(h.blocks[k], Rounded(n))),
                        totalAllocated := h.totalAllocated + Rounded(n))
  {
    MallocOk(h, n);
    var cs := Carve(h.blocks[k], Rounded(n));
    assert cs[0].addr == h.blocks[k].addr;
  }

  lemma MallocByGrowth(h: Heap, n: nat)
    requires HeapOk(h) && 0 < n <= MAX_ALLOWED && h.blocks != [] && h.taken < |h.pool|
    requires FirstFit(h.blocks, Rounded(n)) == |h.blocks|
    ensures var h' := HeapSpec.Malloc(h, n).0;
            && HeapOk(h') && HeadAddr(h'.blocks) == HeadAddr(h.blocks) && Base(h') == Base(h)
            && Limit(h') == Limit(h) + PAGE_2M_SIZE && HeapSpec.Malloc(h, n).1 == Limit(h) + HEADER_SIZE
            && h' == h.(blocks := h.blocks + Carve(Fresh(h.pool[h.taken]), Rounded(n)), taken := h.taken + 1,
                        totalAllocated := h.totalAllocated + Rounded(n))
  {
    MallocOk(h, n);
    RoundedBounds(n);
    FreshFits(h.pool[h.taken], Rounded(n));
    ContiguousAt(h.pool, h.taken);
  }

  // free of a listed block that is not refused: the parts of the new heap.
  lemma FreeParts(h: Heap, p: nat)
    requires HeapOk(h) && p != 0 && InRange(h, p) && Listed(h, p)
    requires h.blocks[IndexOf(h.blocks, p)].size <= PAGE_2M_SIZE
    ensures var (h', k) := (HeapSpec.Free(h, p), IndexOf(h.blocks, p));
            && HeapOk(h') && HeadAddr(h'.blocks) == HeadAddr(h.blocks) && Base(h') == Base(h) && Limit(h') == Limit(h)
            && h' == h.(blocks := Release(h.blocks, k), totalFreed := h.totalFreed + h.blocks[k].size)
  {
    var k := IndexOf(h.blocks, p);
    FreeOk(h, p);
    CoalesceHead(h.blocks[k := h.blocks[k].(free := true)]);
  }

  // ---- what malloc spares ----

  /** No header of the heap that malloc(n) leaves, and no new frame, meets these payloads. */
  ghost predicate Spared(h: Heap, n: nat, live: seq<Block>) {
    Below(live, Limit(h)) && HeadersClear(HeapSpec.Malloc(h, n).0.blocks, live)
  }

  /** malloc spares the payloads in use. */
  lemma OwnSpared(h: Heap, n: nat)
    requires HeapOk(h)
    ensures Spared(h, n, h.blocks)
  {
    var h' := HeapSpec.Malloc(h, n).0;
    Ordered(h.blocks, Base(h), Limit(h));
    MallocOk(h, n);
    OwnHeadersClear(h'.blocks, Base(h'), Limit(h'));
    MallocNull(h, n);
    if HeapSpec.Malloc(h, n).1 != 0 {
      MallocGrants(h, n);
    }
    FewerClear(h'.blocks, h'.blocks, h.blocks);
  }

  // The last header, which a new frame is linked to, stays on the list.
  lemma LastSpared(h: Heap, n: nat, live: seq<Block>)
    requires HeapOk(h) && 0 < n <= MAX_ALLOWED && h.blocks != [] && h.taken < |h.pool|
    requires FirstFit(h.blocks, Rounded(n)) == |h.blocks| && Spared(h, n, live)
    ensures ClearOf(h.blocks[|h.blocks| - 1].addr, live)
  {
    MallocByGrowth(h, n);
    var h' := HeapSpec.Malloc(h, n).0;
    assert h'.blocks[|h.blocks| - 1] == h.blocks[|h.blocks| - 1];
  }

  // ---- words outside the frames ----

  // The range of `room` bytes at `at` overlaps no frame of the pool.
  ghost predicate ClearOfFrames(pool: seq<nat>, at: nat, room: nat) {
    forall i :: 0 <= i < |pool| ==> PhyToVirt(pool[i]) + PAGE_2M_SIZE <= at || at + room <= PhyToVirt(pool[i])
  }

  /** Every word that holds a byte of the range of `room` bytes at `at` is the same in `m` and `m'`. */
  ghost predicate KeptAt(at: nat, room: nat, m: seq<Word>, m': seq<Word>) {
    |m'| == |m| && forall i :: 0 <= i < |m| && at < WordAddr(i) + 8 && WordAddr(i) < at + room ==> m'[i] == m[i]
  }

  // The frame that holds a word of the extent of the heap.
  lemma FrameOfWord(h: Heap, i: nat) returns (j: nat)
    requires HeapOk(h) && Base(h) <= WordAddr(i) < Limit(h)
    ensures j < |h.pool|
    ensures PhyToVirt(h.pool[j]) <= WordAddr(i) && WordAddr(i) + 8 <= PhyToVirt(h.pool[j]) + PAGE_2M_SIZE
  {
    assert h.pool != [] && h.pool[0] % PAGE_2M_SIZE == 0;
    WordAligned(i, h.pool[0]);
    j := FrameOfOffset(WordAddr(i) - Base(h), h.taken);
    ContiguousAt(h.pool, j);
  }

  lemma WordAligned(i: nat, frame: nat)
    requires frame % PAGE_2M_SIZE == 0 && PhyToVirt(frame) <= WordAddr(i)
    ensures (WordAddr(i) - PhyToVirt(frame)) % 8 == 0
  {
  }

  lemma FrameOfOffset(x: nat, n: nat) returns (j: nat)
    requires x % 8 == 0 && x < n * PAGE_2M_SIZE
    ensures j < n && j * PAGE_2M_SIZE <= x && x + 8 <= j * PAGE_2M_SIZE + PAGE_2M_SIZE
  {
    j := x / PAGE_2M_SIZE;
  }

  /** What is clear of all frames is kept where only the extent of the heap changes. */
  lemma OutsideFrames(h: Heap, at: nat, room: nat, m: seq<Word>, m': seq<Word>)
    requires HeapOk(h) && ClearOfFrames(h.pool, at, room) && KeepsOutside(Base(h), Limit(h), m, m')
    ensures KeptAt(at, room, m, m')
  {
    forall i | 0 <= i < |m| && at < WordAddr(i) + 8 && WordAddr(i) < at + room ensures m'[i] == m[i] {
      if Base(h) <= WordAddr(i) < Limit(h) {
        var j := FrameOfWord(h, i);
        assert false;
      }
    }
  }

  // Two steps in a row, over an extent that only grows.
  lemma ConfinedWiden(live: seq<Block>, mid: Heap, h': Heap, m: seq<Word>, m1: seq<Word>, m2: seq<Word>)
    requires Confined(live, Base(mid), Limit(mid), m, m1) && Confined(live, Base(h'), Limit(h'), m1, m2)
    requires Base(mid) == Base(h') && mid.taken <= h'.taken
    ensures Confined(live, Base(h'), Limit(h'), m, m2)
  {
    assert Limit(mid) <= Limit(h');
  }
}
