/** What a single malloc or free does to the list of blocks, size by size. */
module HeapSteps {
  import opened HeapSpec
  import opened HeapOps

  // r is n rounded up to a multiple of eight.
  predicate RoundsTo(n: nat, r: nat) {
    r % 8 == 0 && n <= r < n + 8
  }

  // The first block of the list that is free and has 24 bytes more than asked for.
  ghost predicate FirstRoom(bs: seq<Block>, r: nat, i: nat) {
    && i < |bs| && bs[i].free && bs[i].size >= r + 24
    && forall j :: 0 <= j < i ==> !bs[j].free || bs[j].size < r + 24
  }

  // What takes the place of a block of `size` bytes that serves r of them: with more than 56 bytes beyond these it is
  // cut, and the rest, less a header, stays free; otherwise all of it is handed out.
  function Served(addr: nat, size: nat, r: nat): seq<Block> {
    if size > r + 56 then [Block(addr, r, false), Block(addr + 24 + r, size - r - 24, true)]
    else [Block(addr, size, false)]
  }

  /** malloc refuses 0 bytes and more than 2097000. */
  lemma MallocRefuses(h: Heap, n: nat)
    requires n == 0 || n > 2097000
    ensures Malloc(h, n) == (h, 0)
  {
  }

  /** Otherwise the first block with room serves the rounded request in its place, and nothing else changes; what is
    * granted is the rounded request exactly if the block has more than 56 bytes beyond it. */
  lemma MallocServes(h: Heap, n: nat, r: nat, i: nat)
    requires 0 < n <= 2097000 && RoundsTo(n, r) && FirstRoom(h.blocks, r, i)
    ensures var ((h', p), b) := (Malloc(h, n), h.blocks[i]);
            && h' == h.(blocks := h.blocks[..i] + Served(b.addr, b.size, r) + h.blocks[i + 1..],
                        totalAllocated := h.totalAllocated + r)
            && p == b.addr + 24
  {
    RoundedBounds(n);
    assert FirstFit(h.blocks, r) == i;
    assert Rounded(n) == r;
    assert Carve(h.blocks[i], r) == Served(h.blocks[i].addr, h.blocks[i].size, r);
  }

  lemma FitIsRoom(bs: seq<Block>, r: nat)
    ensures FirstFit(bs, r) < |bs| ==> FirstRoom(bs, r, FirstFit(bs, r))
  {
  }

  /** With no room in the list, the next frame serves it and is hung behind the list; with no frame left malloc
    * fails. */
  lemma MallocGrowsBy(h: Heap, n: nat, r: nat)
    requires 0 < n <= 2097000 && RoundsTo(n, r) && forall i :: 0 <= i < |h.blocks| ==> !FirstRoom(h.blocks, r, i)
    ensures if h.taken >= |h.pool| then Malloc(h, n) == (h, 0)
            else
              var (h', p) := Malloc(h, n);
              var at := h.pool[h.taken] + 0xffff_8000_0000_0000;
              && h' == h.(blocks := h.blocks + Served(at, 0x20_0000 - 24, r), taken := h.taken + 1,
                          totalAllocated := h.totalAllocated + r)
              && p == at + 24
  {
    RoundedBounds(n);
    assert Rounded(n) == r;
    var k := FirstFit(h.blocks, r);
    FitIsRoom(h.blocks, r);
    if h.taken < |h.pool| {
      var f := Fresh(h.pool[h.taken]);
      assert Carve(f, r) == Served(f.addr, 0x20_0000 - 24, r);
    }
  }

  /** free leaves the heap alone exactly for NULL, for an address outside the heap range, and for a block of more than
    * 2 MiB. */
  lemma FreeIgnores(h: Heap, p: nat)
    requires HeapOk(h) && (p == 0 || !InRange(h, p) || Listed(h, p))
    ensures Free(h, p) == h <==>
            || p == 0 || p < h.lo + 0xffff_8000_0000_0000 || p >= h.hi + 0xffff_8000_0000_0000
            || h.blocks[IndexOf(h.blocks, p)].size > 0x20_0000
  {
    if p != 0 && InRange(h, p) {
      assert BlockOk(h.blocks[IndexOf(h.blocks, p)]);
    }
  }

  /** It never touches the frames, the range or the bytes allocated, and counts what it frees. */
  lemma FreeCounts(h: Heap, p: nat)
    requires p == 0 || !InRange(h, p) || Listed(h, p)
    ensures Free(h, p) == h.(blocks := Free(h, p).blocks, totalFreed := Free(h, p).totalFreed)
    ensures Free(h, p) != h ==>
              Listed(h, p) && Free(h, p).totalFreed == h.totalFreed + h.blocks[IndexOf(h.blocks, p)].size
  {
  }
}
