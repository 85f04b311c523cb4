/** What a single malloc or free does to a well-formed heap. */
module HeapOps {
  import opened Machine
  import opened HeapSpec
  import opened HeapLaws

  lemma RoundedBounds(n: nat)
    ensures n <= Rounded(n) <= n + 7 && Rounded(n) % 8 == 0
    ensures 0 < n <= MAX_ALLOWED ==> 0 < Rounded(n) <= MAX_ALLOWED
  {
  }

  // A request size after rounding.
  predicate Request(r: nat) {
    0 < r <= MAX_ALLOWED && r % 8 == 0
  }

  // ---- carving a free block ----

  lemma CarveLaws(b: Block, r: nat)
    requires BlockOk(b) && Fits(b, r) && Request(r)
    ensures var cs := Carve(b, r);
            && cs != [] && Tiles(cs, b.addr, b.End()) && BlocksOk(cs) && NoFreeNeighbours(cs)
            && cs[0].addr == b.addr && !cs[0].free && r <= cs[0].size <= r + 56
            && Used(cs) == {cs[0]}
  {
    var cs := Carve(b, r);
    if Splits(b, r) {
      assert (b.addr + r + HEADER_SIZE) % 8 == 0;
      assert (b.size - (r + HEADER_SIZE)) % 8 == 0;
      UsedCons(cs[0], [cs[1]]);
      assert cs == [cs[0]] + [cs[1]];
    }
  }

  lemma BlocksOkReplace(bs: seq<Block>, k: nat, width: nat, cs: seq<Block>)
    requires k + width <= |bs| && BlocksOk(bs) && BlocksOk(cs)
    ensures BlocksOk(Replace(bs, k, width, cs))
  {
  }

  // Replacing a free block by blocks that start in use creates no free neighbours.
  lemma NoFreeNeighboursReplace(bs: seq<Block>, k: nat, cs: seq<Block>)
    requires k < |bs| && NoFreeNeighbours(bs) && bs[k].free
    requires cs != [] && NoFreeNeighbours(cs) && !cs[0].free
    ensures NoFreeNeighbours(Replace(bs, k, 1, cs))
  {
    var rs := Replace(bs, k, 1, cs);
    forall i | 0 <= i < |rs| - 1 ensures !(rs[i].free && rs[i + 1].free) {
      if i + 1 < k {
        assert rs[i] == bs[i] && rs[i + 1] == bs[i + 1];
      } else if i + 1 == k {
        assert rs[i + 1] == cs[0];
      } else if i + 1 < k + |cs| {
        assert rs[i] == cs[i - k] && rs[i + 1] == cs[i - k + 1];
      } else if i + 1 == k + |cs| {
        assert rs[i + 1] == bs[k + 1];
      } else {
        assert rs[i] == bs[i - |cs| + 1] && rs[i + 1] == bs[i - |cs| + 1 + 1];
      }
    }
  }

  lemma NoFreeNeighboursAppend(bs: seq<Block>, cs: seq<Block>)
    requires NoFreeNeighbours(bs) && NoFreeNeighbours(cs)
    requires cs != [] ==> !cs[0].free
    ensures NoFreeNeighbours(bs + cs)
  {
    var rs := bs + cs;
    forall i | 0 <= i < |rs| - 1 ensures !(rs[i].free && rs[i + 1].free) {
      if i >= |bs| {
        assert rs[i] == cs[i - |bs|] && rs[i + 1] == cs[i - |bs| + 1];
      }
    }
  }

  // ---- malloc ----

  // Where malloc carves: the block it takes, from the list or from a fresh frame.
  function Source(h: Heap, n: nat): Block
    requires Malloc(h, n).1 != 0
  {
    var k := FirstFit(h.blocks, Rounded(n));
    if k < |h.blocks| then h.blocks[k] else Fresh(h.pool[h.taken])
  }

  // The block that malloc hands out.
  function Granted(h: Heap, n: nat): Block
    requires Malloc(h, n).1 != 0
  {
    RoundedBounds(n);
    Carve(Source(h, n), Rounded(n))[0]
  }

  lemma FreshFits(frame: nat, r: nat)
    requires frame % PAGE_2M_SIZE == 0 && Request(r)
    ensures BlockOk(Fresh(frame)) && Fits(Fresh(frame), r) && Splits(Fresh(frame), r)
    ensures Fresh(frame).End() == PhyToVirt(frame) + PAGE_2M_SIZE
  {
    assert frame == PAGE_2M_SIZE * (frame / PAGE_2M_SIZE);
    assert PhyToVirt(frame) % 8 == 0;
  }

  lemma {:induction false} ContiguousAt(pool: seq<nat>, i: nat)
    requires Contiguous(pool) && i < |pool|
    ensures pool[i] == pool[0] + i * PAGE_2M_SIZE
  {
    if i > 0 {
      ContiguousAt(pool, i - 1);
      assert pool[i - 1 + 1] == pool[i - 1] + PAGE_2M_SIZE;
    }
  }

  /** malloc fails exactly when the size is refused or nothing fits and no frame is left; then it changes nothing. */
  lemma MallocNull(h: Heap, n: nat)
    ensures Malloc(h, n).1 == 0 <==>
            n == 0 || n > MAX_ALLOWED ||
            (h.taken >= |h.pool| && forall i :: 0 <= i < |h.blocks| ==> !Fits(h.blocks[i], Rounded(n)))
    ensures Malloc(h, n).1 == 0 ==> Malloc(h, n).0 == h
  {
    if 0 < n <= MAX_ALLOWED {
      var k := FirstFit(h.blocks, Rounded(n));
      if k < |h.blocks| {
        assert Fits(h.blocks[k], Rounded(n));
      }
    }
  }

  /** A successful malloc carves the first block that fits; it takes a frame only if none does. */
  lemma MallocFirstFit(h: Heap, n: nat, i: nat)
    requires Malloc(h, n).1 != 0
    requires i < |h.blocks| && Fits(h.blocks[i], Rounded(n))
    requires forall j :: 0 <= j < i ==> !Fits(h.blocks[j], Rounded(n))
    ensures Source(h, n) == h.blocks[i] && Malloc(h, n).1 == h.blocks[i].Payload()
    ensures Malloc(h, n).0.taken == h.taken
  {
    assert FirstFit(h.blocks, Rounded(n)) == i;
  }

  lemma SourceOk(h: Heap, n: nat)
    requires HeapOk(h) && Malloc(h, n).1 != 0
    ensures BlockOk(Source(h, n)) && Fits(Source(h, n), Rounded(n)) && Request(Rounded(n))
    ensures Base(h) <= Source(h, n).addr && Source(h, n).End() <= Base(h) + |h.pool| * PAGE_2M_SIZE
    ensures PhyToVirt(h.lo) <= Source(h, n).addr && Source(h, n).End() <= PhyToVirt(h.hi)
  {
    RoundedBounds(n);
    var k := FirstFit(h.blocks, Rounded(n));
    if k < |h.blocks| {
      TilesWithin(h.blocks, Base(h), Limit(h), k);
      LimitInRange(h);
    } else {
      FreshFits(h.pool[h.taken], Rounded(n));
      ContiguousAt(h.pool, h.taken);
      assert h.taken + 1 <= |h.pool|;
    }
  }

  lemma LimitInRange(h: Heap)
    requires HeapOk(h) && h.blocks != []
    ensures h.pool != [] && h.taken > 0
    ensures PhyToVirt(h.lo) <= Base(h) && Limit(h) <= PhyToVirt(h.hi)
  {
    TilesWithin(h.blocks, Base(h), Limit(h), 0);
    assert h.taken > 0;
    ContiguousAt(h.pool, h.taken - 1);
  }

  /** A successful malloc keeps the heap well formed. */
  lemma MallocOk(h: Heap, n: nat)
    requires HeapOk(h)
    ensures HeapOk(Malloc(h, n).0)
  {
    if Malloc(h, n).1 != 0 {
      var b := Source(h, n);
      var cs := Carve(b, Rounded(n));
      SourceOk(h, n);
      CarveLaws(b, Rounded(n));
      var k := FirstFit(h.blocks, Rounded(n));
      if k < |h.blocks| {
        TilesReplace(h.blocks, Base(h), Limit(h), k, 1, cs);
        BlocksOkReplace(h.blocks, k, 1, cs);
        NoFreeNeighboursReplace(h.blocks, k, cs);
      } else {
        ContiguousAt(h.pool, h.taken);
        FreshFits(h.pool[h.taken], Rounded(n));
        TilesAppend(h.blocks, cs, Base(h), Limit(h), Limit(h) + PAGE_2M_SIZE);
        NoFreeNeighboursAppend(h.blocks, cs);
      }
    }
  }

  // Carving block k of a tiling adds the granted block to those in use.
  lemma CarveUsed(bs: seq<Block>, k: nat, r: nat)
    requires k < |bs| && BlockOk(bs[k]) && Fits(bs[k], r) && Request(r)
    ensures Used(Replace(bs, k, 1, Carve(bs[k], r))) == Used(bs) + {Carve(bs[k], r)[0]}
  {
    CarveLaws(bs[k], r);
    UsedReplace(bs, k, 1, Carve(bs[k], r));
    assert bs == Replace(bs, k, 1, [bs[k]]);
    UsedReplace(bs, k, 1, [bs[k]]);
    UsedCons(bs[k], []);
    assert [bs[k]] + [] == [bs[k]];
  }

  // What lies in the block malloc carves is clear of every block in use.
  lemma SourceClear(h: Heap, n: nat, u: Block)
    requires HeapOk(h) && Malloc(h, n).1 != 0
    requires u in Used(h.blocks)
    ensures u.End() <= Source(h, n).addr || Source(h, n).End() <= u.addr
  {
    Ordered(h.blocks, Base(h), Limit(h));
    if FirstFit(h.blocks, Rounded(n)) == |h.blocks| {
      ContiguousAt(h.pool, h.taken);
    }
  }

  lemma GrantedUsed(h: Heap, n: nat)
    requires HeapOk(h) && Malloc(h, n).1 != 0
    ensures Used(Malloc(h, n).0.blocks) == Used(h.blocks) + {Granted(h, n)}
  {
    var b, r, k := Source(h, n), Rounded(n), FirstFit(h.blocks, Rounded(n));
    SourceOk(h, n);
    CarveLaws(b, r);
    if k < |h.blocks| {
      CarveUsed(h.blocks, k, r);
    } else {
      UsedAppend(h.blocks, Carve(b, r));
    }
  }

  /** malloc adds exactly one block in use: the granted one, at the returned pointer, with the recorded size
    * between the rounded request and 56 bytes more. */
  lemma MallocGrants(h: Heap, n: nat)
    requires HeapOk(h) && Malloc(h, n).1 != 0
    ensures var (h', p) := Malloc(h, n);
            var g := Granted(h, n);
            && Used(h'.blocks) == Used(h.blocks) + {g} && g !in Used(h.blocks)
            && g.Payload() == p && p % 8 == 0 && !g.free
            && Rounded(n) <= g.size <= Rounded(n) + 56 && g.size < PAGE_2M_SIZE
            && InRange(h, p) && p + g.size <= PhyToVirt(h.hi)
            && g.addr == Source(h, n).addr && g.End() <= Source(h, n).End()
  {
    var b := Source(h, n);
    var r := Rounded(n);
    SourceOk(h, n);
    CarveLaws(b, r);
    TilesBelow(Carve(b, r), b.addr, b.End(), 0);
    GrantedUsed(h, n);
    if Granted(h, n) in Used(h.blocks) {
      SourceClear(h, n, Granted(h, n));
    }
  }

  // ---- free ----

  lemma UsedUpdate(bs: seq<Block>, lo: nat, hi: nat, k: nat)
    requires Tiles(bs, lo, hi) && k < |bs|
    ensures Used(bs[k := bs[k].(free := true)]) == Used(bs) - {bs[k]}
  {
    Ordered(bs, lo, hi);
    var cs := bs[k := bs[k].(free := true)];
    forall b ensures b in Used(cs) <==> b in Used(bs) - {bs[k]} {
      if b in Used(cs) {
        var i :| 0 <= i < |cs| && cs[i] == b;
        assert i != k && bs[i] == b;
      }
      if b in Used(bs) - {bs[k]} {
        var i :| 0 <= i < |bs| && bs[i] == b;
        assert cs[i] == b;
      }
    }
  }

  /** Releasing a block keeps the heap well formed and removes exactly that block from those in use. */
  lemma ReleaseLaws(bs: seq<Block>, lo: nat, hi: nat, k: nat)
    requires Tiles(bs, lo, hi) && BlocksOk(bs) && k < |bs|
    ensures Tiles(Release(bs, k), lo, hi) && BlocksOk(Release(bs, k)) && NoFreeNeighbours(Release(bs, k))
    ensures Used(Release(bs, k)) == Used(bs) - {bs[k]}
  {
    var cs := bs[k := bs[k].(free := true)];
    assert Tiles(cs, lo, hi);
    UsedUpdate(bs, lo, hi, k);
    CoalesceLaws(cs, lo, hi);
  }

  lemma FreeOk(h: Heap, p: nat)
    requires HeapOk(h) && (p == 0 || !InRange(h, p) || Listed(h, p))
    ensures HeapOk(Free(h, p))
  {
    if p != 0 && InRange(h, p) {
      ReleaseLaws(h.blocks, Base(h), Limit(h), IndexOf(h.blocks, p));
    }
  }

  lemma FreeUsesFewer(h: Heap, p: nat)
    requires HeapOk(h) && (p == 0 || !InRange(h, p) || Listed(h, p))
    ensures Used(Free(h, p).blocks) <= Used(h.blocks)
  {
    if Listed(h, p) {
      ReleaseLaws(h.blocks, Base(h), Limit(h), IndexOf(h.blocks, p));
    }
  }

  /** Neither rejection test in free refuses the payload of a block in use: the block is released. */
  lemma FreeReleases(h: Heap, b: Block)
    requires HeapOk(h) && b in Used(h.blocks)
    ensures b.Payload() != 0 && InRange(h, b.Payload()) && Listed(h, b.Payload())
    ensures h.blocks[IndexOf(h.blocks, b.Payload())] == b
    ensures b.size <= PAGE_2M_SIZE
    ensures var h' := Free(h, b.Payload());
            && HeapOk(h') && Used(h'.blocks) == Used(h.blocks) - {b}
            && h'.totalFreed == h.totalFreed + b.size && h'.taken == h.taken && h'.pool == h.pool
  {
    var p := b.Payload();
    var i :| 0 <= i < |h.blocks| && h.blocks[i] == b;
    var k := IndexOf(h.blocks, p);
    Ordered(h.blocks, Base(h), Limit(h));
    LimitInRange(h);
    assert k == i;
    ReleaseLaws(h.blocks, Base(h), Limit(h), k);
    FreeOk(h, p);
  }

  // ---- what one call undoes of the other, and order independence ----

  /** Freeing what malloc just returned restores the block list, unless a frame was taken; then the list is
    * what coalescing the old one with the whole new frame gives. */
  lemma FreeUndoesMalloc(h: Heap, n: nat)
    requires HeapOk(h) && Malloc(h, n).1 != 0
    ensures var (h1, p) := Malloc(h, n);
            && Listed(h1, p)
            && Free(h1, p).blocks ==
               if h1.taken == h.taken then h.blocks else Coalesce(h.blocks + [Fresh(h.pool[h.taken])])
  {
    var (h1, p) := Malloc(h, n);
    var g := Granted(h, n);
    MallocOk(h, n);
    MallocGrants(h, n);
    FreeReleases(h1, g);
    var h2 := Free(h1, p);
    if h1.taken == h.taken {
      CanonicalForm(h2.blocks, h.blocks, Base(h), Limit(h));
    } else {
      WithFrame(h);
      CanonicalForm(h2.blocks, Coalesce(h.blocks + [Fresh(h.pool[h.taken])]), Base(h), Limit(h1));
    }
  }

  // The old list coalesced with the whole new frame.
  lemma WithFrame(h: Heap)
    requires HeapOk(h) && h.taken < |h.pool|
    ensures var bs := Coalesce(h.blocks + [Fresh(h.pool[h.taken])]);
            Tiles(bs, Base(h), Limit(h) + PAGE_2M_SIZE) && NoFreeNeighbours(bs) && Used(bs) == Used(h.blocks)
  {
    var f := Fresh(h.pool[h.taken]);
    FreshFits(h.pool[h.taken], 8);
    ContiguousAt(h.pool, h.taken);
    TilesAppend(h.blocks, [f], Base(h), Limit(h), Limit(h) + PAGE_2M_SIZE);
    CoalesceLaws(h.blocks + [f], Base(h), Limit(h) + PAGE_2M_SIZE);
    UsedAppend(h.blocks, [f]);
  }

  /** Freeing two blocks in either order leaves the same heap. */
  lemma FreesCommute(h: Heap, a: Block, b: Block)
    requires HeapOk(h) && a in Used(h.blocks) && b in Used(h.blocks) && a != b
    ensures var (p, q) := (a.Payload(), b.Payload());
            && Listed(h, p) && Listed(h, q) && Listed(Free(h, p), q) && Listed(Free(h, q), p)
            && Free(Free(h, p), q) == Free(Free(h, q), p)
  {
    var (p, q) := (a.Payload(), b.Payload());
    FreeReleases(h, a);
    FreeReleases(h, b);
    FreeReleases(Free(h, p), b);
    FreeReleases(Free(h, q), a);
    CanonicalForm(Free(Free(h, p), q).blocks, Free(Free(h, q), p).blocks, Base(h), Limit(h));
  }

  /** Freeing twice, while the block is still listed, moves no block but counts its bytes again, unless it has
    * grown beyond 2 MiB; the second call is then refused. */
  lemma DoubleFree(h: Heap, k: nat)
    requires HeapOk(h) && k < |h.blocks| && h.blocks[k].free
    ensures var p := h.blocks[k].Payload();
            && Listed(h, p) && Free(h, p).blocks == h.blocks
            && Free(h, p).totalFreed ==
               h.totalFreed + if h.blocks[k].size > PAGE_2M_SIZE then 0 else h.blocks[k].size
  {
    var p := h.blocks[k].Payload();
    Ordered(h.blocks, Base(h), Limit(h));
    LimitInRange(h);
    assert IndexOf(h.blocks, p) == k;
    ReleaseLaws(h.blocks, Base(h), Limit(h), k);
    assert h.blocks[k := h.blocks[k].(free := true)] == h.blocks;
    CanonicalForm(Release(h.blocks, k), h.blocks, Base(h), Limit(h));
  }
}
