/** memory.c: physical page list and kernel heap, over a flat array of 64-bit words. */
module MemoryC {
  import opened Machine
  import opened HeapSpec
  import opened HeapLaws
  import opened HeapOps
  import opened HeapImage
  import opened PageList
  import opened PageMap
  import opened PageFill
  import opened HeapParts
  import HeapRuns

  class Memory {
    // Physical memory: word i holds the eight bytes at physical address 8*i.
    const mem: array<Word>

    // The page descriptors, the first free one (-1 for NULL), and how many are free.
    var pages: array<Page>
    var pagesStruct: nat
    var freePagesList: int
    var totalFreePages: nat

    // The physical range of the heap, its first header (0 for NULL), and the byte totals.
    var kernelHeapStart: nat
    var kernelHeapEnd: nat
    var mallocHead: nat
    var mallocTotalAllocated: Word
    var mallocTotalFreed: Word

    // What the fields stand for.
    ghost var heap: Heap
    ghost var freeList: seq<nat>

    ghost function PageState(): Pages
      reads this`pages, this`freeList, pages
    {
      Pages(pages[..], freeList)
    }

    ghost predicate PageListOk()
      reads this`pages, this`freeList, this`freePagesList, this`totalFreePages, pages
    {
      PagesOk(PageState()) && freePagesList == LinkAt(freeList, 0) && totalFreePages == |freeList|
    }

    /** The free descriptors stand for the frames of the pool that are not taken yet, in order; the pool lies in the
      * machine's memory, and the descriptors, at their own address there, overlap no frame of it. */
    ghost predicate FramesOk(pool: seq<nat>, taken: nat)
      reads this`pages, this`pagesStruct, this`freeList, this`freePagesList, this`totalFreePages, pages
    {
      && PageListOk() && taken <= |pool| && Frames(PageState(), pool[taken..])
      && FramesBelow(pool, 8 * mem.Length)
      && ClearOfFrames(pool, pagesStruct, pages.Length * PAGE_STRUCT_SIZE)
    }

    /** The headers in memory are those of the heap, and the heap's variables agree with it. */
    ghost predicate HeapStored()
      reads this`heap, this`mallocHead, this`kernelHeapStart, this`kernelHeapEnd, this`mallocTotalAllocated,
            this`mallocTotalFreed, mem
    {
      && HeapOk(heap)
      && Headers(mem[..], heap.blocks) && mallocHead == HeadAddr(heap.blocks)
      && kernelHeapStart == heap.lo && kernelHeapEnd == heap.hi
      && mallocTotalAllocated == heap.totalAllocated % W64 && mallocTotalFreed == heap.totalFreed % W64
    }

    ghost predicate Valid()
      reads this, mem, pages
    {
      FramesOk(heap.pool, heap.taken) && HeapStored()
    }

    // C's zero-initialised statics.
    ghost predicate Pristine()
      reads this, pages
    {
      && PageListOk() && freeList == [] && kernelHeapStart == 0 && kernelHeapEnd == 0
      && mallocHead == 0 && mallocTotalAllocated == 0 && mallocTotalFreed == 0
    }

    constructor (mem: array<Word>)
      ensures Pristine() && Valid() && this.mem == mem && fresh(pages)
      ensures heap == Heap([], [], 0, 0, 0, 0, 0) && freeList == []
    {
      this.mem := mem;
      pages := new Page[0];
      pagesStruct, freePagesList, totalFreePages := 0, -1, 0;
      kernelHeapStart, kernelHeapEnd, mallocHead := 0, 0, 0;
      mallocTotalAllocated, mallocTotalFreed := 0, 0;
      heap, freeList := Heap([], [], 0, 0, 0, 0, 0), [];
    }

    // ---- pages ----

    // An aligned 2 MiB of the machine's memory.
    predicate IsFrame(phys: nat) {
      phys % PAGE_2M_SIZE == 0 && phys + PAGE_2M_SIZE <= 8 * mem.Length
    }

    method AllocPage() returns (page: int)
      requires PageListOk()
      requires freeList != [] ==> freeList[0] < pages.Length && IsFrame(pages[freeList[0]].phyAddr)
      modifies this`freePagesList, this`totalFreePages, this`freeList, pages, mem
      ensures PageListOk()
      ensures page == old(freePagesList)
      ensures page == -1 ==> PageState() == old(PageState()) && mem[..] == old(mem[..])
      ensures page == -1 <==> old(freeList) == []
      ensures page != -1 ==> 0 <= page < pages.Length && old(PageState().list)[0] == page
      ensures page != -1 ==> PageState() == Take(old(PageState()))
      ensures page != -1 ==> Zeroed(old(mem[..]), mem[..], pages[page].phyAddr)
    {
      if freePagesList == -1 {
        return -1;
      }
      TakeOk(PageState());
      assert Linked(pages[..], freeList, 0);
      page := freePagesList;
      freePagesList := pages[page].next;
      pages[page] := pages[page].(next := -1);
      pages[page] := pages[page].(refCount := 1);
      totalFreePages := totalFreePages - 1;
      freeList := freeList[1..];
      assert PageState() == Take(old(PageState()));
      ZeroFrame(pages[page].phyAddr);
    }

    method ZeroFrame(phys: nat)
      requires IsFrame(phys)
      modifies mem
      ensures Zeroed(old(mem[..]), mem[..], phys)
    {
      var first, count := phys / 8, PAGE_2M_SIZE / 8;
      assert phys == 8 * first && first + count <= mem.Length;
      for i := 0 to count
        invariant forall j :: 0 <= j < mem.Length ==> mem[j] == if first <= j < first + i then 0 else old(mem[j])
      {
        mem[first + i] := 0;
      }
    }

    /** free_page, for NULL and for any page of the array. */
    method FreePage(page: int)
      requires PageListOk() && -1 <= page < pages.Length
      modifies this`freePagesList, this`totalFreePages, this`freeList, pages
      ensures page == -1 ==> PageState() == old(PageState())
      ensures page != -1 ==> PageState() == Give(old(PageState()), page)
      ensures page != -1 ==> (PageListOk() <==> !(page in old(freeList) && old(pages[page].refCount) == 1))
    {
      if page == -1 {
        return;
      }
      GiveOk(PageState(), page);
      pages[page] := pages[page].(refCount := (pages[page].refCount + W32 - 1) % W32);
      if pages[page].refCount == 0 {
        pages[page] := pages[page].(next := freePagesList);
        freePagesList := page;
        totalFreePages := totalFreePages + 1;
        freeList := [page as nat] + freeList;
      }
      assert PageState() == Give(old(PageState()), page);
    }

    // ---- header fields ----

    function SizeAt(a: nat): Word
      requires HoldsHeader(mem[..], a)
      reads mem
    {
      mem[Ix(a)]
    }

    function NextAt(a: nat): Word
      requires HoldsHeader(mem[..], a)
      reads mem
    {
      mem[Ix(a) + 1]
    }

    function IsFreeAt(a: nat): bool
      requires HoldsHeader(mem[..], a)
      reads mem
    {
      LowHalf(mem[Ix(a) + 2]) != 0
    }

    // `size`, `next` and `is_free` of a new header.
    method WriteHeader(a: nat, size: Word, next: Word, free: bool)
      requires HoldsHeader(mem[..], a)
      modifies mem
      ensures Wrote(old(mem[..]), mem[..], Block(a, size, free), next)
    {
      mem[Ix(a)] := size;
      mem[Ix(a) + 1] := next;
      mem[Ix(a) + 2] := WithLowHalf(mem[Ix(a) + 2], Flag(free));
      WroteAll(old(mem[..]), mem[..], Block(a, size, free), next);
    }

    // `size` and `next` of an existing header.
    method SetSizeNext(a: nat, size: Word, next: Word, ghost b: Block, ghost was: nat)
      requires HeaderIn(mem[..], b, was) && a == b.addr
      modifies mem
      ensures Wrote(old(mem[..]), mem[..], b.(size := size), next)
    {
      mem[Ix(a)] := size;
      mem[Ix(a) + 1] := next;
      WroteSizeNext(old(mem[..]), mem[..], b, was, size, next);
    }

    method SetNext(a: nat, next: Word, ghost b: Block, ghost was: nat)
      requires HeaderIn(mem[..], b, was) && a == b.addr
      modifies mem
      ensures Wrote(old(mem[..]), mem[..], b, next)
    {
      mem[Ix(a) + 1] := next;
      WroteNext(old(mem[..]), mem[..], b, was, next);
    }

    method SetFree(a: nat, free: bool, ghost b: Block, ghost next: nat)
      requires HeaderIn(mem[..], b, next) && a == b.addr
      modifies mem
      ensures Wrote(old(mem[..]), mem[..], b.(free := free), next)
    {
      mem[Ix(a) + 2] := WithLowHalf(mem[Ix(a) + 2], Flag(free));
      WroteFree(old(mem[..]), mem[..], b, next, free);
    }

    // ---- facts of a valid heap ----

    lemma ValidPlaced()
      requires Valid()
      ensures Placed(mem[..], heap.blocks, Base(heap), Limit(heap))
      ensures heap.blocks != [] ==> Limit(heap) <= WordAddr(mem.Length)
    {
      if heap.blocks != [] {
        LimitInRange(heap);
        ContiguousAt(heap.pool, heap.taken - 1);
      }
    }

    /** Every frame is either on the free list or taken, and the list of blocks accounts for every byte taken. */
    lemma FramesAccounted()
      requires Valid()
      ensures heap.taken + totalFreePages == |heap.pool|
      ensures HeapRuns.TotalBytes(heap.blocks) == heap.taken * PAGE_2M_SIZE
    {
      HeapRuns.TotalBytesOfTiling(heap.blocks, Base(heap), Limit(heap));
    }

    lemma EmptyHeap()
      requires Valid() && mallocHead == 0
      ensures heap.blocks == [] && heap.taken == 0
    {
      HeadNonNull(mem[..], heap.blocks);
    }

    // The next free frame starts where the frames taken end.
    lemma NextFrame()
      requires Valid() && freeList != []
      ensures freeList[0] < pages.Length && IsFrame(pages[freeList[0]].phyAddr)
      ensures heap.taken < |heap.pool| && pages[freeList[0]].phyAddr == heap.pool[heap.taken]
      ensures PhyToVirt(heap.pool[heap.taken]) == Limit(heap)
      ensures Limit(heap) + PAGE_2M_SIZE <= W64
    {
      ContiguousAt(heap.pool, heap.taken);
    }

    // ---- malloc ----

    /** Cuts the block `b` at `current` down to `size` bytes and puts a free block behind it. */
    method SplitAt(current: nat, size: nat, ghost b: Block, ghost next: nat) returns (ghost m1: seq<Word>)
      requires HeaderIn(mem[..], b, next) && current == b.addr
      requires size + HEADER_SIZE <= b.size && current + size + HEADER_SIZE < W64
      requires HoldsHeader(mem[..], current + size + HEADER_SIZE)
      modifies mem
      ensures var d := Block(current + size + HEADER_SIZE, b.size - (size + HEADER_SIZE), true);
              Wrote(old(mem[..]), m1, d, next) && Wrote(m1, mem[..], b.(size := size), d.addr)
    {
      var totalSize := size + HEADER_SIZE;
      var newBlock := current + totalSize;
      ghost var d := Block(newBlock, b.size - totalSize, true);
      WriteHeader(newBlock, SizeAt(current) - totalSize, NextAt(current), true);
      m1 := mem[..];
      WroteKeeps(old(mem[..]), m1, d, next, b, next);
      SetSizeNext(current, size, newBlock, b, next);
    }

    /** Hands out `size` bytes of the free block `current`, number k of the list, splitting it if enough is left. */
    method CarveAt(current: nat, size: nat, ghost bs: seq<Block>, ghost k: nat, ghost lo: nat, ghost hi: nat,
                   ghost live: seq<Block>)
      requires Placed(mem[..], bs, lo, hi) && hi <= WordAddr(mem.Length)
      requires k < |bs| && current == bs[k].addr && size % 8 == 0 && Fits(bs[k], size)
      requires HeadersClear(Replace(bs, k, 1, Carve(bs[k], size)), live)
      modifies mem
      ensures Placed(mem[..], Replace(bs, k, 1, Carve(bs[k], size)), lo, hi)
      ensures Confined(live, lo, hi, old(mem[..]), mem[..])
    {
      assert Stored(mem[..], bs, k);
      ghost var cs := Replace(bs, k, 1, Carve(bs[k], size));
      assert ClearOf(cs[k].addr, live);
      if SizeAt(current) > size + HEADER_SIZE + HEADER_SIZE + 8 {
        assert ClearOf(cs[k + 1].addr, live);
        SplitBlock(current, size, bs, k, lo, hi, live);
      } else {
        ghost var m0 := mem[..];
        SetFree(current, false, bs[k], NextAddr(bs, k));
        ReplaceOne(m0, mem[..], bs, lo, hi, k, 1, bs[k].(free := false), live);
      }
    }

    method SplitBlock(current: nat, size: nat, ghost bs: seq<Block>, ghost k: nat, ghost lo: nat, ghost hi: nat,
                      ghost live: seq<Block>)
      requires Placed(mem[..], bs, lo, hi) && hi <= WordAddr(mem.Length)
      requires k < |bs| && current == bs[k].addr && size % 8 == 0 && bs[k].free && size + HEADER_SIZE <= bs[k].size
      requires ClearOf(current, live) && ClearOf(current + size + HEADER_SIZE, live)
      modifies mem
      ensures var d := Block(current + size + HEADER_SIZE, bs[k].size - (size + HEADER_SIZE), true);
              Placed(mem[..], Replace(bs, k, 1, [Block(current, size, false), d]), lo, hi)
      ensures Confined(live, lo, hi, old(mem[..]), mem[..])
    {
      ghost var b, next, m0 := bs[k], NextAddr(bs, k), mem[..];
      ghost var newBlock := current + size + HEADER_SIZE;
      ghost var c, d := Block(current, size, false), Block(newBlock, b.size - (size + HEADER_SIZE), true);
      assert Stored(m0, bs, k);
      InsideHolds(m0, bs, lo, hi, k, newBlock);
      ghost var m1 := SplitAt(current, size, b, next);
      ghost var m2 := mem[..];
      SetFree(current, false, b.(size := size), newBlock);
      WroteTwice(m1, m2, mem[..], b.(size := size), newBlock, c, newBlock);
      assert c.addr == b.addr && c.End() == d.addr && d.End() == b.End();
      CarveSplit(m0, m1, mem[..], bs, lo, hi, k, c, d, live);
    }

    /** The first page of an empty heap becomes one free block. */
    method FirstPage(ghost live: seq<Block>) returns (ok: bool)
      requires Valid() && mallocHead == 0 && Below(live, Limit(heap))
      modifies this`mallocHead, this`freePagesList, this`totalFreePages, this`freeList, this`heap, pages, mem
      ensures ok <==> old(heap.taken < |heap.pool|)
      ensures ok ==> heap == AfterFirstPage(old(heap))
      ensures !ok ==> heap == old(heap) && mem[..] == old(mem[..])
      ensures Confined(live, Base(heap), Limit(heap), old(mem[..]), mem[..])
      ensures Valid() && Limit(old(heap)) <= Limit(heap)
    {
      EmptyHeap();
      ghost var h, m0 := heap, mem[..];
      var phys := NewFrame(live);
      if phys == -1 {
        ConfinedSame(live, Base(h), Limit(h), m0);
        return false;
      }
      ghost var m1 := mem[..];
      FormatFrame(phys, live);
      ConfinedTrans(live, Base(heap), Limit(heap), m0, m1, mem[..]);
      ok := true;
    }

    // The whole frame becomes one free block, the first of the list.
    method FormatFrame(phys: nat, ghost live: seq<Block>)
      requires HeapStored() && heap.blocks == [] && heap.taken < |heap.pool| && Below(live, Limit(heap))
      requires phys == heap.pool[heap.taken] && PhyToVirt(phys) == Limit(heap)
      requires Limit(heap) + PAGE_2M_SIZE <= W64 && Limit(heap) + PAGE_2M_SIZE <= WordAddr(mem.Length)
      modifies this`mallocHead, this`heap, mem
      ensures heap == AfterFirstPage(old(heap)) && HeapStored()
      ensures Base(heap) == Base(old(heap)) && Limit(heap) == Limit(old(heap)) + PAGE_2M_SIZE
      ensures Confined(live, Base(heap), Limit(heap), old(mem[..]), mem[..])
    {
      FirstPageOk(heap);
      HighIsClear(live, Limit(heap), PhyToVirt(phys));
      mallocHead := PhyToVirt(phys);
      WriteHeader(mallocHead, PAGE_2M_SIZE - HEADER_SIZE, 0, true);
      WroteConfined(live, Base(heap), Limit(heap) + PAGE_2M_SIZE, old(mem[..]), mem[..], Fresh(phys), 0);
      heap := AfterFirstPage(heap);
      assert Stored(mem[..], heap.blocks, 0);
    }

    /** Makes the fresh frame at `newBlock`, right behind the list, one block in use, linked to the last block. */
    method LinkFrame(newBlock: nat, prev: nat, ghost bs: seq<Block>, ghost lo: nat, ghost hi: nat,
                     ghost live: seq<Block>)
      requires Placed(mem[..], bs, lo, hi) && bs != [] && prev == bs[|bs| - 1].addr
      requires Below(live, hi) && ClearOf(prev, live)
      requires newBlock == hi && hi + PAGE_2M_SIZE <= W64 && HoldsHeader(mem[..], hi)
      modifies mem
      ensures Placed(mem[..], bs + [Block(hi, PAGE_2M_SIZE - HEADER_SIZE, false)], lo, hi + PAGE_2M_SIZE)
      ensures Confined(live, lo, hi + PAGE_2M_SIZE, old(mem[..]), mem[..])
    {
      ghost var m0 := mem[..];
      ghost var f := Block(hi, PAGE_2M_SIZE - HEADER_SIZE, false);
      ghost var last := bs[|bs| - 1];
      TilesWithin(bs, lo, hi, |bs| - 1);
      assert Stored(m0, bs, |bs| - 1);
      WriteHeader(newBlock, PAGE_2M_SIZE - HEADER_SIZE, 0, false);
      ghost var m1 := mem[..];
      WroteKeeps(m0, m1, f, 0, last, 0);
      if prev != 0 {
        SetNext(prev, newBlock, last, 0);
      }
      AppendBlock(m0, m1, mem[..], bs, lo, hi, f, live);
    }

    lemma FrameCarved(hi: nat, size: nat)
      requires Request(size)
      ensures var f := Block(hi, PAGE_2M_SIZE - HEADER_SIZE, true);
              && Splits(f, size)
              && Carve(f, size) == [Block(hi, size, false),
                                    Block(hi + size + HEADER_SIZE, f.size - (size + HEADER_SIZE), true)]
    {
    }

    /** Cuts the block in use at the end of the list, a whole frame, down to `size` bytes. */
    method SplitFrame(newBlock: nat, size: nat, ghost bs: seq<Block>, ghost lo: nat, ghost hi: nat,
                      ghost live: seq<Block>)
      requires Tiles(bs, lo, hi) && newBlock == hi && PAGE_OFFSET <= hi && hi % 8 == 0 && Request(size)
      requires Placed(mem[..], bs + [Block(hi, PAGE_2M_SIZE - HEADER_SIZE, false)], lo, hi + PAGE_2M_SIZE)
      requires hi + PAGE_2M_SIZE <= WordAddr(mem.Length) && Below(live, hi)
      modifies mem
      ensures var f := Block(hi, PAGE_2M_SIZE - HEADER_SIZE, true);
              Placed(mem[..], bs + Carve(f, size), lo, hi + PAGE_2M_SIZE)
      ensures Confined(live, lo, hi + PAGE_2M_SIZE, old(mem[..]), mem[..])
    {
      ghost var m0 := mem[..];
      ghost var f := Block(hi, PAGE_2M_SIZE - HEADER_SIZE, false);
      FrameCarved(hi, size);
      assert Stored(m0, bs + [f], |bs|);
      if SizeAt(newBlock) > size + HEADER_SIZE + HEADER_SIZE + 8 {
        ghost var c := Block(hi, size, false);
        ghost var d := Block(hi + size + HEADER_SIZE, f.size - (size + HEADER_SIZE), true);
        assert d.End() == f.End() && d.addr % 8 == 0;
        ghost var m1 := SplitAt(newBlock, size, f, 0);
        ghost var m2 := mem[..];
        assert Wrote(m0, m1, d, 0) && Wrote(m1, m2, c, d.addr);
        SplitLast(m0, m1, m2, bs, lo, hi, f, c, d, live);
      }
    }

    /** Links a fresh frame and carves a block of `size` bytes from it. */
    method HangFrame(newBlock: nat, prev: nat, size: nat, ghost bs: seq<Block>, ghost lo: nat, ghost hi: nat,
                     ghost live: seq<Block>)
      requires Placed(mem[..], bs, lo, hi) && bs != [] && prev == bs[|bs| - 1].addr
      requires Below(live, hi) && ClearOf(prev, live)
      requires newBlock == hi && hi + PAGE_2M_SIZE <= W64 && hi + PAGE_2M_SIZE <= WordAddr(mem.Length)
      requires PAGE_OFFSET <= hi && hi % 8 == 0 && Request(size)
      modifies mem
      ensures var f := Block(hi, PAGE_2M_SIZE - HEADER_SIZE, true);
              Placed(mem[..], bs + Carve(f, size), lo, hi + PAGE_2M_SIZE)
      ensures Confined(live, lo, hi + PAGE_2M_SIZE, old(mem[..]), mem[..])
    {
      ghost var m0 := mem[..];
      LinkFrame(newBlock, prev, bs, lo, hi, live);
      ghost var m1 := mem[..];
      SplitFrame(newBlock, size, bs, lo, hi, live);
      ConfinedTrans(live, lo, hi + PAGE_2M_SIZE, m0, m1, mem[..]);
    }

    // ---- malloc itself ----

    /** alloc_page, seen from the heap: the frame right behind those taken, zeroed; -1 if there is none. */
    method NewFrame(ghost live: seq<Block>) returns (phys: int)
      requires Valid() && Below(live, Limit(heap))
      modifies this`freePagesList, this`totalFreePages, this`freeList, pages, mem
      ensures phys == -1 <==> heap.taken == |heap.pool|
      ensures phys == -1 ==> Valid() && mem[..] == old(mem[..])
      ensures phys != -1 ==> phys == heap.pool[heap.taken] && PhyToVirt(phys) == Limit(heap)
      ensures phys != -1 ==> FramesOk(heap.pool, heap.taken + 1) && HeapStored()
      ensures phys != -1 ==> Confined(live, Base(heap), Limit(heap) + PAGE_2M_SIZE, old(mem[..]), mem[..])
      ensures phys != -1 ==> Limit(heap) + PAGE_2M_SIZE <= W64 && Limit(heap) + PAGE_2M_SIZE <= WordAddr(mem.Length)
    {
      ValidPlaced();
      if freeList != [] {
        NextFrame();
        TakeFrames(PageState(), heap.pool[heap.taken..]);
      }
      var page := AllocPage();
      if page == -1 {
        return -1;
      }
      phys := pages[page].phyAddr;
      ZeroedKeeps(old(mem[..]), mem[..], phys, heap.blocks, Base(heap), live);
      assert heap.pool[heap.taken..][1..] == heap.pool[heap.taken + 1..];
    }

    /** Serves the request `n`, rounded to `size`, that no block can serve, from the new frame `phys`. */
    method Grow(phys: nat, prev: nat, size: nat, ghost n: nat, ghost live: seq<Block>) returns (result: nat)
      requires Below(live, Limit(heap)) && ClearOf(prev, live)
      requires HeapStored() && heap.blocks != [] && prev == heap.blocks[|heap.blocks| - 1].addr
      requires 0 < n <= MAX_ALLOWED && size == Rounded(n) && FirstFit(heap.blocks, size) == |heap.blocks|
      requires heap.taken < |heap.pool| && phys == heap.pool[heap.taken] && PhyToVirt(phys) == Limit(heap)
      requires Limit(heap) + PAGE_2M_SIZE <= W64 && Limit(heap) + PAGE_2M_SIZE <= WordAddr(mem.Length)
      modifies this`heap, this`mallocTotalAllocated, mem
      ensures (heap, result) == HeapSpec.Malloc(old(heap), n)
      ensures HeapStored() && heap.taken == old(heap.taken) + 1 && heap.pool == old(heap.pool)
      ensures Confined(live, Base(heap), Limit(heap), old(mem[..]), mem[..])
    {
      ghost var h := heap;
      RoundedBounds(n);
      FreshFits(phys, size);
      MallocByGrowth(h, n);
      var newBlock := PhyToVirt(phys);
      HangFrame(newBlock, prev, size, h.blocks, Base(h), Limit(h), live);
      WrapAdd(heap.totalAllocated, size);
      mallocTotalAllocated := (mallocTotalAllocated + size) % W64;
      heap := HeapSpec.Malloc(h, n).0;
      result := newBlock + HEADER_SIZE;
    }

    method Malloc(request: Word) returns (result: nat)
      requires Valid()
      modifies this`mallocHead, this`mallocTotalAllocated, this`freePagesList, this`totalFreePages, this`freeList,
               this`heap, pages, mem
      ensures (heap, result) == HeapSpec.Malloc(old(heap), request)
      ensures Confined(old(heap.blocks), Base(heap), Limit(heap), old(mem[..]), mem[..])
      ensures KeptAt(pagesStruct, pages.Length * PAGE_STRUCT_SIZE, old(mem[..]), mem[..])
      ensures Valid() && pages == old(pages) && pagesStruct == old(pagesStruct)
    {
      OwnSpared(heap, request);
      result := MallocSparing(request, heap.blocks);
    }

    /** malloc, and the payloads that it spares: those in use, and others that no header and no new frame meets. */
    method MallocSparing(request: Word, ghost live: seq<Block>) returns (result: nat)
      requires Valid() && Spared(heap, request, live)
      modifies this`mallocHead, this`mallocTotalAllocated, this`freePagesList, this`totalFreePages, this`freeList,
               this`heap, pages, mem
      ensures (heap, result) == HeapSpec.Malloc(old(heap), request)
      ensures Confined(live, Base(heap), Limit(heap), old(mem[..]), mem[..])
      ensures KeptAt(pagesStruct, pages.Length * PAGE_STRUCT_SIZE, old(mem[..]), mem[..])
      ensures Valid() && pages == old(pages) && pagesStruct == old(pagesStruct)
    {
      result := Allocate(request, live);
      OutsideFrames(heap, pagesStruct, pages.Length * PAGE_STRUCT_SIZE, old(mem[..]), mem[..]);
    }

    method Allocate(request: Word, ghost live: seq<Block>) returns (result: nat)
      requires Valid() && Spared(heap, request, live)
      modifies this`mallocHead, this`mallocTotalAllocated, this`freePagesList, this`totalFreePages, this`freeList,
               this`heap, pages, mem
      ensures (heap, result) == HeapSpec.Malloc(old(heap), request)
      ensures Confined(live, Base(heap), Limit(heap), old(mem[..]), mem[..])
      ensures Valid()
    {
      ghost var h, m0 := heap, mem[..];
      ConfinedSame(live, Base(h), Limit(h), m0);
      if request == 0 {
        return 0;
      }
      var maxAllowed := PAGE_2M_SIZE - HEADER_SIZE - 128;
      if request > maxAllowed {
        return 0;
      }
      var size := (request + 7) / 8 * 8;
      RoundedBounds(request);
      if mallocHead == 0 {
        EmptyHeap();
        var ok := FirstPage(live);
        if !ok {
          return 0;
        }
        FirstPageSame(h, request);
      }
      ghost var mid, m1 := heap, mem[..];
      result := Search(size, request, live);
      ConfinedWiden(live, mid, heap, m0, m1, mem[..]);
    }

    /** malloc once there is a list: from the first block that fits, or from a new frame. */
    method Search(size: nat, ghost n: nat, ghost live: seq<Block>) returns (result: nat)
      requires Valid() && mallocHead != 0 && Spared(heap, n, live)
      requires 0 < n <= MAX_ALLOWED && size == Rounded(n)
      modifies this`freePagesList, this`totalFreePages, this`freeList, this`heap, this`mallocTotalAllocated, pages, mem
      ensures (heap, result) == HeapSpec.Malloc(old(heap), n)
      ensures Confined(live, Base(heap), Limit(heap), old(mem[..]), mem[..])
      ensures Valid()
    {
      RoundedBounds(n);
      var current, prev := FindFit(size);
      if current != 0 {
        ValidPlaced();
        result := TakeBlock(current, size, n, FirstFit(heap.blocks, size), live);
      } else {
        result := OutOfBlocks(prev, size, n, live);
      }
    }

    /** The first-fit loop of malloc: the first block that fits, or 0 and the last block of the list. */
    method FindFit(size: nat) returns (current: nat, prev: nat)
      requires HeapStored() && mallocHead != 0
      ensures var k := FirstFit(heap.blocks, size);
              if k < |heap.blocks| then current == heap.blocks[k].addr && current != 0
              else heap.blocks != [] && current == 0 && prev == heap.blocks[k - 1].addr
    {
      HeadNonNull(mem[..], heap.blocks);
      var totalSize := size + HEADER_SIZE;
      current, prev := mallocHead, 0;
      ghost var k := 0;
      while current != 0
        invariant k <= |heap.blocks| && (current != 0 <==> k < |heap.blocks|)
        invariant k < |heap.blocks| ==> current == heap.blocks[k].addr
        invariant k > 0 ==> prev == heap.blocks[k - 1].addr
        invariant forall i :: 0 <= i < k ==> !Fits(heap.blocks[i], size)
        decreases |heap.blocks| - k
      {
        assert Stored(mem[..], heap.blocks, k);
        if IsFreeAt(current) && SizeAt(current) >= totalSize {
          return;
        }
        prev := current;
        current := NextAt(current);
        k := k + 1;
        if k < |heap.blocks| {
          assert Stored(mem[..], heap.blocks, k);
        }
      }
    }

    /** The tail of malloc, after the loop has found nothing. */
    method OutOfBlocks(prev: nat, size: nat, ghost n: nat, ghost live: seq<Block>) returns (result: nat)
      requires Spared(heap, n, live)
      requires Valid() && heap.blocks != [] && prev == heap.blocks[|heap.blocks| - 1].addr
      requires 0 < n <= MAX_ALLOWED && size == Rounded(n) && FirstFit(heap.blocks, size) == |heap.blocks|
      modifies this`freePagesList, this`totalFreePages, this`freeList, this`heap, this`mallocTotalAllocated, pages, mem
      ensures (heap, result) == HeapSpec.Malloc(old(heap), n)
      ensures Confined(live, Base(heap), Limit(heap), old(mem[..]), mem[..])
      ensures Valid()
    {
      ghost var m0 := mem[..];
      ConfinedSame(live, Base(heap), Limit(heap), m0);
      if heap.taken < |heap.pool| {
        LastSpared(heap, n, live);
      }
      var phys := NewFrame(live);
      if phys == -1 {
        MallocNull(heap, n);
        return 0;
      }
      ghost var m1 := mem[..];
      result := Grow(phys, prev, size, n, live);
      ConfinedTrans(live, Base(heap), Limit(heap), m0, m1, mem[..]);
    }

    /** Serves the request `n` from block number k of the list. */
    method TakeBlock(current: nat, size: nat, ghost n: nat, ghost k: nat, ghost live: seq<Block>)
      returns (result: nat)
      requires Spared(heap, n, live)
      requires HeapStored() && Placed(mem[..], heap.blocks, Base(heap), Limit(heap))
      requires Limit(heap) <= WordAddr(mem.Length)
      requires k < |heap.blocks| && current == heap.blocks[k].addr
      requires 0 < n <= MAX_ALLOWED && size == Rounded(n) && FirstFit(heap.blocks, size) == k
      modifies this`heap, this`mallocTotalAllocated, mem
      ensures (heap, result) == HeapSpec.Malloc(old(heap), n)
      ensures Confined(live, Base(heap), Limit(heap), old(mem[..]), mem[..])
      ensures HeapStored() && heap.pool == old(heap.pool) && heap.taken == old(heap.taken)
    {
      ghost var h := heap;
      RoundedBounds(n);
      CarveAt(current, size, h.blocks, k, Base(h), Limit(h), live);
      WrapAdd(heap.totalAllocated, size);
      mallocTotalAllocated := (mallocTotalAllocated + size) % W64;
      heap := HeapSpec.Malloc(h, n).0;
      MallocInPlace(h, n, k);
      result := current + HEADER_SIZE;
    }

    // ---- free ----

    method Free(ptr: nat)
      requires Valid()
      requires ptr == 0 || !InRange(heap, ptr) || Listed(heap, ptr)
      modifies this`heap, this`mallocTotalFreed, mem
      ensures heap == HeapSpec.Free(old(heap), ptr)
      ensures Confined(old(heap.blocks), Base(heap), Limit(heap), old(mem[..]), mem[..])
      ensures KeptAt(pagesStruct, pages.Length * PAGE_STRUCT_SIZE, old(mem[..]), mem[..])
      ensures Valid()
    {
      FreeChecked(ptr);
      OutsideFrames(heap, pagesStruct, pages.Length * PAGE_STRUCT_SIZE, old(mem[..]), mem[..]);
    }

    method FreeChecked(ptr: nat)
      requires Valid()
      requires ptr == 0 || !InRange(heap, ptr) || Listed(heap, ptr)
      modifies this`heap, this`mallocTotalFreed, mem
      ensures heap == HeapSpec.Free(old(heap), ptr)
      ensures Confined(old(heap.blocks), Base(heap), Limit(heap), old(mem[..]), mem[..])
      ensures Valid()
    {
      ConfinedSame(heap.blocks, Base(heap), Limit(heap), mem[..]);
      if ptr == 0 {
        return;
      }
      var heapVirtStart := PhyToVirt(kernelHeapStart);
      var heapVirtEnd := PhyToVirt(kernelHeapEnd);
      if ptr < heapVirtStart || ptr >= heapVirtEnd {
        return;
      }
      var header := ptr - HEADER_SIZE;
      assert Stored(mem[..], heap.blocks, IndexOf(heap.blocks, ptr));
      if SizeAt(header) > PAGE_2M_SIZE {
        return;
      }
      ValidPlaced();
      FreeListed(header, ptr);
    }

    method FreeListed(header: nat, ghost ptr: nat)
      requires HeapStored() && Placed(mem[..], heap.blocks, Base(heap), Limit(heap))
      requires ptr != 0 && InRange(heap, ptr) && Listed(heap, ptr) && header + HEADER_SIZE == ptr
      requires heap.blocks[IndexOf(heap.blocks, ptr)].size <= PAGE_2M_SIZE
      modifies this`heap, this`mallocTotalFreed, mem
      ensures heap == HeapSpec.Free(old(heap), ptr)
      ensures Confined(old(heap.blocks), Base(heap), Limit(heap), old(mem[..]), mem[..])
      ensures HeapStored() && heap.pool == old(heap.pool) && heap.taken == old(heap.taken)
    {
      ghost var h, k := heap, IndexOf(heap.blocks, ptr);
      FreeParts(h, ptr);
      assert Stored(mem[..], h.blocks, k);
      WrapAdd(h.totalFreed, SizeAt(header));
      mallocTotalFreed := (mallocTotalFreed + SizeAt(header)) % W64;
      ReleaseAt(header, h.blocks, k, Base(h), Limit(h));
      heap := HeapSpec.Free(h, ptr);
    }

    /** Marks block number k free and runs the merging pass. */
    method ReleaseAt(header: nat, ghost bs: seq<Block>, ghost k: nat, ghost lo: nat, ghost hi: nat)
      requires Placed(mem[..], bs, lo, hi) && k < |bs| && header == bs[k].addr && mallocHead == HeadAddr(bs)
      modifies mem
      ensures Placed(mem[..], Release(bs, k), lo, hi)
      ensures Confined(bs, lo, hi, old(mem[..]), mem[..])
    {
      ghost var m0 := mem[..];
      assert Stored(m0, bs, k);
      SetFree(header, true, bs[k], NextAddr(bs, k));
      ghost var m1 := mem[..];
      ghost var b := bs[k].(free := true);
      OwnHeadersClear(bs, lo, hi);
      assert ClearOf(bs[k].addr, bs);
      ReplaceOne(m0, m1, bs, lo, hi, k, 1, b, bs);
      assert Replace(bs, k, 1, [b]) == bs[k := b];
      assert forall i :: 0 <= i < |bs| ==> bs[k := b][i].addr == bs[i].addr;
      MergePass(bs[k := b], lo, hi, bs);
      ConfinedTrans(bs, lo, hi, m0, m1, mem[..]);
    }

    /** The loop of free over the whole list. */
    method MergePass(ghost bs0: seq<Block>, ghost lo: nat, ghost hi: nat, ghost live: seq<Block>)
      requires Placed(mem[..], bs0, lo, hi) && bs0 != [] && mallocHead == bs0[0].addr
      requires HeadersClear(bs0, live)
      modifies mem
      ensures Placed(mem[..], Coalesce(bs0), lo, hi)
      ensures Confined(live, lo, hi, old(mem[..]), mem[..])
    {
      var current := mallocHead;
      ghost var bs, k := bs0, 0;
      assert Stored(mem[..], bs, 0);
      while current != 0 && NextAt(current) != 0
        invariant Placed(mem[..], bs, lo, hi) && k < |bs| && current == bs[k].addr
        invariant HeaderIn(mem[..], bs[k], NextAddr(bs, k))
        invariant Coalesce(bs0) == bs[..k] + Coalesce(bs[k..])
        invariant HeadersClear(bs, live) && Confined(live, lo, hi, old(mem[..]), mem[..])
        decreases |bs| - k
      {
        ghost var m := mem[..];
        NextNull(m, bs, k);
        assert Stored(m, bs, k + 1);
        if IsFreeAt(current) && IsFreeAt(NextAt(current)) {
          bs := MergeNext(current, bs, lo, hi, k, live);
          ConfinedTrans(live, lo, hi, old(mem[..]), m, mem[..]);
        } else {
          CoalesceSkip(bs, k);
          current := NextAt(current);
          k := k + 1;
        }
      }
      NextNull(mem[..], bs, k);
      CoalesceEnd(bs, k);
    }

    /** Merges block k with the free block behind it. */
    method MergeNext(current: nat, ghost bs: seq<Block>, ghost lo: nat, ghost hi: nat, ghost k: nat,
                     ghost live: seq<Block>)
      returns (ghost cs: seq<Block>)
      requires Placed(mem[..], bs, lo, hi) && k + 1 < |bs| && bs[k].free && bs[k + 1].free && current == bs[k].addr
      requires HeadersClear(bs, live)
      modifies mem
      ensures |cs| == |bs| - 1 && Placed(mem[..], cs, lo, hi)
      ensures cs[k].addr == bs[k].addr && HeaderIn(mem[..], cs[k], NextAddr(cs, k))
      ensures cs[..k] == bs[..k] && Coalesce(cs[k..]) == Coalesce(bs[k..])
      ensures HeadersClear(cs, live) && Confined(live, lo, hi, old(mem[..]), mem[..])
    {
      ghost var m := mem[..];
      assert Stored(m, bs, k) && Stored(m, bs, k + 1);
      TilesWithin(bs, lo, hi, k);
      TilesWithin(bs, lo, hi, k + 1);
      assert bs[k].End() == bs[k + 1].addr;
      var next := NextAt(current);
      var mergedSize := SizeAt(current) + HEADER_SIZE + SizeAt(next);
      SetSizeNext(current, mergedSize, NextAt(next), bs[k], NextAddr(bs, k));
      cs := MergedAt(m, mem[..], bs, lo, hi, k, live);
    }

    // One merge, seen from the list.
    lemma MergedAt(m: seq<Word>, m': seq<Word>, bs: seq<Block>, lo: nat, hi: nat, k: nat, live: seq<Block>)
      returns (cs: seq<Block>)
      requires Placed(m, bs, lo, hi) && k + 1 < |bs| && bs[k].free && bs[k + 1].free
      requires Wrote(m, m', Merge(bs[k], bs[k + 1]), NextAddr(bs, k + 1))
      requires HeadersClear(bs, live)
      ensures cs == Replace(bs, k, 2, [Merge(bs[k], bs[k + 1])])
      ensures Placed(m', cs, lo, hi) && cs[k].addr == bs[k].addr && HeaderIn(m', cs[k], NextAddr(cs, k))
      ensures cs[..k] == bs[..k] && Coalesce(cs[k..]) == Coalesce(bs[k..])
      ensures HeadersClear(cs, live) && Confined(live, lo, hi, m, m')
    {
      var c := Merge(bs[k], bs[k + 1]);
      cs := Replace(bs, k, 2, [c]);
      assert bs[k].End() == bs[k + 1].addr;
      assert ClearOf(bs[k].addr, live);
      ReplaceOne(m, m', bs, lo, hi, k, 2, c, live);
      assert Stored(m', cs, k);
      assert cs[k..] == [c] + bs[k..][2..];
      forall i | 0 <= i < |cs| ensures ClearOf(cs[i].addr, live) {
        assert cs[i].addr == bs[if i <= k then i else i + 1].addr;
      }
    }

    // ---- the client's own writes ----

    /** A client storing into the payload of a block it holds disturbs nothing of the heap. */
    method Store(i: nat, value: Word, ghost b: Block)
      requires Valid() && b in Used(heap.blocks) && i < mem.Length && InPayload(b, i)
      modifies mem
      ensures mem[..] == old(mem[..])[i := value]
      ensures Valid()
    {
      mem[i] := value;
      StoreKeepsHeaders(old(mem[..]), heap.blocks, Base(heap), Limit(heap), b, i, value);
    }

    /** The stores of code whose stack is `b`: they disturb nothing of a heap that has no header there. */
    method RunOn(ws: seq<Write>, ghost b: Block)
      requires WritesIn(ws, b, mem.Length) && !b.free
      modifies mem
      ensures mem[..] == Written(old(mem[..]), ws)
      ensures old(Valid()) && HeadersClear(heap.blocks, [b]) ==> Valid()
    {
      ghost var m := mem[..];
      for k := 0 to |ws|
        invariant Written(m, ws) == Written(mem[..], ws[k..])
      {
        assert ws[k..][1..] == ws[k + 1..];
        mem[ws[k].word] := ws[k].value;
      }
      if old(Valid()) && HeadersClear(heap.blocks, [b]) {
        WrittenBeside(m, ws, heap.blocks, b);
      }
    }

    // ---- initialisation ----

    /** init_page: two passes over the firmware's memory map. */
    method InitPage(entries: seq<E820>) returns (ghost placed: bool)
      requires |entries| <= MAX_ENTRIES
      requires PageListOk() && freeList == []
      requires kernelHeapStart == 0 && kernelHeapEnd == 0
      modifies this`pages, this`pagesStruct, this`freePagesList, this`totalFreePages, this`freeList,
               this`kernelHeapStart, this`kernelHeapEnd
      ensures placed <==> Placement(entries, CountFrames(entries)) < |entries|
      ensures Described(entries, placed)
    {
      var pageCount := CountPass(entries);
      var place := FindPlace(entries, pageCount);
      if place == |entries| {
        return false;
      }
      pagesStruct := PhyToVirt(entries[place].address);
      MakeList(entries, pageCount);
      if freePagesList != -1 {
        SetRange(entries);
      }
      placed := true;
    }

    // The zeroed descriptors, filled and linked.
    method MakeList(entries: seq<E820>, pageCount: nat)
      requires pageCount == CountFrames(entries) && PageListOk() && freeList == []
      modifies this`pages, this`freePagesList, this`totalFreePages, this`freeList
      ensures PageListOk() && pages.Length == CountFrames(entries) && Frames(PageState(), FrameList(entries))
      ensures freePagesList == -1 <==> FrameList(entries) == []
      ensures freePagesList != -1 ==>
                0 <= freePagesList < pages.Length && pages[freePagesList].phyAddr == FrameList(entries)[0]
    {
      pages := new Page[pageCount](_ => Page(0, 0, -1));
      CountMatchesFill(entries);
      FillPass(entries);
      ChainIsList(pages[..], FrameList(entries));
    }

    /** The map is described: by a free list of exactly its frames, a descriptor array at the start of the region
      * chosen for it, and the heap range; or by nothing at all. */
    ghost predicate Described(entries: seq<E820>, placed: bool)
      requires placed ==> Placement(entries, CountFrames(entries)) < |entries|
      reads this, pages
    {
      && PageListOk()
      && (!placed ==> freeList == [] && kernelHeapStart == 0 && kernelHeapEnd == 0)
      && (placed ==>
            && pagesStruct == PhyToVirt(entries[Placement(entries, CountFrames(entries))].address)
            && pages.Length == CountFrames(entries) && Frames(PageState(), FrameList(entries))
            && kernelHeapStart == LowEnd(FrameList(entries))
            && kernelHeapEnd == if FrameList(entries) == [] then 0 else HeapEnd(entries))
    }

    // The tail of init_page: the heap range is recorded even where the code then reports too little memory.
    method SetRange(entries: seq<E820>)
      requires FrameList(entries) != [] && 0 <= freePagesList < pages.Length
      requires pages[freePagesList].phyAddr == FrameList(entries)[0]
      modifies this`kernelHeapStart, this`kernelHeapEnd
      ensures kernelHeapStart == FrameList(entries)[0] && kernelHeapEnd == HeapEnd(entries)
    {
      var firstPage := pages[freePagesList].phyAddr;
      kernelHeapStart := firstPage;
      kernelHeapEnd := EndPass(entries);
      var heapSize := 128 * 1024 * 1024;
      if kernelHeapEnd < heapSize {
        heapSize := 64 * 1024 * 1024;
        if kernelHeapEnd < heapSize {
          return;
        }
      }
      FrameAligned(entries, 0);
      kernelHeapStart := AlignUp(kernelHeapStart);
    }

    // The frames of the map are RAM: every usable entry lies in the machine's memory.
    ghost predicate RamPresent(entries: seq<E820>) {
      forall i :: 0 <= i < |entries| && entries[i].Usable() ==> entries[i].End() <= 8 * mem.Length
    }

    /** From C's zero-initialised statics, init_page over a sorted map without overlaps whose frames are
      * consecutive and clear of the descriptors leaves a valid empty heap on top of all frames of the map. */
    method InitMemory(entries: seq<E820>)
      requires Pristine() && |entries| <= MAX_ENTRIES
      requires NoOverflow(entries) && SortedApart(entries) && Contiguous(FrameList(entries))
      requires RamPresent(entries) && PhyToVirt(8 * mem.Length) <= W64
      requires DescriptorsBelow(entries)
      modifies this
      ensures heap == BootHeap(entries)
      ensures Valid()
    {
      ghost var placed := InitPage(entries);
      assert mallocHead == 0 && mallocTotalAllocated == 0 && mallocTotalFreed == 0;
      BootReady(entries, placed);
      Adopt(BootHeap(entries));
    }

    // What init_page leaves fits the heap at boot.
    lemma BootReady(entries: seq<E820>, placed: bool)
      requires |entries| <= MAX_ENTRIES && NoOverflow(entries) && SortedApart(entries) && DescriptorsBelow(entries)
      requires Contiguous(FrameList(entries)) && RamPresent(entries) && PhyToVirt(8 * mem.Length) <= W64
      requires placed <==> Placement(entries, CountFrames(entries)) < |entries|
      requires Described(entries, placed)
      ensures ReadyFor(BootHeap(entries))
    {
      BootHeapOk(entries, 8 * mem.Length);
      BootFrames(entries, placed);
      if !placed {
        NothingUsable(entries);
      }
    }

    // An empty heap over the frames of the page list.
    ghost predicate ReadyFor(h: Heap)
      reads this, pages
    {
      && FramesOk(h.pool, 0) && HeapOk(h) && h.blocks == []
      && h.taken == 0 && h.totalAllocated == 0 && h.totalFreed == 0
      && kernelHeapStart == h.lo && kernelHeapEnd == h.hi
    }

    method Adopt(ghost h: Heap)
      requires ReadyFor(h) && mallocHead == 0 && mallocTotalAllocated == 0 && mallocTotalFreed == 0
      modifies this`heap
      ensures heap == h && Valid()
    {
      heap := h;
    }

    lemma BootFrames(entries: seq<E820>, placed: bool)
      requires |entries| <= MAX_ENTRIES && NoOverflow(entries) && SortedApart(entries) && DescriptorsBelow(entries)
      requires placed <==> Placement(entries, CountFrames(entries)) < |entries|
      requires Described(entries, placed) && FramesBelow(FrameList(entries), 8 * mem.Length)
      ensures FramesOk(FrameList(entries), 0)
    {
      assert FrameList(entries)[0..] == FrameList(entries);
      if placed {
        BelowIsClear(entries);
      } else {
        NothingUsable(entries);
      }
    }

    method CountPass(entries: seq<E820>) returns (pageCount: nat)
      ensures pageCount == CountFrames(entries)
    {
      pageCount := 0;
      for i := 0 to |entries|
        invariant pageCount == CountFrames(entries[..i])
      {
        assert entries[..i + 1][..i] == entries[..i];
        if !entries[i].Usable() {
          continue;
        }
        var start, end := AlignUp(entries[i].address), AlignDown(entries[i].End());
        if end <= start {
          continue;
        }
        pageCount := pageCount + (end - start) / PAGE_2M_SIZE;
      }
      assert entries[..|entries|] == entries;
    }

    method FindPlace(entries: seq<E820>, pageCount: nat) returns (k: nat)
      ensures k == Placement(entries, pageCount)
    {
      k := 0;
      while k < |entries|
        invariant k <= |entries|
        invariant forall i :: 0 <= i < k ==> !(entries[i].Usable() && entries[i].length >= pageCount * PAGE_STRUCT_SIZE)
      {
        if entries[k].Usable() && entries[k].length >= pageCount * PAGE_STRUCT_SIZE {
          return;
        }
        k := k + 1;
      }
    }

    method EndPass(entries: seq<E820>) returns (end: nat)
      ensures end == HeapEnd(entries)
    {
      end := 0;
      for i := 0 to |entries|
        invariant end == HeapEnd(entries[..i])
      {
        assert entries[..i + 1][..i] == entries[..i];
        if entries[i].Usable() {
          if entries[i].End() > end {
            end := entries[i].End();
          }
        }
      }
      assert entries[..|entries|] == entries;
    }

    /** The filling pass: one descriptor for each frame, each linked behind the one before. */
    method FillPass(entries: seq<E820>)
      requires freePagesList == -1 && totalFreePages == 0 && pages.Length == |FrameList(entries)|
      modifies this`freePagesList, this`totalFreePages, this`freeList, pages
      ensures FilledChain(pages[..], FrameList(entries)) && freeList == UpTo(|FrameList(entries)|)
      ensures freePagesList == LinkAt(freeList, 0) && totalFreePages == |freeList|
    {
      var current: int, pageIndex: nat := -1, 0;
      for i := 0 to |entries|
        invariant pageIndex == |FrameList(entries[..i])| == totalFreePages && current == pageIndex - 1
        invariant FilledChain(pages[..], FrameList(entries[..i]))
        invariant freePagesList == if pageIndex == 0 then -1 else 0
      {
        FrameListStep(entries, i);
        if !entries[i].Usable() {
          continue;
        }
        current, pageIndex := FillUsable(entries[i], current, pageIndex, FrameList(entries[..i]));
      }
      assert entries[..|entries|] == entries;
      freeList := UpTo(pageIndex);
    }

    method FillUsable(e: E820, current0: int, pageIndex0: nat, ghost done: seq<nat>)
      returns (current: int, pageIndex: nat)
      requires e.Usable() && pageIndex0 == |done| == totalFreePages && current0 == pageIndex0 - 1
      requires freePagesList == if pageIndex0 == 0 then -1 else 0
      requires pageIndex0 + |EntryFrames(e)| <= pages.Length && FilledChain(pages[..], done)
      modifies this`freePagesList, this`totalFreePages, pages
      ensures FilledChain(pages[..], done + EntryFrames(e))
      ensures pageIndex == |done + EntryFrames(e)| == totalFreePages && current == pageIndex - 1
      ensures freePagesList == if pageIndex == 0 then -1 else 0
    {
      var start, end := AlignUp(e.address), AlignDown(e.End());
      if end <= start {
        assert done + EntryFrames(e) == done;
        return current0, pageIndex0;
      }
      AlignedBounds(e.address, e.End());
      current, pageIndex := FillEntry(start, end, current0, pageIndex0, done);
    }

    // The loop over the frames of one usable entry.
    method FillEntry(start: nat, end: nat, current0: int, pageIndex0: nat, ghost done: seq<nat>)
      returns (current: int, pageIndex: nat)
      requires start < end && start % PAGE_2M_SIZE == 0 && end % PAGE_2M_SIZE == 0
      requires pageIndex0 == |done| == totalFreePages && current0 == pageIndex0 - 1
      requires freePagesList == if pageIndex0 == 0 then -1 else 0
      requires pageIndex0 + (end - start) / PAGE_2M_SIZE <= pages.Length
      requires FilledChain(pages[..], done)
      modifies this`freePagesList, this`totalFreePages, pages
      ensures FilledChain(pages[..], done + FramesFrom(start, (end - start) / PAGE_2M_SIZE))
      ensures pageIndex == pageIndex0 + (end - start) / PAGE_2M_SIZE == totalFreePages && current == pageIndex - 1
      ensures freePagesList == 0
    {
      current, pageIndex := current0, pageIndex0;
      var j := start;
      ghost var n := 0;
      while j < end
        invariant j == start + n * PAGE_2M_SIZE <= end && pageIndex == pageIndex0 + n == totalFreePages
        invariant current == pageIndex - 1 && freePagesList == if pageIndex == 0 then -1 else 0
        invariant FilledChain(pages[..], done + FramesFrom(start, n))
      {
        FrameStep(start, end, n);
        var page := pageIndex;
        pageIndex := pageIndex + 1;
        pages[page] := Page(j, 0, -1);
        if freePagesList == -1 {
          freePagesList := page;
        } else {
          pages[current] := pages[current].(next := page);
        }
        current := page;
        totalFreePages := totalFreePages + 1;
        assert done + FramesFrom(start, n + 1) == done + FramesFrom(start, n) + [j];
        n := n + 1;
        j := j + PAGE_2M_SIZE;
      }
      assert n == (end - start) / PAGE_2M_SIZE;
    }
  }

  // Descriptors below the frames of their region are clear of all frames.
  lemma BelowIsClear(entries: seq<E820>)
    requires NoOverflow(entries) && SortedApart(entries) && DescriptorsBelow(entries)
    requires Placement(entries, CountFrames(entries)) < |entries|
    ensures var at := PhyToVirt(entries[Placement(entries, CountFrames(entries))].address);
            ClearOfFrames(FrameList(entries), at, CountFrames(entries) * PAGE_STRUCT_SIZE)
  {
    var fs, k := FrameList(entries), Placement(entries, CountFrames(entries));
    var room := CountFrames(entries) * PAGE_STRUCT_SIZE;
    CountMatchesFill(entries);
    if CountFrames(entries) > 0 {
      DescriptorsClear(entries, k);
      ListClear(fs, entries[k].address, room);
    }
  }

  lemma ListClear(fs: seq<nat>, at: nat, room: nat)
    requires forall f :: f in fs ==> f + PAGE_2M_SIZE <= at || at + room <= f
    ensures ClearOfFrames(fs, PhyToVirt(at), room)
  {
    forall i | 0 <= i < |fs|
      ensures PhyToVirt(fs[i]) + PAGE_2M_SIZE <= PhyToVirt(at) || PhyToVirt(at) + room <= PhyToVirt(fs[i])
    {
      assert fs[i] in fs;
    }
  }
}
