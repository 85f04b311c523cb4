/** Which 2 MiB frames the firmware's E820 memory map yields, as functions on values. */
module PageMap {
  import opened Machine
  import opened HeapSpec
  import opened HeapGaps

  const MAX_ENTRIES: nat := 32
  const PAGE_STRUCT_SIZE: nat := 24

  datatype E820 = E820(address: Word, length: Word, kind: nat) {
    predicate Usable() { kind == 1 }

    // One past the last byte, in 64-bit arithmetic.
    function End(): nat { (address + length) % W64 }
  }

  // ---- as the code computes it, wrap-around included ----

  function AlignUp(a: nat): nat {
    (a + PAGE_2M_SIZE - 1) % W64 / PAGE_2M_SIZE * PAGE_2M_SIZE
  }

  function AlignDown(a: nat): nat {
    a / PAGE_2M_SIZE * PAGE_2M_SIZE
  }

  function EntryCount(e: E820): nat {
    if !e.Usable() || AlignDown(e.End()) <= AlignUp(e.address) then 0
    else (AlignDown(e.End()) - AlignUp(e.address)) / PAGE_2M_SIZE
  }

  function CountFrames(entries: seq<E820>): nat {
    if entries == [] then 0 else CountFrames(entries[..|entries| - 1]) + EntryCount(entries[|entries| - 1])
  }

  function FramesFrom(start: nat, n: nat): (fs: seq<nat>)
    ensures |fs| == n && forall i :: 0 <= i < n ==> fs[i] == start + i * PAGE_2M_SIZE
  {
    seq(n, i => start + i * PAGE_2M_SIZE)
  }

  function EntryFrames(e: E820): seq<nat> {
    FramesFrom(AlignUp(e.address), EntryCount(e))
  }

  /** The frames in the order the filling pass links them. */
  function FrameList(entries: seq<E820>): seq<nat> {
    if entries == [] then [] else FrameList(entries[..|entries| - 1]) + EntryFrames(entries[|entries| - 1])
  }

  /** The first usable entry long enough for the page descriptors, or |entries|. */
  function Placement(entries: seq<E820>, count: nat): (k: nat)
    ensures k <= |entries|
    ensures k < |entries| ==> entries[k].kind == 1 && entries[k].length >= count * 24
    ensures forall i :: 0 <= i < k ==> !(entries[i].kind == 1 && entries[i].length >= count * 24)
  {
    if entries == [] then 0
    else if entries[0].Usable() && entries[0].length >= count * PAGE_STRUCT_SIZE then 0
    else 1 + Placement(entries[1..], count)
  }

  /** The upper bound of the heap range: the largest end of a usable entry. */
  function HeapEnd(entries: seq<E820>): (hi: nat)
    ensures forall i :: 0 <= i < |entries| && entries[i].kind == 1 ==> entries[i].End() <= hi
    ensures hi == 0 || exists i :: 0 <= i < |entries| && entries[i].kind == 1 && entries[i].End() == hi
  {
    if entries == [] then 0
    else
      var e := entries[|entries| - 1];
      var hi := HeapEnd(entries[..|entries| - 1]);
      assert forall i :: 0 <= i < |entries| - 1 ==> entries[..|entries| - 1][i] == entries[i];
      if e.Usable() && e.End() > hi then e.End() else hi
  }

  // ---- what it means ----

  /** No end and no alignment of an entry leaves the 64-bit range. */
  ghost predicate NoOverflow(entries: seq<E820>) {
    forall i :: 0 <= i < |entries| ==>
      entries[i].address + entries[i].length < W64 && entries[i].address + PAGE_2M_SIZE <= W64
  }

  ghost predicate SortedApart(entries: seq<E820>) {
    forall i, j :: 0 <= i < j < |entries| ==> entries[i].address + entries[i].length <= entries[j].address
  }

  ghost predicate HoldsFrame(e: E820, f: nat) {
    e.kind == 1 && f % 0x20_0000 == 0 && e.address <= f && f + 0x20_0000 <= e.address + e.length
  }

  ghost predicate DisjointAscending(frames: seq<nat>) {
    forall i, j :: 0 <= i < j < |frames| ==> frames[i] + PAGE_2M_SIZE <= frames[j]
  }

  /** The counting pass and the filling pass agree: the descriptor array is exactly filled. */
  lemma {:induction false} CountMatchesFill(entries: seq<E820>)
    ensures |FrameList(entries)| == CountFrames(entries)
  {
    if entries != [] {
      CountMatchesFill(entries[..|entries| - 1]);
    }
  }

  lemma AlignUpLeast(a: nat, f: nat)
    requires a + PAGE_2M_SIZE <= W64
    ensures AlignUp(a) % PAGE_2M_SIZE == 0 && a <= AlignUp(a) < a + PAGE_2M_SIZE
    ensures f % PAGE_2M_SIZE == 0 && a <= f ==> AlignUp(a) <= f
  {
    var q := (a + PAGE_2M_SIZE - 1) / PAGE_2M_SIZE;
    assert f == PAGE_2M_SIZE * (f / PAGE_2M_SIZE) + f % PAGE_2M_SIZE;
  }

  // Frames between aligned bounds, by position.
  lemma FrameIndex(start: nat, end: nat, f: nat)
    requires start % PAGE_2M_SIZE == 0 && end % PAGE_2M_SIZE == 0 && f % PAGE_2M_SIZE == 0
    requires start <= f && f + PAGE_2M_SIZE <= end
    ensures var i := (f - start) / PAGE_2M_SIZE; i < (end - start) / PAGE_2M_SIZE && f == start + i * PAGE_2M_SIZE
  {
    var a, b, c := start / PAGE_2M_SIZE, end / PAGE_2M_SIZE, f / PAGE_2M_SIZE;
    assert start == a * PAGE_2M_SIZE && end == b * PAGE_2M_SIZE && f == c * PAGE_2M_SIZE;
    assert f - start == (c - a) * PAGE_2M_SIZE && end - start == (b - a) * PAGE_2M_SIZE;
  }

  lemma FrameAt(start: nat, end: nat, i: nat)
    requires start % PAGE_2M_SIZE == 0 && end % PAGE_2M_SIZE == 0
    requires start < end && i < (end - start) / PAGE_2M_SIZE
    ensures var f := start + i * PAGE_2M_SIZE; f % PAGE_2M_SIZE == 0 && f + PAGE_2M_SIZE <= end
  {
    var a, b := start / PAGE_2M_SIZE, end / PAGE_2M_SIZE;
    assert start == a * PAGE_2M_SIZE && end == b * PAGE_2M_SIZE;
    assert end - start == (b - a) * PAGE_2M_SIZE;
    assert start + i * PAGE_2M_SIZE == (a + i) * PAGE_2M_SIZE;
  }

  lemma AlignDownGreatest(e: nat, x: nat)
    ensures AlignDown(e) % PAGE_2M_SIZE == 0 && AlignDown(e) <= e
    ensures x % PAGE_2M_SIZE == 0 && x <= e ==> x <= AlignDown(e)
  {
    assert x == PAGE_2M_SIZE * (x / PAGE_2M_SIZE) + x % PAGE_2M_SIZE;
  }

  lemma EntryFramesExact(e: E820, f: nat)
    requires e.address + e.length < W64 && e.address + PAGE_2M_SIZE <= W64
    ensures f in EntryFrames(e) <==> HoldsFrame(e, f)
  {
    var start, end := AlignUp(e.address), AlignDown(e.End());
    HoldsInside(e, f);
    AlignUpLeast(e.address, 0);
    AlignDownGreatest(e.End(), 0);
    if HoldsFrame(e, f) {
      FrameIndex(start, end, f);
      assert EntryFrames(e)[(f - start) / PAGE_2M_SIZE] == f;
    }
    if f in EntryFrames(e) {
      var i :| 0 <= i < |EntryFrames(e)| && EntryFrames(e)[i] == f;
      FrameAt(start, end, i);
    }
  }

  // A frame of a usable entry lies between the aligned bounds.
  lemma HoldsInside(e: E820, f: nat)
    requires e.address + e.length < W64 && e.address + PAGE_2M_SIZE <= W64
    ensures HoldsFrame(e, f) <==>
            e.Usable() && f % PAGE_2M_SIZE == 0 && AlignUp(e.address) <= f && f + PAGE_2M_SIZE <= AlignDown(e.End())
  {
    AlignUpLeast(e.address, f);
    AlignDownGreatest(e.End(), f + PAGE_2M_SIZE);
    NextAligned(f);
  }

  lemma NextAligned(f: nat)
    ensures f % PAGE_2M_SIZE == 0 <==> (f + PAGE_2M_SIZE) % PAGE_2M_SIZE == 0
  {
  }

  /** The free list holds exactly the aligned frames that lie wholly inside a usable entry. */
  lemma {:induction false} FrameListExact(entries: seq<E820>, f: nat)
    requires NoOverflow(entries)
    ensures f in FrameList(entries) <==> exists i :: 0 <= i < |entries| && HoldsFrame(entries[i], f)
  {
    if entries != [] {
      var n := |entries| - 1;
      FrameListExact(entries[..n], f);
      EntryFramesExact(entries[n], f);
      assert f in FrameList(entries) <==> f in FrameList(entries[..n]) || f in EntryFrames(entries[n]);
      if i :| 0 <= i < |entries| && HoldsFrame(entries[i], f) {
        assert i < n ==> entries[..n][i] == entries[i];
      }
    }
  }

  /** Over a sorted map without overlaps the frames ascend and are pairwise disjoint. */
  lemma {:induction false} FramesDisjointAscending(entries: seq<E820>)
    requires NoOverflow(entries) && SortedApart(entries)
    ensures DisjointAscending(FrameList(entries))
  {
    if entries != [] {
      var n := |entries| - 1;
      var init := FrameList(entries[..n]);
      FramesDisjointAscending(entries[..n]);
      var fs := FrameList(entries);
      forall i, j | 0 <= i < j < |fs| ensures fs[i] + PAGE_2M_SIZE <= fs[j] {
        if i < |init| && |init| <= j {
          FrameListExact(entries[..n], fs[i]);
          EntryFramesExact(entries[n], fs[j]);
          assert fs[i] in init && fs[j] in EntryFrames(entries[n]);
        }
      }
    }
  }

  /** A single region with room for frames gives consecutive frames. */
  lemma {:induction false} OneRegionContiguous(entries: seq<E820>, k: nat)
    requires k < |entries| && forall i :: 0 <= i < |entries| && i != k ==> EntryCount(entries[i]) == 0
    ensures FrameList(entries) == EntryFrames(entries[k]) && Contiguous(FrameList(entries))
  {
    var n := |entries| - 1;
    if k < n {
      OneRegionContiguous(entries[..n], k);
    } else {
      NoFrames(entries[..n]);
    }
  }

  lemma {:induction false} NoFrames(entries: seq<E820>)
    requires forall i :: 0 <= i < |entries| ==> EntryCount(entries[i]) == 0
    ensures FrameList(entries) == []
  {
    if entries != [] {
      NoFrames(entries[..|entries| - 1]);
    }
  }

  /** Every frame of the list lies in the range that `free` accepts. */
  lemma FramesInHeapRange(entries: seq<E820>)
    requires NoOverflow(entries) && SortedApart(entries) && PhyToVirt(HeapEnd(entries)) <= W64
    ensures var fs := FrameList(entries);
            fs != [] ==> PoolOk(fs, fs[0], HeapEnd(entries)) && Ascending(fs)
  {
    var fs := FrameList(entries);
    FramesDisjointAscending(entries);
    forall i | 0 <= i < |fs|
      ensures fs[i] % PAGE_2M_SIZE == 0 && fs[0] <= fs[i] && fs[i] + PAGE_2M_SIZE <= HeapEnd(entries)
    {
      FrameListExact(entries, fs[i]);
    }
  }

  // ---- room for the descriptors ----

  lemma {:induction false} CountBound(entries: seq<E820>, most: nat)
    requires forall i :: 0 <= i < |entries| ==> EntryCount(entries[i]) <= most
    ensures CountFrames(entries) <= |entries| * most
  {
    if entries != [] {
      CountBound(entries[..|entries| - 1], most);
      assert |entries| * most == (|entries| - 1) * most + most;
    }
  }

  function Largest(entries: seq<E820>): (k: nat)
    requires entries != []
    ensures k < |entries| && forall i :: 0 <= i < |entries| ==> EntryCount(entries[i]) <= EntryCount(entries[k])
  {
    if |entries| == 1 then 0
    else
      var n := |entries| - 1;
      var k := Largest(entries[..n]);
      assert forall i :: 0 <= i < n ==> entries[..n][i] == entries[i];
      if EntryCount(entries[n]) > EntryCount(entries[k]) then n else k
  }

  lemma EntryRoom(e: E820)
    requires e.address + e.length < W64 && e.address + PAGE_2M_SIZE <= W64
    ensures EntryCount(e) * PAGE_2M_SIZE <= e.length
    ensures EntryCount(e) > 0 ==> e.Usable()
  {
    AlignUpLeast(e.address, 0);
  }

  lemma DescriptorsFit(n: nat, most: nat, count: nat)
    requires n <= MAX_ENTRIES && count <= n * most
    ensures count * PAGE_STRUCT_SIZE <= most * PAGE_2M_SIZE
  {
    assert n * most <= MAX_ENTRIES * most;
  }

  // The entry with the most frames is long enough for all descriptors.
  lemma LargestHasRoom(entries: seq<E820>)
    requires NoOverflow(entries) && 0 < |entries| <= MAX_ENTRIES
    ensures var e := entries[Largest(entries)];
            && CountFrames(entries) * PAGE_STRUCT_SIZE <= e.length
            && (CountFrames(entries) > 0 ==> e.Usable())
  {
    var e := entries[Largest(entries)];
    CountBound(entries, EntryCount(e));
    DescriptorsFit(|entries|, EntryCount(e), CountFrames(entries));
    EntryRoom(e);
  }

  /** On a map of at most 32 entries the descriptors find a place exactly when some entry is usable. */
  lemma PlacementFound(entries: seq<E820>)
    requires NoOverflow(entries) && |entries| <= MAX_ENTRIES
    ensures Placement(entries, CountFrames(entries)) < |entries| <==>
            exists i :: 0 <= i < |entries| && entries[i].Usable()
  {
    if i :| 0 <= i < |entries| && entries[i].Usable() {
      LargestHasRoom(entries);
      var j := if CountFrames(entries) == 0 then i else Largest(entries);
      assert entries[j].Usable() && entries[j].length >= CountFrames(entries) * PAGE_STRUCT_SIZE;
    }
  }

  /** The descriptors end at or below the first frame of the region they are placed in, if it has one. */
  ghost predicate DescriptorsBelow(entries: seq<E820>) {
    var count := CountFrames(entries);
    var k := Placement(entries, count);
    k < |entries| && count > 0 ==>
      EntryCount(entries[k]) == 0 ||
      entries[k].address + count * PAGE_STRUCT_SIZE <= AlignUp(entries[k].address)
  }

  /** The descriptors are placed at the start of their region and are not reserved: they stay clear of every
    * frame exactly when they end at or below the first frame of that region, if it has one. */
  lemma DescriptorsClear(entries: seq<E820>, k: nat)
    requires NoOverflow(entries) && SortedApart(entries)
    requires k < |entries| && k == Placement(entries, CountFrames(entries)) && CountFrames(entries) > 0
    ensures var room := CountFrames(entries) * PAGE_STRUCT_SIZE;
            (forall f :: f in FrameList(entries) ==>
               f + PAGE_2M_SIZE <= entries[k].address || entries[k].address + room <= f)
            <==> DescriptorsBelow(entries)
  {
    var e := entries[k];
    var room := CountFrames(entries) * PAGE_STRUCT_SIZE;
    var first := AlignUp(e.address);
    AlignUpLeast(e.address, 0);
    if EntryCount(e) > 0 {
      assert EntryFrames(e)[0] == first;
      EntryFramesExact(e, first);
      FrameListExact(entries, first);
    }
    forall f | f in FrameList(entries)
      ensures f + PAGE_2M_SIZE <= e.address || (first <= f && EntryCount(e) > 0) || e.address + room <= f
    {
      FrameListExact(entries, f);
      var i :| 0 <= i < |entries| && HoldsFrame(entries[i], f);
      if i == k {
        EntryFramesExact(e, f);
        AlignUpLeast(e.address, f);
      }
    }
  }

  /** A map whose descriptors lie inside the first frame, which the first alloc_page zeroes. */
  const OVERLAPPING: seq<E820> := [E820(0x20_0000, 0x80_0000, 1)]

  lemma DescriptorsOverlap()
    ensures NoOverflow(OVERLAPPING) && SortedApart(OVERLAPPING)
    ensures Contiguous(FrameList(OVERLAPPING)) && CountFrames(OVERLAPPING) == 4
    ensures Placement(OVERLAPPING, 4) == 0 && !DescriptorsBelow(OVERLAPPING)
    ensures var at := OVERLAPPING[0].address;
            var first := FrameList(OVERLAPPING)[0];
            first <= at && at + 4 * PAGE_STRUCT_SIZE <= first + PAGE_2M_SIZE
  {
    var e := OVERLAPPING[0];
    assert OVERLAPPING[..0] == [];
    assert AlignUp(e.address) == 0x20_0000 && AlignDown(e.End()) == 0xA0_0000;
    assert EntryCount(e) == 4;
    assert CountFrames([]) == 0 && FrameList([]) == [];
    assert FrameList(OVERLAPPING) == EntryFrames(e);
  }

  // ---- the heap at boot ----

  function LowEnd(frames: seq<nat>): nat {
    if frames == [] then 0 else frames[0]
  }

  function BootHeap(entries: seq<E820>): Heap {
    var fs := FrameList(entries);
    Heap([], fs, 0, LowEnd(fs), if fs == [] then 0 else HeapEnd(entries), 0, 0)
  }

  /** It is empty, over the frames of the map, from the first of them up to the largest end of a usable entry. */
  lemma BootHeapIs(entries: seq<E820>)
    ensures var h := BootHeap(entries);
            && h.pool == FrameList(entries) && h.blocks == [] && h.taken == h.totalAllocated == h.totalFreed == 0
            && (h.pool != [] ==> h.lo == h.pool[0] && h.hi == HeapEnd(entries)) && (h.pool == [] ==> h.lo == h.hi == 0)
  {
  }

  /** No frame is lost for want of room for the descriptors. */
  lemma NothingUsable(entries: seq<E820>)
    requires NoOverflow(entries) && |entries| <= MAX_ENTRIES
    requires Placement(entries, CountFrames(entries)) == |entries|
    ensures FrameList(entries) == []
  {
    PlacementFound(entries);
    NoFrames(entries);
  }

  lemma HeapEndBound(entries: seq<E820>, limit: nat)
    requires forall i :: 0 <= i < |entries| && entries[i].Usable() ==> entries[i].End() <= limit
    ensures HeapEnd(entries) <= limit
  {
  }

  ghost predicate FramesBelow(frames: seq<nat>, limit: nat) {
    forall i :: 0 <= i < |frames| ==> frames[i] + PAGE_2M_SIZE <= limit
  }

  /** The heap init_page leaves behind is well formed and lies in memory that ends at `limit`. */
  lemma BootHeapOk(entries: seq<E820>, limit: nat)
    requires NoOverflow(entries) && SortedApart(entries) && Contiguous(FrameList(entries))
    requires forall i :: 0 <= i < |entries| && entries[i].Usable() ==> entries[i].End() <= limit
    requires PhyToVirt(limit) <= W64
    ensures HeapOk(BootHeap(entries))
    ensures FramesBelow(FrameList(entries), limit)
  {
    var fs := FrameList(entries);
    HeapEndBound(entries, limit);
    FramesInHeapRange(entries);
    EmptyHeapOk(BootHeap(entries));
    if fs != [] {
      PoolBelow(fs, fs[0], HeapEnd(entries), limit);
    }
  }

  lemma EmptyHeapOk(h: Heap)
    requires h.blocks == [] && h.taken == 0 && PoolOk(h.pool, h.lo, h.hi) && Contiguous(h.pool)
    ensures HeapOk(h)
  {
  }

  lemma PoolBelow(frames: seq<nat>, lo: nat, hi: nat, limit: nat)
    requires PoolOk(frames, lo, hi) && hi <= limit
    ensures FramesBelow(frames, limit)
  {
  }
}
