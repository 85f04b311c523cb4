/** How much room freeing a block makes: it takes in the free blocks on either side of it, and those only. */
module HeapRoom {
  import opened HeapSpec
  import opened HeapLaws

  // A run of free blocks merged into one.
  function MergeAll(fs: seq<Block>): Block
    requires fs != []
    decreases |fs|
  {
    if |fs| == 1 then fs[0] else MergeAll([Merge(fs[0], fs[1])] + fs[2..])
  }

  lemma {:induction false} CoalesceFixed(bs: seq<Block>)
    requires NoFreeNeighbours(bs)
    ensures Coalesce(bs) == bs
  {
    if |bs| > 1 {
      assert !(bs[0].free && bs[0 + 1].free);
      NoFreeNeighboursTail(bs);
      CoalesceFixed(bs[1..]);
    }
  }

  lemma {:induction false} CoalesceRun(fs: seq<Block>, tail: seq<Block>)
    requires fs != [] && forall i :: 0 <= i < |fs| ==> fs[i].free
    requires NoFreeNeighbours(tail) && (tail != [] ==> !tail[0].free)
    ensures Coalesce(fs + tail) == [MergeAll(fs)] + tail
    decreases |fs|
  {
    var bs := fs + tail;
    if |fs| == 1 {
      CoalesceFixed(tail);
      assert bs[1..] == tail;
    } else {
      var m := [Merge(fs[0], fs[1])] + fs[2..];
      CoalesceRun(m, tail);
      assert [Merge(bs[0], bs[1])] + bs[2..] == m + tail;
    }
  }

  // The blocks that freeing block k merges: itself and its free neighbours.
  function First(bs: seq<Block>, k: nat): nat
    requires k < |bs|
  {
    if k > 0 && bs[k - 1].free then k - 1 else k
  }

  function Last(bs: seq<Block>, k: nat): nat
    requires k < |bs|
  {
    if k + 1 < |bs| && bs[k + 1].free then k + 1 else k
  }

  /** The size of the block that freeing block k leaves: with a header for each neighbour it takes in. */
  function RoomAt(bs: seq<Block>, k: nat): nat
    requires k < |bs|
  {
    var below := if First(bs, k) < k then bs[k - 1].size + HEADER_SIZE else 0;
    var above := if Last(bs, k) > k then bs[k + 1].size + HEADER_SIZE else 0;
    below + bs[k].size + above
  }

  lemma MergedSize(bs: seq<Block>, k: nat)
    requires k < |bs|
    ensures var fs := bs[k := bs[k].(free := true)][First(bs, k)..Last(bs, k) + 1];
            && fs != [] && (forall i :: 0 <= i < |fs| ==> fs[i].free)
            && MergeAll(fs).size == RoomAt(bs, k) && MergeAll(fs).free && MergeAll(fs).addr == bs[First(bs, k)].addr
  {
    var b := bs[k].(free := true);
    var fs := bs[k := b][First(bs, k)..Last(bs, k) + 1];
    var below, above := First(bs, k) < k, Last(bs, k) > k;
    if below && above {
      var m := Merge(bs[k - 1], b);
      assert fs == [bs[k - 1], b, bs[k + 1]];
      assert [Merge(fs[0], fs[1])] + fs[2..] == [m, bs[k + 1]];
      assert MergeAll([m, bs[k + 1]]) == Merge(m, bs[k + 1]);
    } else if below {
      assert fs == [bs[k - 1], b];
    } else if above {
      assert fs == [b, bs[k + 1]];
    } else {
      assert fs == [b];
    }
  }

  /** Freeing a block in use of a list without free neighbours replaces it and its free neighbours by one block. */
  lemma ReleaseMerges(bs: seq<Block>, k: nat) returns (m: Block)
    requires NoFreeNeighbours(bs) && k < |bs| && !bs[k].free
    ensures m.free && m.size == RoomAt(bs, k) && m.addr == bs[First(bs, k)].addr
    ensures Release(bs, k) == bs[..First(bs, k)] + ([m] + bs[Last(bs, k) + 1..])
  {
    var cs := bs[k := bs[k].(free := true)];
    var p, q := First(bs, k), Last(bs, k) + 1;
    var fs := cs[p..q];
    MergedSize(bs, k);
    SidesKept(bs, k);
    CoalesceMiddle(bs[..p], fs, bs[q..]);
    assert cs == bs[..p] + (fs + bs[q..]);
    m := MergeAll(fs);
  }

  lemma CoalesceMiddle(pre: seq<Block>, fs: seq<Block>, tail: seq<Block>)
    requires NoFreeNeighbours(pre) && (pre != [] ==> !pre[|pre| - 1].free)
    requires fs != [] && forall i :: 0 <= i < |fs| ==> fs[i].free
    requires NoFreeNeighbours(tail) && (tail != [] ==> !tail[0].free)
    ensures Coalesce(pre + (fs + tail)) == pre + ([MergeAll(fs)] + tail)
  {
    CoalesceSkips(pre, fs + tail);
    CoalesceRun(fs, tail);
  }

  lemma SidesKept(bs: seq<Block>, k: nat)
    requires NoFreeNeighbours(bs) && k < |bs| && !bs[k].free
    ensures var p, q := First(bs, k), Last(bs, k) + 1;
            && NoFreeNeighbours(bs[..p]) && (p > 0 ==> !bs[p - 1].free)
            && NoFreeNeighbours(bs[q..]) && (q < |bs| ==> !bs[q].free)
  {
    var p, q := First(bs, k), Last(bs, k) + 1;
    if 0 < p < k {
      assert bs[p - 1 + 1].free ==> !bs[p - 1].free;
    }
    if k + 1 < q < |bs| {
      assert bs[q - 1].free ==> !bs[q - 1 + 1].free;
    }
    forall i | 0 <= i < |bs[q..]| - 1 ensures !(bs[q..][i].free && bs[q..][i + 1].free) {
      assert bs[q + i].free ==> !bs[q + i + 1].free;
    }
    forall i | 0 <= i < |bs[..p]| - 1 ensures !(bs[..p][i].free && bs[..p][i + 1].free) {
      assert bs[i].free ==> !bs[i + 1].free;
    }
  }

  predicate Room(bs: seq<Block>, r: nat) {
    exists i :: 0 <= i < |bs| && Fits(bs[i], r)
  }

  /** After freeing block k the list has room for r bytes if and only if it had it before, or the freed block and its
    * free neighbours make it. */
  lemma RoomAfterRelease(bs: seq<Block>, k: nat, r: nat)
    requires NoFreeNeighbours(bs) && k < |bs| && !bs[k].free
    ensures Room(Release(bs, k), r) <==> Room(bs, r) || RoomAt(bs, k) >= r + HEADER_SIZE
  {
    var p, q := First(bs, k), Last(bs, k) + 1;
    var m := ReleaseMerges(bs, k);
    RoomSplit(bs[..p], [m], bs[q..], r);
    RoomSplit(bs[..p], bs[p..q], bs[q..], r);
    ThreeParts(bs, p, q);
    MiddleRoom(bs, k, r);
    assert Room([m], r) <==> Fits([m][0], r);
  }

  lemma ThreeParts(bs: seq<Block>, p: nat, q: nat)
    requires p <= q <= |bs|
    ensures bs == bs[..p] + (bs[p..q] + bs[q..])
  {
  }

  lemma RoomSplit(a: seq<Block>, b: seq<Block>, c: seq<Block>, r: nat)
    ensures Room(a + (b + c), r) <==> Room(a, r) || Room(b, r) || Room(c, r)
  {
    var all := a + (b + c);
    if i :| 0 <= i < |a| && Fits(a[i], r) {
      assert Fits(all[i], r);
    }
    if i :| 0 <= i < |b| && Fits(b[i], r) {
      assert Fits(all[|a| + i], r);
    }
    if i :| 0 <= i < |c| && Fits(c[i], r) {
      assert Fits(all[|a| + |b| + i], r);
    }
    if i :| 0 <= i < |all| && Fits(all[i], r) {
      if i < |a| {
        assert Fits(a[i], r);
      } else if i < |a| + |b| {
        assert Fits(b[i - |a|], r);
      } else {
        assert Fits(c[i - |a| - |b|], r);
      }
    }
  }

  // A free neighbour with room leaves at least as much once it is merged.
  lemma MiddleRoom(bs: seq<Block>, k: nat, r: nat)
    requires k < |bs| && !bs[k].free
    ensures Room(bs[First(bs, k)..Last(bs, k) + 1], r) ==> RoomAt(bs, k) >= r + HEADER_SIZE
  {
    var mid := bs[First(bs, k)..Last(bs, k) + 1];
    if i :| 0 <= i < |mid| && Fits(mid[i], r) {
      assert mid[i] == bs[First(bs, k) + i];
    }
  }
}
