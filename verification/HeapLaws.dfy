/** Laws of single heap operations: what malloc and free keep, what one undoes of the other, and the
  * canonical form that makes the order of frees irrelevant. */
module HeapLaws {
  import opened HeapSpec

  // ---- tilings ----

  lemma {:induction false} TilesOrdered(bs: seq<Block>, lo: nat, hi: nat, i: nat, j: nat)
    requires Tiles(bs, lo, hi)
    requires i < j < |bs|
    ensures lo <= bs[i].addr && bs[i].End() <= bs[j].addr && bs[j].End() <= hi
    decreases j - i
  {
    TilesWithin(bs, lo, hi, i);
    TilesWithin(bs, lo, hi, j);
    if i + 1 < j {
      TilesOrdered(bs, lo, hi, i, j - 1);
    }
  }

  lemma {:induction false} TilesWithin(bs: seq<Block>, lo: nat, hi: nat, i: nat)
    requires Tiles(bs, lo, hi)
    requires i < |bs|
    ensures lo <= bs[i].addr && bs[i].End() <= hi
  {
    TilesAbove(bs, lo, hi, i);
    TilesBelow(bs, lo, hi, i);
  }

  lemma {:induction false} TilesAbove(bs: seq<Block>, lo: nat, hi: nat, i: nat)
    requires Tiles(bs, lo, hi)
    requires i < |bs|
    ensures lo <= bs[i].addr
  {
    if i > 0 {
      TilesAbove(bs, lo, hi, i - 1);
      assert bs[i - 1].End() == bs[i - 1 + 1].addr;
    }
  }

  lemma {:induction false} TilesBelow(bs: seq<Block>, lo: nat, hi: nat, i: nat)
    requires Tiles(bs, lo, hi)
    requires i < |bs|
    ensures bs[i].End() <= hi
    decreases |bs| - i
  {
    if i + 1 < |bs| {
      TilesBelow(bs, lo, hi, i + 1);
    }
  }

  // The same facts with the indices quantified.
  lemma Ordered(bs: seq<Block>, lo: nat, hi: nat)
    requires Tiles(bs, lo, hi)
    ensures forall i, j :: 0 <= i < j < |bs| ==> bs[i].End() <= bs[j].addr
    ensures forall i :: 0 <= i < |bs| ==> lo <= bs[i].addr && bs[i].End() <= hi
    ensures lo <= hi
  {
    forall i, j | 0 <= i < j < |bs| ensures bs[i].End() <= bs[j].addr {
      TilesOrdered(bs, lo, hi, i, j);
    }
    forall i | 0 <= i < |bs| ensures lo <= bs[i].addr && bs[i].End() <= hi {
      TilesWithin(bs, lo, hi, i);
    }
    if bs != [] {
      TilesWithin(bs, lo, hi, 0);
    }
  }

  lemma TilesReplace(bs: seq<Block>, lo: nat, hi: nat, k: nat, width: nat, cs: seq<Block>)
    requires Tiles(bs, lo, hi)
    requires 1 <= width && k + width <= |bs|
    requires cs != [] && Tiles(cs, bs[k].addr, bs[k + width - 1].End())
    ensures Tiles(Replace(bs, k, width, cs), lo, hi)
  {
    var rs := Replace(bs, k, width, cs);
    forall i | 0 <= i < |rs| - 1 ensures rs[i].End() == rs[i + 1].addr {
      if i < k - 1 {
        assert rs[i] == bs[i] && rs[i + 1] == bs[i + 1];
      } else if i == k - 1 {
        assert rs[i] == bs[i] && rs[i + 1] == cs[0];
      } else if i < k + |cs| - 1 {
        assert rs[i] == cs[i - k] && rs[i + 1] == cs[i - k + 1];
      } else if i == k + |cs| - 1 {
        assert rs[i] == cs[|cs| - 1] && rs[i + 1] == bs[k + width];
      } else {
        assert rs[i] == bs[i - |cs| + width] && rs[i + 1] == bs[i + 1 - |cs| + width];
      }
    }
  }

  lemma TilesAppend(bs: seq<Block>, cs: seq<Block>, lo: nat, mid: nat, hi: nat)
    requires Tiles(bs, lo, mid) && Tiles(cs, mid, hi)
    ensures Tiles(bs + cs, lo, hi)
  {
    if bs == [] {
      assert bs + cs == cs;
    } else if cs == [] {
      assert bs + cs == bs;
    } else {
      var rs := bs + cs;
      forall i | 0 <= i < |rs| - 1 ensures rs[i].End() == rs[i + 1].addr {
        if i == |bs| - 1 {
          assert rs[i] == bs[|bs| - 1] && rs[i + 1] == cs[0];
        } else if i >= |bs| {
          assert rs[i] == cs[i - |bs|] && rs[i + 1] == cs[i - |bs| + 1];
        }
      }
    }
  }

  lemma UsedAppend(bs: seq<Block>, cs: seq<Block>)
    ensures Used(bs + cs) == Used(bs) + Used(cs)
  {
  }

  lemma UsedReplace(bs: seq<Block>, k: nat, width: nat, cs: seq<Block>)
    requires k + width <= |bs|
    ensures Used(Replace(bs, k, width, cs)) == Used(bs[..k]) + Used(cs) + Used(bs[k + width..])
  {
  }

  // ---- coalescing ----

  lemma TilesTail(bs: seq<Block>, lo: nat, hi: nat)
    requires Tiles(bs, lo, hi) && bs != []
    ensures Tiles(bs[1..], bs[0].End(), hi)
  {
    var rest := bs[1..];
    if rest != [] {
      assert bs[0].End() == bs[0 + 1].addr;
      forall i | 0 <= i < |rest| - 1 ensures rest[i].End() == rest[i + 1].addr {
        assert rest[i] == bs[i + 1];
      }
    }
  }

  lemma NoFreeNeighboursTail(bs: seq<Block>)
    requires NoFreeNeighbours(bs) && bs != []
    ensures NoFreeNeighbours(bs[1..])
  {
    var rest := bs[1..];
    forall i | 0 <= i < |rest| - 1 ensures !(rest[i].free && rest[i + 1].free) {
      assert rest[i] == bs[i + 1];
    }
  }

  lemma UsedCons(b: Block, rest: seq<Block>)
    ensures Used([b] + rest) == (if b.free then {} else {b}) + Used(rest)
  {
    UsedAppend([b], rest);
  }

  lemma {:induction false} CoalesceHead(bs: seq<Block>)
    requires bs != []
    ensures Coalesce(bs) != [] && Coalesce(bs)[0].addr == bs[0].addr
    ensures !bs[0].free ==> Coalesce(bs)[0] == bs[0]
    decreases |bs|
  {
    if |bs| > 1 && bs[0].free && bs[1].free {
      CoalesceHead([Merge(bs[0], bs[1])] + bs[2..]);
    }
  }

  lemma MergeOk(a: Block, b: Block)
    requires BlockOk(a) && BlockOk(b)
    ensures BlockOk(Merge(a, b))
  {
    assert (a.size + HEADER_SIZE + b.size) % 8 == 0;
  }

  // The pass moving on from block k, and stopping at the last block.
  lemma CoalesceSkip(bs: seq<Block>, k: nat)
    requires k + 1 < |bs| && !(bs[k].free && bs[k + 1].free)
    ensures bs[..k] + Coalesce(bs[k..]) == bs[..k + 1] + Coalesce(bs[k + 1..])
  {
    assert bs[k..][1..] == bs[k + 1..];
    assert bs[..k] + [bs[k]] == bs[..k + 1];
  }

  lemma CoalesceEnd(bs: seq<Block>, k: nat)
    requires k + 1 == |bs|
    ensures bs[..k] + Coalesce(bs[k..]) == bs
  {
    assert bs == bs[..k] + bs[k..];
  }

  // Merging the first two blocks of a tiling, both free.
  lemma MergeStep(bs: seq<Block>, lo: nat, hi: nat)
    requires Tiles(bs, lo, hi)
    requires |bs| > 1 && bs[0].free && bs[1].free
    ensures Tiles([Merge(bs[0], bs[1])] + bs[2..], lo, hi)
    ensures Used([Merge(bs[0], bs[1])] + bs[2..]) == Used(bs)
  {
    var m := Merge(bs[0], bs[1]);
    TilesTail(bs, lo, hi);
    TilesTail(bs[1..], bs[0].End(), hi);
    assert bs[1..][1..] == bs[2..];
    assert m.End() == bs[1].End() by {
      assert bs[0].End() == bs[0 + 1].addr;
    }
    TilesAppend([m], bs[2..], lo, m.End(), hi);
    assert bs == [bs[0]] + ([bs[1]] + bs[2..]);
    UsedCons(bs[0], [bs[1]] + bs[2..]);
    UsedCons(bs[1], bs[2..]);
    UsedCons(m, bs[2..]);
  }

  // A full, alternating prefix is left as it is by the coalescing pass.
  lemma {:induction false} CoalesceSkips(bs: seq<Block>, cs: seq<Block>)
    requires NoFreeNeighbours(bs) && (bs != [] ==> !bs[|bs| - 1].free)
    ensures Coalesce(bs + cs) == bs + Coalesce(cs)
    decreases |bs|
  {
    if bs == [] {
      assert bs + cs == cs;
    } else {
      var all := bs + cs;
      if |bs| > 1 {
        assert !(bs[0].free && bs[0 + 1].free);
      }
      if |all| > 1 {
        assert Coalesce(all) == [all[0]] + Coalesce(all[1..]);
      }
      NoFreeNeighboursTail(bs);
      CoalesceSkips(bs[1..], cs);
      assert all[1..] == bs[1..] + cs;
      assert [bs[0]] + (bs[1..] + Coalesce(cs)) == bs + Coalesce(cs);
    }
  }

  /** The pass keeps the tiling and every block in use, and leaves no two free neighbours. */
  lemma {:induction false} CoalesceLaws(bs: seq<Block>, lo: nat, hi: nat)
    requires Tiles(bs, lo, hi) && BlocksOk(bs)
    ensures Tiles(Coalesce(bs), lo, hi) && BlocksOk(Coalesce(bs))
    ensures NoFreeNeighbours(Coalesce(bs))
    ensures Used(Coalesce(bs)) == Used(bs)
    decreases |bs|
  {
    if |bs| <= 1 {
    } else if bs[0].free && bs[1].free {
      MergeStep(bs, lo, hi);
      MergeOk(bs[0], bs[1]);
      CoalesceLaws([Merge(bs[0], bs[1])] + bs[2..], lo, hi);
    } else {
      var rest := bs[1..];
      assert bs == [bs[0]] + rest;
      TilesTail(bs, lo, hi);
      CoalesceLaws(rest, bs[0].End(), hi);
      KeepHead(bs[0], rest, Coalesce(rest), lo, hi);
    }
  }

  // Putting a block in front of the coalesced rest of the list.
  lemma KeepHead(b: Block, rest: seq<Block>, cs: seq<Block>, lo: nat, hi: nat)
    requires rest != [] && cs == Coalesce(rest) && !(b.free && rest[0].free)
    requires b.addr == lo && Tiles(cs, b.End(), hi)
    requires NoFreeNeighbours(cs)
    requires Used(cs) == Used(rest)
    ensures Tiles([b] + cs, lo, hi) && NoFreeNeighbours([b] + cs)
    ensures Used([b] + cs) == Used([b] + rest)
  {
    CoalesceHead(rest);
    TilesAppend([b], cs, lo, b.End(), hi);
    UsedCons(b, rest);
    UsedCons(b, cs);
    var rs := [b] + cs;
    forall i | 0 <= i < |rs| - 1 ensures !(rs[i].free && rs[i + 1].free) {
      if i > 0 {
        assert rs[i] == cs[i - 1] && rs[i + 1] == cs[i - 1 + 1];
      }
    }
  }

  // ---- canonical form ----

  // In a tiling, the blocks in use after the first are those that are not the first.
  lemma UsedTail(bs: seq<Block>, lo: nat, hi: nat)
    requires Tiles(bs, lo, hi) && bs != []
    ensures Used(bs[1..]) == Used(bs) - {bs[0]}
  {
    Ordered(bs, lo, hi);
    var rest := bs[1..];
    assert bs == [bs[0]] + rest;
    UsedAppend([bs[0]], rest);
    assert bs[0] !in rest;
  }

  // A free first block ends no later than any block in use does not start.
  lemma FreeHeadEndsBeforeUsed(bs: seq<Block>, lo: nat, hi: nat, u: Block)
    requires Tiles(bs, lo, hi) && bs != [] && bs[0].free
    requires u in Used(bs)
    ensures bs[0].End() <= u.addr
  {
    var j :| 0 <= j < |bs| && bs[j] == u;
    Ordered(bs, lo, hi);
  }

  /** A tiling without free neighbours is determined by its extent and its blocks in use. */
  lemma {:induction false} CanonicalForm(bs: seq<Block>, cs: seq<Block>, lo: nat, hi: nat)
    requires Tiles(bs, lo, hi) && Tiles(cs, lo, hi)
    requires NoFreeNeighbours(bs) && NoFreeNeighbours(cs)
    requires Used(bs) == Used(cs)
    ensures bs == cs
    decreases |bs| + |cs|
  {
    if bs == [] || cs == [] {
      Ordered(bs, lo, hi);
      Ordered(cs, lo, hi);
    } else {
      HeadsAgree(bs, cs, lo, hi);
      TilesTail(bs, lo, hi);
      TilesTail(cs, lo, hi);
      UsedTail(bs, lo, hi);
      UsedTail(cs, lo, hi);
      NoFreeNeighboursTail(bs);
      NoFreeNeighboursTail(cs);
      CanonicalForm(bs[1..], cs[1..], bs[0].End(), hi);
      assert bs == [bs[0]] + bs[1..];
      assert cs == [cs[0]] + cs[1..];
    }
  }

  lemma HeadsAgree(bs: seq<Block>, cs: seq<Block>, lo: nat, hi: nat)
    requires Tiles(bs, lo, hi) && Tiles(cs, lo, hi)
    requires NoFreeNeighbours(bs) && NoFreeNeighbours(cs)
    requires Used(bs) == Used(cs)
    requires bs != [] && cs != []
    ensures bs[0] == cs[0]
  {
    Ordered(bs, lo, hi);
    Ordered(cs, lo, hi);
    if !bs[0].free || !cs[0].free {
      var u := if bs[0].free then cs[0] else bs[0];
      assert u in Used(bs) && u in Used(cs);
      assert u in bs && u in cs;
    } else {
      FreeHeadReach(bs, cs, lo, hi);
      FreeHeadReach(cs, bs, lo, hi);
    }
  }

  // Free heads over the same blocks in use: neither reaches further than the other.
  lemma FreeHeadReach(bs: seq<Block>, cs: seq<Block>, lo: nat, hi: nat)
    requires Tiles(bs, lo, hi) && Tiles(cs, lo, hi)
    requires NoFreeNeighbours(bs)
    requires Used(bs) == Used(cs)
    requires bs != [] && cs != [] && bs[0].free && cs[0].free
    ensures cs[0].End() <= bs[0].End()
  {
    Ordered(cs, lo, hi);
    if |bs| > 1 {
      assert !(bs[0].free && bs[0 + 1].free);
      assert bs[1] in Used(bs);
      FreeHeadEndsBeforeUsed(cs, lo, hi, bs[1]);
      assert bs[0].End() == bs[0 + 1].addr;
    }
  }
}
