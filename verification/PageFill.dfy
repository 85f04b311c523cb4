/** The descriptor array that init_page fills: one descriptor for each frame of the map, linked in order. */
module PageFill {
  import opened Machine
  import opened PageList
  import opened PageMap

  /** The first |frames| descriptors hold these frames, each linked to the one after it. */
  ghost predicate FilledChain(ps: seq<Page>, frames: seq<nat>) {
    |frames| <= |ps| &&
    forall x :: 0 <= x < |frames| ==> ps[x] == Page(frames[x], 0, if x + 1 < |frames| then x + 1 else -1)
  }

  function UpTo(n: nat): seq<nat> {
    seq(n, i => i)
  }

  lemma ChainIsList(ps: seq<Page>, frames: seq<nat>)
    requires FilledChain(ps, frames) && |ps| == |frames|
    ensures PagesOk(Pages(ps, UpTo(|frames|))) && Frames(Pages(ps, UpTo(|frames|)), frames)
  {
    var list := UpTo(|frames|);
    forall i | 0 <= i < |list| ensures Linked(ps, list, i) {
    }
  }

  lemma {:induction false} FrameListPrefix(entries: seq<E820>, i: nat)
    requires i <= |entries|
    ensures |FrameList(entries[..i])| <= |FrameList(entries)|
    ensures FrameList(entries[..i]) == FrameList(entries)[..|FrameList(entries[..i])|]
    decreases |entries|
  {
    var n := |entries| - 1;
    if i <= n {
      FrameListPrefix(entries[..n], i);
      assert entries[..n][..i] == entries[..i];
    } else {
      assert entries[..i] == entries;
    }
  }

  lemma FrameListSnoc(done: seq<E820>, e: E820)
    ensures FrameList(done + [e]) == FrameList(done) + EntryFrames(e)
  {
    assert (done + [e])[..|done|] == done;
  }

  lemma AlignedBounds(a: nat, b: nat)
    ensures AlignUp(a) % PAGE_2M_SIZE == 0 && AlignDown(b) % PAGE_2M_SIZE == 0
  {
  }

  // What entry i adds to the frames of the entries before it.
  lemma FrameListStep(entries: seq<E820>, i: nat)
    requires i < |entries|
    ensures FrameList(entries[..i + 1]) == FrameList(entries[..i]) + EntryFrames(entries[i])
    ensures |FrameList(entries[..i])| + |EntryFrames(entries[i])| <= |FrameList(entries)|
  {
    assert entries[..i + 1] == entries[..i] + [entries[i]];
    FrameListSnoc(entries[..i], entries[i]);
    FrameListPrefix(entries, i + 1);
  }

  lemma {:induction false} FrameAligned(entries: seq<E820>, x: nat)
    requires x < |FrameList(entries)|
    ensures AlignUp(FrameList(entries)[x]) == FrameList(entries)[x]
  {
    var n := |entries| - 1;
    var init := FrameList(entries[..n]);
    if x < |init| {
      FrameAligned(entries[..n], x);
    } else {
      EntryFrameAligned(entries[n], x - |init|);
    }
  }

  lemma EntryFrameAligned(e: E820, i: nat)
    requires i < EntryCount(e)
    ensures AlignUp(EntryFrames(e)[i]) == EntryFrames(e)[i]
  {
    var start, end := AlignUp(e.address), AlignDown(e.End());
    var f := start + i * PAGE_2M_SIZE;
    FrameStep(start, end, i);
    assert f + PAGE_2M_SIZE <= end < W64;
    assert f == (start / PAGE_2M_SIZE + i) * PAGE_2M_SIZE;
  }

  // Between aligned bounds, a frame that starts below the end ends at or below it.
  lemma FrameStep(start: nat, end: nat, i: nat)
    requires start % PAGE_2M_SIZE == 0 && end % PAGE_2M_SIZE == 0
    requires start + i * PAGE_2M_SIZE < end
    ensures start + (i + 1) * PAGE_2M_SIZE <= end
    ensures i + 1 <= (end - start) / PAGE_2M_SIZE
  {
    var a, b := start / PAGE_2M_SIZE, end / PAGE_2M_SIZE;
    assert start == a * PAGE_2M_SIZE && end == b * PAGE_2M_SIZE;
    assert (a + i) * PAGE_2M_SIZE < b * PAGE_2M_SIZE;
    assert a + i < b;
    assert end - start == (b - a) * PAGE_2M_SIZE;
  }
}
