/** The header list as it lies in flat memory: a sequence of 64-bit words, word i at virtual address
  * PAGE_OFFSET + 8*i. A header is three words: size, `next` as an address (0 for NULL), and a word whose low
  * half is the flag is_free; the high half is padding and keeps whatever was there. */
module HeapImage {
  import opened Machine
  import opened HeapSpec
  import opened HeapLaws

  function WordAddr(i: nat): nat {
    PAGE_OFFSET + 8 * i
  }

  function Ix(a: nat): nat
    requires a >= PAGE_OFFSET
  {
    (a - PAGE_OFFSET) / 8
  }

  // The three words at `a` lie in memory.
  predicate HoldsHeader(m: seq<Word>, a: nat) {
    a >= PAGE_OFFSET && a % 8 == 0 && Ix(a) + 3 <= |m|
  }

  function LowHalf(w: Word): nat {
    w % W32
  }

  function WithLowHalf(w: Word, v: nat): Word
    requires v < W32
  {
    w / W32 * W32 + v
  }

  function Flag(free: bool): nat {
    if free then 1 else 0
  }

  ghost predicate HeaderIn(m: seq<Word>, b: Block, next: nat) {
    && HoldsHeader(m, b.addr)
    && m[Ix(b.addr)] == b.size && m[Ix(b.addr) + 1] == next && LowHalf(m[Ix(b.addr) + 2]) == Flag(b.free)
  }

  function NextAddr(bs: seq<Block>, i: nat): nat {
    if i + 1 < |bs| then bs[i + 1].addr else 0
  }

  function HeadAddr(bs: seq<Block>): nat {
    if bs == [] then 0 else bs[0].addr
  }

  // The word at a byte address.
  function WordAt(m: seq<Word>, a: nat): Word
    requires PAGE_OFFSET <= a && (a - PAGE_OFFSET) / 8 < |m|
  {
    m[(a - PAGE_OFFSET) / 8]
  }

  /** A header as its struct lays it out: eight bytes of size, the address of the next one, and four bytes of flag. */
  lemma HeaderLayout(m: seq<Word>, b: Block, next: nat)
    requires HoldsHeader(m, b.addr)
    ensures HeaderIn(m, b, next) <==>
              && WordAt(m, b.addr) == b.size && WordAt(m, b.addr + 8) == next
              && WordAt(m, b.addr + 16) % 0x1_0000_0000 == if b.free then 1 else 0
  {
  }

  // The header of block i of the list, linked to the one after it.
  ghost predicate Stored(m: seq<Word>, bs: seq<Block>, i: nat)
    requires i < |bs|
  {
    HeaderIn(m, bs[i], NextAddr(bs, i))
  }

  /** The memory `m` holds exactly the list `bs`. */
  ghost predicate Headers(m: seq<Word>, bs: seq<Block>) {
    forall i :: 0 <= i < |bs| ==> Stored(m, bs, i)
  }

  // The word i is no part of the header at `a`.
  ghost predicate Misses(i: nat, a: nat) {
    WordAddr(i) < a || a + HEADER_SIZE <= WordAddr(i)
  }

  lemma HeadNonNull(m: seq<Word>, bs: seq<Block>)
    requires Headers(m, bs)
    ensures HeadAddr(bs) == 0 <==> bs == []
  {
    assert bs != [] ==> Stored(m, bs, 0);
  }

  lemma NextNull(m: seq<Word>, bs: seq<Block>, k: nat)
    requires Headers(m, bs) && k < |bs|
    ensures NextAddr(bs, k) == 0 <==> k + 1 == |bs|
    ensures bs[k].addr != 0
  {
    assert Stored(m, bs, k);
    assert k + 1 < |bs| ==> Stored(m, bs, k + 1);
  }

  lemma LowHalfSet(w: Word, v: nat)
    requires v < W32
    ensures LowHalf(WithLowHalf(w, v)) == v
    ensures LowHalf(w) == v ==> WithLowHalf(w, v) == w
  {
  }

  /** Going from `m` to `m'` wrote the header of `b`, with the given `next`, and nothing else. */
  ghost predicate Wrote(m: seq<Word>, m': seq<Word>, b: Block, next: nat) {
    && |m'| == |m| && HeaderIn(m', b, next)
    && forall i :: 0 <= i < |m| && Misses(i, b.addr) ==> m'[i] == m[i]
  }

  lemma WroteKeeps(m: seq<Word>, m': seq<Word>, b: Block, next: nat, c: Block, cnext: nat)
    requires Wrote(m, m', b, next) && HeaderIn(m, c, cnext)
    requires b.addr + HEADER_SIZE <= c.addr || c.addr + HEADER_SIZE <= b.addr
    ensures HeaderIn(m', c, cnext)
  {
    var x := Ix(c.addr);
    assert Misses(x, b.addr) && Misses(x + 1, b.addr) && Misses(x + 2, b.addr);
  }

  lemma WroteTwice(m: seq<Word>, m1: seq<Word>, m2: seq<Word>, b: Block, next: nat, b': Block, next': nat)
    requires Wrote(m, m1, b, next) && Wrote(m1, m2, b', next') && b.addr == b'.addr
    ensures Wrote(m, m2, b', next')
  {
  }

  // A tiling whose headers lie in memory, with 64-bit addresses and sizes.
  ghost predicate Placed(m: seq<Word>, bs: seq<Block>, lo: nat, hi: nat) {
    Headers(m, bs) && Tiles(bs, lo, hi) && hi <= W64
  }

  // A header that starts inside the extent of block k lies in memory.
  lemma InsideHolds(m: seq<Word>, bs: seq<Block>, lo: nat, hi: nat, k: nat, a: nat)
    requires Placed(m, bs, lo, hi) && k < |bs| && hi <= WordAddr(|m|)
    requires a % 8 == 0 && bs[k].addr <= a && a + HEADER_SIZE <= bs[k].End()
    ensures HoldsHeader(m, a) && a < W64
  {
    TilesWithin(bs, lo, hi, k);
    assert Stored(m, bs, k);
  }

  // The memory `m` holds the headers of `bs`, except perhaps that of block k.
  ghost predicate HeadersExcept(m: seq<Word>, bs: seq<Block>, k: nat) {
    forall j :: 0 <= j < |bs| && j != k ==> Stored(m, bs, j)
  }

  // Writing a header clear of all blocks but k keeps the headers of the others.
  lemma OthersKept(m: seq<Word>, m': seq<Word>, bs: seq<Block>, k: nat, c: Block, next: nat)
    requires HeadersExcept(m, bs, k) && Wrote(m, m', c, next)
    requires forall j :: 0 <= j < |bs| && j != k ==> c.addr + HEADER_SIZE <= bs[j].addr || bs[j].End() <= c.addr
    ensures HeadersExcept(m', bs, k)
  {
    forall j | 0 <= j < |bs| && j != k ensures Stored(m', bs, j) {
      assert Stored(m, bs, j);
      WroteKeeps(m, m', c, next, bs[j], NextAddr(bs, j));
    }
  }

  // A header inside the extent of block k is clear of all other blocks.
  lemma InsideIsClear(bs: seq<Block>, lo: nat, hi: nat, k: nat, a: nat)
    requires Tiles(bs, lo, hi) && k < |bs| && bs[k].addr <= a && a + HEADER_SIZE <= bs[k].End()
    ensures forall j :: 0 <= j < |bs| && j != k ==> a + HEADER_SIZE <= bs[j].addr || bs[j].End() <= a
  {
    Ordered(bs, lo, hi);
  }

  // A memory that holds the headers of `bs` except number k, and there those of `cs`, holds the replaced list.
  lemma HeadersAssemble(m: seq<Word>, bs: seq<Block>, k: nat, width: nat, cs: seq<Block>)
    requires 1 <= width && k + width <= |bs| && cs != [] && cs[0].addr == bs[k].addr
    requires HeadersExcept(m, bs, k)
    requires forall j :: 0 <= j < |cs| - 1 ==> Stored(m, cs, j)
    requires HeaderIn(m, cs[|cs| - 1], NextAddr(bs, k + width - 1))
    ensures Headers(m, Replace(bs, k, width, cs))
  {
    var rs := Replace(bs, k, width, cs);
    forall i | 0 <= i < |rs| ensures Stored(m, rs, i) {
      if k <= i < k + |cs| {
        assert rs[i] == cs[i - k];
        assert i - k < |cs| - 1 ==> Stored(m, cs, i - k);
        assert NextAddr(rs, i) == if i - k + 1 < |cs| then NextAddr(cs, i - k) else NextAddr(bs, k + width - 1);
      } else {
        var j := if i < k then i else i - |cs| + width;
        assert rs[i] == bs[j] && NextAddr(rs, i) == NextAddr(bs, j);
        assert Stored(m, bs, j);
      }
    }
  }

  /** Writing one header at the position of block k, with the `next` of the last of the `width` blocks it
    * replaces: a changed flag or size (width 1), or a merge (width 2). */
  lemma HeadersReplaceOne(m: seq<Word>, m': seq<Word>, bs: seq<Block>, lo: nat, hi: nat, k: nat, width: nat, c: Block)
    requires Placed(m, bs, lo, hi) && 1 <= width && k + width <= |bs|
    requires c.addr == bs[k].addr && Wrote(m, m', c, NextAddr(bs, k + width - 1))
    ensures Headers(m', Replace(bs, k, width, [c]))
  {
    InsideIsClear(bs, lo, hi, k, c.addr);
    OthersKept(m, m', bs, k, c, NextAddr(bs, k + width - 1));
    HeadersAssemble(m', bs, k, width, [c]);
  }

  /** Splitting block k into c and d, both headers written. */
  lemma HeadersSplit(m: seq<Word>, m1: seq<Word>, m2: seq<Word>, bs: seq<Block>, lo: nat, hi: nat, k: nat,
                     c: Block, d: Block)
    requires Placed(m, bs, lo, hi) && k < |bs|
    requires c.addr == bs[k].addr && c.End() == d.addr && d.End() == bs[k].End()
    requires Wrote(m, m1, d, NextAddr(bs, k)) && Wrote(m1, m2, c, d.addr)
    ensures Headers(m2, Replace(bs, k, 1, [c, d]))
  {
    InsideIsClear(bs, lo, hi, k, d.addr);
    InsideIsClear(bs, lo, hi, k, c.addr);
    OthersKept(m, m1, bs, k, d, NextAddr(bs, k));
    OthersKept(m1, m2, bs, k, c, d.addr);
    WroteKeeps(m1, m2, c, d.addr, d, NextAddr(bs, k));
    HeadersAssemble(m2, bs, k, 1, [c, d]);
  }

  /** Splitting block k, and the payloads it leaves alone: those that both headers are clear of. */
  lemma CarveSplit(m: seq<Word>, m1: seq<Word>, m2: seq<Word>, bs: seq<Block>, lo: nat, hi: nat, k: nat,
                   c: Block, d: Block, live: seq<Block>)
    requires Placed(m, bs, lo, hi) && k < |bs| && ClearOf(c.addr, live) && ClearOf(d.addr, live)
    requires c.addr == bs[k].addr && c.End() == d.addr && d.End() == bs[k].End()
    requires Wrote(m, m1, d, NextAddr(bs, k)) && Wrote(m1, m2, c, d.addr)
    ensures Placed(m2, Replace(bs, k, 1, [c, d]), lo, hi) && Confined(live, lo, hi, m, m2)
  {
    HeadersSplit(m, m1, m2, bs, lo, hi, k, c, d);
    TilesReplace(bs, lo, hi, k, 1, [c, d]);
    TilesWithin(bs, lo, hi, k);
    WroteConfined(live, lo, hi, m, m1, d, NextAddr(bs, k));
    WroteConfined(live, lo, hi, m1, m2, c, d.addr);
    ConfinedTrans(live, lo, hi, m, m1, m2);
  }

  /** Rewriting the header of block k, or merging it with the next, and the payloads this leaves alone. */
  lemma ReplaceOne(m: seq<Word>, m': seq<Word>, bs: seq<Block>, lo: nat, hi: nat, k: nat, width: nat, c: Block,
                   live: seq<Block>)
    requires Placed(m, bs, lo, hi) && 1 <= width && k + width <= |bs| && ClearOf(c.addr, live)
    requires c.addr == bs[k].addr && c.End() == bs[k + width - 1].End()
    requires Wrote(m, m', c, NextAddr(bs, k + width - 1))
    ensures Placed(m', Replace(bs, k, width, [c]), lo, hi) && Confined(live, lo, hi, m, m')
  {
    HeadersReplaceOne(m, m', bs, lo, hi, k, width, c);
    TilesReplace(bs, lo, hi, k, width, [c]);
    TilesWithin(bs, lo, hi, k);
    WroteConfined(live, lo, hi, m, m', c, NextAddr(bs, k + width - 1));
  }

  /** Hanging a new block behind the last one. */
  lemma HeadersAppend(m: seq<Word>, m1: seq<Word>, m2: seq<Word>, bs: seq<Block>, lo: nat, hi: nat, f: Block)
    requires Placed(m, bs, lo, hi) && bs != [] && f.addr == hi
    requires Wrote(m, m1, f, 0) && Wrote(m1, m2, bs[|bs| - 1], f.addr)
    ensures Headers(m2, bs + [f])
  {
    var l := |bs| - 1;
    InsideIsClear(bs, lo, hi, l, bs[l].addr);
    Ordered(bs, lo, hi);
    OthersKept(m, m1, bs, l, f, 0);
    OthersKept(m1, m2, bs, l, bs[l], f.addr);
    WroteKeeps(m1, m2, bs[l], f.addr, f, 0);
    assert Replace(bs, l, 1, [bs[l], f]) == bs + [f];
    HeadersAssemble(m2, bs, l, 1, [bs[l], f]);
  }

  lemma AppendBlock(m: seq<Word>, m1: seq<Word>, m2: seq<Word>, bs: seq<Block>, lo: nat, hi: nat, f: Block,
                    live: seq<Block>)
    requires Placed(m, bs, lo, hi) && bs != [] && f.addr == hi && f.End() <= W64
    requires Below(live, hi) && ClearOf(bs[|bs| - 1].addr, live)
    requires Wrote(m, m1, f, 0) && Wrote(m1, m2, bs[|bs| - 1], f.addr)
    ensures Placed(m2, bs + [f], lo, f.End()) && Confined(live, lo, f.End(), m, m2)
  {
    var l := |bs| - 1;
    HeadersAppend(m, m1, m2, bs, lo, hi, f);
    TilesAppend(bs, [f], lo, hi, f.End());
    TilesWithin(bs, lo, hi, l);
    HighIsClear(live, hi, f.addr);
    WroteConfined(live, lo, f.End(), m, m1, f, 0);
    WroteConfined(live, lo, f.End(), m1, m2, bs[l], f.addr);
    ConfinedTrans(live, lo, f.End(), m, m1, m2);
  }

  /** Splitting the block just hung behind `bs`, and the payloads this leaves alone. */
  lemma SplitLast(m: seq<Word>, m1: seq<Word>, m2: seq<Word>, bs: seq<Block>, lo: nat, hi: nat,
                  f: Block, c: Block, d: Block, live: seq<Block>)
    requires Tiles(bs, lo, hi) && f.addr == hi && Placed(m, bs + [f], lo, f.End()) && Below(live, hi)
    requires c.addr == hi && c.End() == d.addr && d.End() == f.End()
    requires Wrote(m, m1, d, 0) && Wrote(m1, m2, c, d.addr)
    ensures Placed(m2, bs + [c, d], lo, f.End()) && Confined(live, lo, f.End(), m, m2)
  {
    var k := |bs|;
    HeadersSplit(m, m1, m2, bs + [f], lo, f.End(), k, c, d);
    TilesReplace(bs + [f], lo, f.End(), k, 1, [c, d]);
    assert Replace(bs + [f], k, 1, [c, d]) == bs + [c, d];
    Ordered(bs, lo, hi);
    HighIsClear(live, hi, c.addr);
    HighIsClear(live, hi, d.addr);
    WroteConfined(live, lo, f.End(), m, m1, d, 0);
    WroteConfined(live, lo, f.End(), m1, m2, c, d.addr);
    ConfinedTrans(live, lo, f.End(), m, m1, m2);
  }

  // ---- single fields ----

  // size, next and is_free of the header at `a`, stored one after the other.
  lemma WroteAll(m: seq<Word>, m': seq<Word>, b: Block, next: Word)
    requires HoldsHeader(m, b.addr) && b.size < W64
    requires m' == m[Ix(b.addr) := b.size][Ix(b.addr) + 1 := next]
                    [Ix(b.addr) + 2 := WithLowHalf(m[Ix(b.addr) + 2], Flag(b.free))]
    ensures Wrote(m, m', b, next)
  {
    LowHalfSet(m[Ix(b.addr) + 2], Flag(b.free));
  }

  lemma WroteSizeNext(m: seq<Word>, m': seq<Word>, b: Block, next: nat, size: Word, next': Word)
    requires HeaderIn(m, b, next)
    requires m' == m[Ix(b.addr) := size][Ix(b.addr) + 1 := next']
    ensures Wrote(m, m', b.(size := size), next')
  {
  }

  lemma WroteNext(m: seq<Word>, m': seq<Word>, b: Block, next: nat, next': Word)
    requires HeaderIn(m, b, next) && m' == m[Ix(b.addr) + 1 := next']
    ensures Wrote(m, m', b, next')
  {
  }

  lemma WroteFree(m: seq<Word>, m': seq<Word>, b: Block, next: nat, free: bool)
    requires HeaderIn(m, b, next)
    requires m' == m[Ix(b.addr) + 2 := WithLowHalf(m[Ix(b.addr) + 2], Flag(free))]
    ensures Wrote(m, m', b.(free := free), next)
  {
    LowHalfSet(m[Ix(b.addr) + 2], Flag(free));
  }

  // ---- what stays ----

  predicate InPayload(b: Block, i: nat) {
    b.Payload() <= WordAddr(i) < b.End()
  }

  /** Every payload word of every block in use is the same in `m` and `m'`. */
  ghost predicate KeepsLive(bs: seq<Block>, m: seq<Word>, m': seq<Word>) {
    |m'| == |m| &&
    forall b, i :: b in Used(bs) && 0 <= i < |m| && InPayload(b, i) ==> m'[i] == m[i]
  }

  lemma KeepsLiveTrans(bs: seq<Block>, m: seq<Word>, m1: seq<Word>, m2: seq<Word>)
    requires KeepsLive(bs, m, m1) && KeepsLive(bs, m1, m2)
    ensures KeepsLive(bs, m, m2)
  {
  }

  lemma KeepsFewer(bs: seq<Block>, cs: seq<Block>, m: seq<Word>, m': seq<Word>)
    requires KeepsLive(bs, m, m') && Used(cs) <= Used(bs)
    ensures KeepsLive(cs, m, m')
  {
  }

  /** Every word outside the addresses from `lo` up to `hi` is the same in `m` and `m'`. */
  ghost predicate KeepsOutside(lo: nat, hi: nat, m: seq<Word>, m': seq<Word>) {
    |m'| == |m| &&
    forall i :: 0 <= i < |m| && (WordAddr(i) < lo || hi <= WordAddr(i)) ==> m'[i] == m[i]
  }

  /** Only headers and free space of the extent from `lo` to `hi` differ in `m` and `m'`. */
  ghost predicate Confined(bs: seq<Block>, lo: nat, hi: nat, m: seq<Word>, m': seq<Word>) {
    KeepsLive(bs, m, m') && KeepsOutside(lo, hi, m, m')
  }

  lemma WroteConfined(bs: seq<Block>, lo: nat, hi: nat, m: seq<Word>, m': seq<Word>, c: Block, next: nat)
    requires Wrote(m, m', c, next) && ClearOf(c.addr, bs) && lo <= c.addr && c.addr + HEADER_SIZE <= hi
    ensures Confined(bs, lo, hi, m, m')
  {
    forall b, i | b in Used(bs) && 0 <= i < |m| && InPayload(b, i) ensures m'[i] == m[i] {
      assert Misses(i, c.addr);
    }
    forall i | 0 <= i < |m| && (WordAddr(i) < lo || hi <= WordAddr(i)) ensures m'[i] == m[i] {
      assert Misses(i, c.addr);
    }
  }

  // A header at `a` lies in no payload in use; and so for every header of a list.
  ghost predicate ClearOf(a: nat, live: seq<Block>) {
    forall b :: b in Used(live) ==> a + HEADER_SIZE <= b.Payload() || b.End() <= a
  }

  ghost predicate HeadersClear(bs: seq<Block>, live: seq<Block>) {
    forall i :: 0 <= i < |bs| ==> ClearOf(bs[i].addr, live)
  }

  // All payloads in use end at or below `hi`.
  ghost predicate Below(live: seq<Block>, hi: nat) {
    forall b :: b in Used(live) ==> b.End() <= hi
  }

  lemma HighIsClear(live: seq<Block>, hi: nat, a: nat)
    requires Below(live, hi) && hi <= a
    ensures ClearOf(a, live)
  {
  }

  lemma OwnHeadersClear(bs: seq<Block>, lo: nat, hi: nat)
    requires Tiles(bs, lo, hi)
    ensures HeadersClear(bs, bs)
  {
    forall i | 0 <= i < |bs| ensures ClearOf(bs[i].addr, bs) {
      HeaderClearOfLive(bs, lo, hi, i, bs[i].addr);
    }
  }

  // In a tiling, the header of a listed block lies in no payload; nor does one in the extent of a free block.
  lemma HeaderClearOfLive(bs: seq<Block>, lo: nat, hi: nat, k: nat, a: nat)
    requires Tiles(bs, lo, hi) && k < |bs|
    requires a == bs[k].addr || (bs[k].free && bs[k].addr <= a && a + HEADER_SIZE <= bs[k].End())
    ensures ClearOf(a, bs)
  {
    Ordered(bs, lo, hi);
  }

  lemma ConfinedTrans(bs: seq<Block>, lo: nat, hi: nat, m: seq<Word>, m1: seq<Word>, m2: seq<Word>)
    requires Confined(bs, lo, hi, m, m1) && Confined(bs, lo, hi, m1, m2)
    ensures Confined(bs, lo, hi, m, m2)
  {
  }

  lemma ConfinedSame(bs: seq<Block>, lo: nat, hi: nat, m: seq<Word>)
    ensures Confined(bs, lo, hi, m, m)
  {
  }

  // A word of an extent that all headers are clear of is part of none of them.
  lemma StoreBeside(m: seq<Word>, bs: seq<Block>, b: Block, i: nat, value: Word)
    requires Headers(m, bs) && !b.free && HeadersClear(bs, [b]) && i < |m| && InPayload(b, i)
    ensures Headers(m[i := value], bs)
  {
    var m' := m[i := value];
    assert b in Used([b]);
    forall j | 0 <= j < |bs| ensures Stored(m', bs, j) {
      assert Stored(m, bs, j);
      assert ClearOf(bs[j].addr, [b]);
      assert Misses(i, bs[j].addr);
    }
  }

  // A word of a payload in use is no part of any header of the tiling.
  lemma StoreKeepsHeaders(m: seq<Word>, bs: seq<Block>, lo: nat, hi: nat, b: Block, i: nat, value: Word)
    requires Headers(m, bs) && Tiles(bs, lo, hi) && b in Used(bs) && i < |m| && InPayload(b, i)
    ensures Headers(m[i := value], bs)
  {
    OwnHeadersClear(bs, lo, hi);
    FewerClear(bs, bs, [b]);
    StoreBeside(m, bs, b, i, value);
  }

  // Headers clear of some payloads are clear of fewer.
  lemma FewerClear(bs: seq<Block>, live: seq<Block>, fewer: seq<Block>)
    requires HeadersClear(bs, live) && Used(fewer) <= Used(live)
    ensures HeadersClear(bs, fewer)
  {
    forall i | 0 <= i < |bs| ensures ClearOf(bs[i].addr, fewer) {
      assert ClearOf(bs[i].addr, live);
    }
  }

  lemma BothClear(bs: seq<Block>, a: seq<Block>, b: seq<Block>)
    requires HeadersClear(bs, a) && HeadersClear(bs, b)
    ensures HeadersClear(bs, a + b)
  {
    UsedAppend(a, b);
    forall i | 0 <= i < |bs| ensures ClearOf(bs[i].addr, a + b) {
      assert ClearOf(bs[i].addr, a) && ClearOf(bs[i].addr, b);
    }
  }

  ghost predicate StoreKeeps(m: seq<Word>, bs: seq<Block>, i: nat, v: Word)
    requires i < |m|
  {
    Headers(m[i := v], bs)
  }

  /** Every store into the payload of `b` leaves the list intact if and only if no header lies in that payload. */
  lemma StoresHarmless(m: seq<Word>, bs: seq<Block>, b: Block)
    requires Headers(m, bs) && !b.free && b.addr % 8 == 0 && b.size % 8 == 0 && b.size > 0
    ensures (forall i: nat, v: Word :: i < |m| && InPayload(b, i) ==> StoreKeeps(m, bs, i, v))
            <==> HeadersClear(bs, [b])
  {
    if HeadersClear(bs, [b]) {
      forall i: nat, v: Word | i < |m| && InPayload(b, i) ensures StoreKeeps(m, bs, i, v) {
        StoreBeside(m, bs, b, i, v);
      }
    } else {
      var j :| 0 <= j < |bs| && !ClearOf(bs[j].addr, [b]);
      assert Stored(m, bs, j);
      var i := HitWord(m, bs[j].addr, b);
      var v := if LowHalf(m[i]) == 0 then 1 else 0;
      assert LowHalf(v) != LowHalf(m[i]);
      assert !Stored(m[i := v], bs, j);
      assert !StoreKeeps(m, bs, i, v);
    }
  }

  // A word of both a header and the payload it is not clear of.
  lemma HitWord(m: seq<Word>, a: nat, b: Block) returns (i: nat)
    requires HoldsHeader(m, a) && !ClearOf(a, [b]) && b.addr % 8 == 0 && b.size % 8 == 0 && b.size > 0
    ensures i < |m| && InPayload(b, i) && Ix(a) <= i < Ix(a) + 3
  {
    var at := if a < b.Payload() then b.Payload() else a;
    i := Ix(at);
    assert at % 8 == 0 && WordAddr(i) == at;
  }

  // ---- several stores into one extent ----

  datatype Write = Write(word: nat, value: Word)

  // The stores all go to payload words of `b`, in a memory of n words.
  ghost predicate WritesIn(ws: seq<Write>, b: Block, n: nat) {
    forall i :: 0 <= i < |ws| ==> ws[i].word < n && InPayload(b, ws[i].word)
  }

  predicate WritesFit(ws: seq<Write>, n: nat) {
    forall i :: 0 <= i < |ws| ==> ws[i].word < n
  }

  /** The memory after these stores, one after the other. */
  function Written(m: seq<Word>, ws: seq<Write>): seq<Word>
    requires WritesFit(ws, |m|)
    decreases |ws|
  {
    if ws == [] then m else Written(m[ws[0].word := ws[0].value], ws[1..])
  }

  lemma {:induction false} WrittenBeside(m: seq<Word>, ws: seq<Write>, bs: seq<Block>, b: Block)
    requires Headers(m, bs) && !b.free && HeadersClear(bs, [b]) && WritesIn(ws, b, |m|)
    ensures Headers(Written(m, ws), bs)
    decreases |ws|
  {
    if ws != [] {
      StoreBeside(m, bs, b, ws[0].word, ws[0].value);
      WrittenBeside(m[ws[0].word := ws[0].value], ws[1..], bs, b);
    }
  }

  // The payload of `b` overlaps no payload in use.
  ghost predicate Apart(b: Block, live: seq<Block>) {
    forall u :: u in Used(live) ==> u.End() <= b.Payload() || b.End() <= u.Payload()
  }

  lemma {:induction false} WrittenKeeps(m: seq<Word>, ws: seq<Write>, b: Block, live: seq<Block>)
    requires WritesIn(ws, b, |m|) && Apart(b, live)
    ensures KeepsLive(live, m, Written(m, ws))
    decreases |ws|
  {
    if ws != [] {
      var m1 := m[ws[0].word := ws[0].value];
      WrittenKeeps(m1, ws[1..], b, live);
      KeepsLiveTrans(live, m, m1, Written(m, ws));
    }
  }

  // Memories that agree on an extent still do after the same stores.
  lemma {:induction false} WrittenAgree(m: seq<Word>, m': seq<Word>, ws: seq<Write>, live: seq<Block>)
    requires KeepsLive(live, m, m') && WritesFit(ws, |m|)
    ensures KeepsLive(live, Written(m, ws), Written(m', ws))
    decreases |ws|
  {
    if ws != [] {
      WrittenAgree(m[ws[0].word := ws[0].value], m'[ws[0].word := ws[0].value], ws[1..], live);
    }
  }

  lemma {:induction false} WrittenBoth(m: seq<Word>, a: seq<Write>, b: seq<Write>)
    requires WritesFit(a, |m|) && WritesFit(b, |m|)
    ensures |Written(m, a)| == |m| && Written(m, a + b) == Written(Written(m, a), b)
    decreases |a|
  {
    if a == [] {
      assert a + b == b;
    } else {
      assert (a + b)[1..] == a[1..] + b;
      WrittenBoth(m[a[0].word := a[0].value], a[1..], b);
    }
  }

  // ---- zeroing a frame ----

  /** memset of the 2 MiB frame at physical address `phys`. */
  ghost predicate Zeroed(m: seq<Word>, m': seq<Word>, phys: nat) {
    |m'| == |m| &&
    forall i :: 0 <= i < |m| ==> m'[i] == if phys <= 8 * i < phys + PAGE_2M_SIZE then 0 else m[i]
  }

  lemma ZeroedKeeps(m: seq<Word>, m': seq<Word>, phys: nat, bs: seq<Block>, lo: nat, live: seq<Block>)
    requires Placed(m, bs, lo, PhyToVirt(phys)) && Zeroed(m, m', phys) && Below(live, PhyToVirt(phys))
    ensures Placed(m', bs, lo, PhyToVirt(phys)) && Confined(live, lo, PhyToVirt(phys) + PAGE_2M_SIZE, m, m')
  {
    var hi := PhyToVirt(phys);
    Ordered(bs, lo, hi);
    forall i | 0 <= i < |bs| ensures Stored(m', bs, i) {
      TilesWithin(bs, lo, hi, i);
      assert Stored(m, bs, i);
    }
  }
}
