/** The list of free page descriptors: links are indices into the descriptor array, -1 for NULL. */
module PageList {
  import opened Machine

  datatype Page = Page(phyAddr: nat, refCount: nat, next: int)

  function LinkAt(list: seq<nat>, i: nat): int {
    if i < |list| then list[i] else -1
  }

  ghost predicate Linked(ps: seq<Page>, list: seq<nat>, i: nat)
    requires i < |list|
  {
    list[i] < |ps| && ps[list[i]].next == LinkAt(list, i + 1)
  }

  ghost predicate Distinct(list: seq<nat>) {
    forall i, j :: 0 <= i < j < |list| ==> list[i] != list[j]
  }

  /** Following `next` from `head` visits exactly `list`. */
  ghost predicate Chained(ps: seq<Page>, head: int, list: seq<nat>) {
    head == LinkAt(list, 0) && Distinct(list) && forall i :: 0 <= i < |list| ==> Linked(ps, list, i)
  }

  /** The descriptor array and its free list. */
  datatype Pages = Pages(ps: seq<Page>, list: seq<nat>)

  /** alloc_page on a non-empty list. */
  function Take(s: Pages): Pages
    requires s.list != [] && s.list[0] < |s.ps|
  {
    var p := s.list[0];
    Pages(s.ps[p := s.ps[p].(next := -1, refCount := 1)], s.list[1..])
  }

  /** free_page: the reference count is an unsigned 32-bit counter, and the page returns when it reaches zero. */
  function Give(s: Pages, p: nat): Pages
    requires p < |s.ps|
  {
    var count := (s.ps[p].refCount + W32 - 1) % W32;
    if count == 0 then Pages(s.ps[p := s.ps[p].(refCount := 0, next := LinkAt(s.list, 0))], [p] + s.list)
    else s.(ps := s.ps[p := s.ps[p].(refCount := count)])
  }

  ghost predicate PagesOk(s: Pages) {
    Chained(s.ps, LinkAt(s.list, 0), s.list) && forall i :: 0 <= i < |s.ps| ==> s.ps[i].refCount < W32
  }

  /** The pages on the list stand for these frames, in this order. */
  ghost predicate Frames(s: Pages, frames: seq<nat>) {
    |frames| == |s.list| &&
    forall i :: 0 <= i < |s.list| ==> s.list[i] < |s.ps| && s.ps[s.list[i]].phyAddr == frames[i]
  }

  lemma TakeFrames(s: Pages, frames: seq<nat>)
    requires Frames(s, frames) && s.list != []
    ensures Frames(Take(s), frames[1..])
  {
  }

  // Every descriptor but p is the same, and p stands for the same frame.
  ghost predicate OnlyPage(s: Pages, t: Pages, p: nat) {
    && |t.ps| == |s.ps| && (p < |s.ps| ==> t.ps[p].phyAddr == s.ps[p].phyAddr)
    && forall i :: 0 <= i < |s.ps| && i != p ==> t.ps[i] == s.ps[i]
  }

  /** alloc_page takes the first page off the list, unlinks it and gives it a count of one. */
  lemma TakeExact(s: Pages)
    requires s.list != [] && s.list[0] < |s.ps|
    ensures var (t, p) := (Take(s), s.list[0]);
            t.list == s.list[1..] && OnlyPage(s, t, p) && t.ps[p].next == -1 && t.ps[p].refCount == 1
  {
  }

  /** free_page counts down, from 0 to the largest 32-bit number; at 0 the page goes to the front of the list. */
  lemma GiveExact(s: Pages, p: nat)
    requires p < |s.ps| && s.ps[p].refCount < 0x1_0000_0000
    ensures var t := Give(s, p);
            && OnlyPage(s, t, p)
            && t.ps[p].refCount == (if s.ps[p].refCount > 0 then s.ps[p].refCount - 1 else 0xffff_ffff)
            && if s.ps[p].refCount == 1 then t.list == [p] + s.list && t.ps[p].next == LinkAt(s.list, 0)
               else t.list == s.list && t.ps[p].next == s.ps[p].next
  {
  }

  lemma TakeOk(s: Pages)
    requires PagesOk(s) && s.list != []
    ensures s.list[0] < |s.ps| && PagesOk(Take(s)) && s.list[0] !in Take(s).list
  {
    assert Linked(s.ps, s.list, 0);
    var t := Take(s);
    forall i | 0 <= i < |t.list| ensures Linked(t.ps, t.list, i) {
      assert Linked(s.ps, s.list, i + 1);
    }
  }

  /** Giving back a page keeps the list well formed if and only if the page is not on it with a count of one. */
  lemma GiveOk(s: Pages, p: nat)
    requires PagesOk(s) && p < |s.ps|
    ensures PagesOk(Give(s, p)) <==> !(p in s.list && s.ps[p].refCount == 1)
  {
    var t := Give(s, p);
    if p in s.list && s.ps[p].refCount == 1 {
      var i :| 0 <= i < |s.list| && s.list[i] == p;
      assert t.list[0] == t.list[i + 1];
    } else {
      forall i | 0 <= i < |t.list| ensures Linked(t.ps, t.list, i) {
        if s.ps[p].refCount != 1 {
          assert Linked(s.ps, s.list, i);
        } else if i > 0 {
          assert Linked(s.ps, s.list, i - 1);
        }
      }
    }
  }

  /** free_page undoes alloc_page: the same list in the same order. */
  lemma GiveUndoesTake(s: Pages)
    requires PagesOk(s) && s.list != []
    ensures s.list[0] < |s.ps| && Give(Take(s), s.list[0]).list == s.list
    ensures PagesOk(Give(Take(s), s.list[0]))
  {
    TakeOk(s);
    GiveOk(Take(s), s.list[0]);
  }

  /** Giving back a page whose count is already zero never puts it on the list a second time. */
  lemma GiveTwice(s: Pages, p: nat)
    requires PagesOk(s) && p < |s.ps| && s.ps[p].refCount == 0
    ensures Give(s, p).list == s.list && PagesOk(Give(s, p))
  {
    GiveOk(s, p);
  }
}
