/** Runs of alloc_page and free_page by callers that give back only what they have taken. */
module PageRuns {
  import opened PageList
  import opened PageFill

  datatype PageOp = OpTake | OpGive(p: nat)

  /** The pages, and those that the callers hold. */
  datatype PageClient = PageClient(pages: Pages, held: set<nat>)

  function PageStep(c: PageClient, op: PageOp): PageClient {
    match op
    case OpTake =>
      if c.pages.list == [] || c.pages.list[0] >= |c.pages.ps| then c
      else PageClient(Take(c.pages), c.held + {c.pages.list[0]})
    case OpGive(p) =>
      if p in c.held && p < |c.pages.ps| then PageClient(Give(c.pages, p), c.held - {p}) else c
  }

  function PageRun(c: PageClient, ops: seq<PageOp>): PageClient
    decreases |ops|
  {
    if ops == [] then c else PageRun(PageStep(c, ops[0]), ops[1..])
  }

  ghost function OnList(list: seq<nat>): set<nat> {
    set i: nat | i < |list| :: list[i]
  }

  /** Listed pages have a count of zero and held ones a count of one, so no page is both. */
  ghost predicate PageClientOk(c: PageClient) {
    && PagesOk(c.pages)
    && (forall i :: 0 <= i < |c.pages.list| ==>
          c.pages.list[i] < |c.pages.ps| && c.pages.ps[c.pages.list[i]].refCount == 0)
    && (forall p :: p in c.held ==> p < |c.pages.ps| && c.pages.ps[p].refCount == 1)
  }

  // What init_page leaves.
  lemma InitPagesOk(ps: seq<Page>, frames: seq<nat>)
    requires FilledChain(ps, frames) && |ps| == |frames|
    ensures PageClientOk(PageClient(Pages(ps, UpTo(|frames|)), {}))
  {
    ChainIsList(ps, frames);
  }

  // What no step changes: the pages there are, listed or held, and what they stand for.
  ghost predicate SamePages(c: PageClient, d: PageClient) {
    && OnList(d.pages.list) + d.held == OnList(c.pages.list) + c.held
    && |d.pages.list| + |d.held| == |c.pages.list| + |c.held|
    && |d.pages.ps| == |c.pages.ps|
    && forall p :: 0 <= p < |c.pages.ps| ==> d.pages.ps[p].phyAddr == c.pages.ps[p].phyAddr
  }

  lemma TakeStepOk(c: PageClient)
    requires PageClientOk(c)
    ensures PageClientOk(PageStep(c, OpTake)) && SamePages(c, PageStep(c, OpTake))
  {
    if c.pages.list != [] {
      var p, d := c.pages.list[0], PageStep(c, OpTake);
      TakeOk(c.pages);
      assert p !in c.held;
      ListSplit(c.pages.list);
      assert d.pages.list == c.pages.list[1..];
    }
  }

  lemma ListSplit(list: seq<nat>)
    requires list != []
    ensures OnList(list) == {list[0]} + OnList(list[1..])
  {
    forall x ensures x in OnList(list) <==> x in {list[0]} + OnList(list[1..]) {
      if x in OnList(list) && x != list[0] {
        var i: nat :| i < |list| && list[i] == x;
        assert list[1..][i - 1] == x;
      }
    }
  }

  lemma GiveStepOk(c: PageClient, p: nat)
    requires PageClientOk(c)
    ensures PageClientOk(PageStep(c, OpGive(p))) && SamePages(c, PageStep(c, OpGive(p)))
  {
    if p in c.held {
      var d := PageStep(c, OpGive(p));
      GiveOk(c.pages, p);
      ListSplit(d.pages.list);
      assert d.pages.list[1..] == c.pages.list;
    }
  }

  /** Over every run of callers that give back only what they hold: the list stays well formed, a listed page has count
    * zero and a held one count one, no page is lost, none is on the list twice, and none is both listed and held. */
  lemma {:induction false} PageRunOk(c: PageClient, ops: seq<PageOp>)
    requires PageClientOk(c)
    ensures PageClientOk(PageRun(c, ops)) && SamePages(c, PageRun(c, ops))
    ensures OnList(PageRun(c, ops).pages.list) !! PageRun(c, ops).held
    decreases |ops|
  {
    if ops != [] {
      if ops[0].OpTake? {
        TakeStepOk(c);
      } else {
        GiveStepOk(c, ops[0].p);
      }
      PageRunOk(PageStep(c, ops[0]), ops[1..]);
    }
  }

  /** So the case in which free_page breaks the list is reached by none of them. */
  lemma GivesAreSafe(c: PageClient, ops: seq<PageOp>, p: nat)
    requires PageClientOk(c) && p in PageRun(c, ops).held
    ensures var d := PageRun(c, ops);
            && p < |d.pages.ps| && p !in d.pages.list
            && Give(d.pages, p).list == [p] + d.pages.list && PagesOk(Give(d.pages, p))
  {
    PageRunOk(c, ops);
    GiveOk(PageRun(c, ops).pages, p);
  }
}
