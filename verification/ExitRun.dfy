/** Which runs of the scheduler end in an exit that allocates over the stack it still runs on. */
module ExitRun {
  import opened Machine
  import opened HeapSpec
  import opened HeapImage
  import opened HeapOps
  import opened HeapRoom
  import opened SchedSpec
  import opened SchedRuns
  import opened SchedLaws
  import opened ExitStack

  // In every reachable state the current process owns its stack.
  lemma CurrentOwns(w: World)
    requires WorldOk(w) && w.sys.table.current >= 0
    ensures OwnsStack(w.sys) && Releasable(w.sys)
    ensures StackExtent(w.sys).Payload() == w.sys.table.procs[w.sys.table.current].stack
    ensures Alone(w.sys.table) <==>
            forall i :: 0 <= i < MAX_PROCESSES && i != w.sys.table.current ==> w.sys.table.procs[i].state == Unused
  {
    var t := w.sys.table;
    CurrentReleasable(w);
    assert t.procs[t.current].state == Running;
    var b := StackBlock(w, t.current);
    FreeReleases(w.sys.heap, b);
    if Alone(t) {
      forall i | 0 <= i < MAX_PROCESSES && i != t.current ensures t.procs[i].state == Unused {
        assert Vacant(t.procs[i]) || Alive(t.procs[i]);
      }
    }
  }

  /** When a process of a reachable state exits, no header of the heap it leaves lies in the stack it runs on, and every
    * store of the code that runs there leaves that heap intact, if and only if it is not the last process, or freeing
    * its stack and allocating another one does not put a header into it (see Hits). */
  lemma ExitOnStack(w: World, m: seq<Word>)
    requires WorldOk(w) && w.sys.table.current >= 0 && Releasable(w.sys)
    requires Headers(m, Exit(w.sys).heap.blocks)
    ensures OwnsStack(w.sys)
    ensures var (bs, k, b) := (w.sys.heap.blocks, StackIndex(w.sys), StackExtent(w.sys));
            var last := forall i :: 0 <= i < MAX_PROCESSES && i != w.sys.table.current ==>
                                      w.sys.table.procs[i].state == Unused;
            var hits := last && Hits(bs, k);
            && (HeadersClear(Exit(w.sys).heap.blocks, [b]) <==> !hits)
            && ((forall i: nat, v: Word :: i < |m| && InPayload(b, i) ==>
                   StoreKeeps(m, Exit(w.sys).heap.blocks, i, v)) <==> !hits)
  {
    CurrentOwns(w);
    ExitExactly(w.sys);
    ExitStores(w.sys, m);
  }

  // ---- a run that gets there ----

  // A machine of one frame: a small block, the only process, and the small block freed before it starts.
  const FIRST: nat := PhyToVirt(0x20_0000)
  const HIT_RUN: seq<Event> := [EMalloc(64), ECreate(3, 4), EFree(FIRST + 24), EStart]

  const SMALL: Block := Block(FIRST, 64, true)
  const STACK: Block := Block(FIRST + 88, STACK_SIZE, false)
  const REST: Block := Block(FIRST + 16496, 2080632, true)

  /** A run after which the exit of the last process puts a header into the stack it still runs on. */
  lemma ExitHitsReached()
    ensures WorldOk(OneFrame())
    ensures var w := RunEvents(OneFrame(), HIT_RUN);
            && WorldOk(w) && OwnsStack(w.sys) && ExitHits(w.sys) && Releasable(w.sys)
            && StackExtent(w.sys) == STACK
            && Exit(w.sys).heap.blocks == [Block(FIRST, STACK_SIZE, false), Block(FIRST + 16408, 2080720, true)]
            && STACK.Payload() < FIRST + 16408 && FIRST + 16408 + HEADER_SIZE <= STACK.End()
  {
    BootOk([0x20_0000], 0x20_0000, 0x40_0000, 1, 2);
    HitState();
    var w := RunEvents(OneFrame(), HIT_RUN);
    CurrentOwns(w);
    var bs := w.sys.heap.blocks;
    assert IndexOf(bs, STACK.Payload()) == 1;
    assert bs[..0] == [] && !Room(bs[..0], STACK_SIZE);
    assert RoomAt(bs, 1) == 2097128;
    ExitHeap(w.sys);
    HitExit(w);
  }

  // What stays over the run: nobody runs, and only slot 0 is ever taken.
  ghost predicate HitTable(t: Table) {
    && TableShape(t) && !t.started && t.current == -1
    && forall i :: 0 < i < MAX_PROCESSES ==> t.procs[i].state == Unused
  }

  lemma HitMalloc()
    requires Releasable(OneFrame().sys)
    ensures var w := After(OneFrame(), EMalloc(64));
            && w.sys.heap.blocks == [SMALL.(free := false), Block(FIRST + 88, 2097040, true)]
            && w.sys.heap.lo == 0x20_0000 && w.sys.heap.hi == 0x40_0000
            && w.held == {FIRST + 24} && HitTable(w.sys.table) && w.sys.table.procs[0].state == Unused
  {
    var h := OneFrame().sys.heap;
    assert h.blocks == [] && Rounded(64) == 64 && FirstFit(h.blocks, 64) == 0;
    assert Carve(Fresh(0x20_0000), 64) == [SMALL.(free := false), Block(FIRST + 88, 2097040, true)];
  }

  lemma HitCreate(w: World)
    requires HitTable(w.sys.table) && w.sys.table.procs[0].state == Unused
    requires w.sys.heap.blocks == [SMALL.(free := false), Block(FIRST + 88, 2097040, true)]
    ensures var w' := Created(w, 3, 4);
            && w'.sys.heap.blocks == [SMALL.(free := false), STACK, REST]
            && w'.sys.heap.lo == w.sys.heap.lo && w'.sys.heap.hi == w.sys.heap.hi && w'.held == w.held
            && HitTable(w'.sys.table)
            && w'.sys.table.procs[0].state == Ready && w'.sys.table.procs[0].stack == STACK.Payload()
  {
    var h, b := w.sys.heap, Block(FIRST + 88, 2097040, true);
    assert Rounded(STACK_SIZE) == STACK_SIZE;
    assert h.blocks[1..][0] == b && FirstFit(h.blocks, STACK_SIZE) == 1;
    assert Carve(b, STACK_SIZE) == [STACK, REST];
    assert FirstIn(w.sys.table.procs, Unused) == 0;
  }

  lemma HitFree(w: World)
    requires TableShape(w.sys.table) && Releasable(w.sys) && w.held == {FIRST + 24}
    requires w.sys.heap.blocks == [SMALL.(free := false), STACK, REST]
    requires w.sys.heap.lo == 0x20_0000 && w.sys.heap.hi == 0x40_0000
    ensures var w' := After(w, EFree(FIRST + 24));
            w'.sys.heap.blocks == [SMALL, STACK, REST] && w'.sys.table == w.sys.table
  {
    var h := w.sys.heap;
    assert IndexOf(h.blocks, FIRST + 24) == 0;
    assert h.blocks[0 := SMALL] == [SMALL, STACK, REST];
    CoalesceFixed([SMALL, STACK, REST]);
  }

  lemma HitStart(w: World)
    requires HitTable(w.sys.table) && w.sys.table.procs[0].state == Ready
    ensures var w' := Started(w);
            && w'.sys.heap == w.sys.heap && w'.sys.table.started && w'.sys.table.current == 0
            && TableShape(w'.sys.table) && w'.sys.table.procs[0].stack == w.sys.table.procs[0].stack
            && forall i :: 0 < i < MAX_PROCESSES ==> w'.sys.table.procs[i].state == Unused
  {
    assert FirstIn(w.sys.table.procs, Ready) == 0;
  }

  lemma HitExit(w: World)
    requires TableShape(w.sys.table) && OwnsStack(w.sys) && Releasable(w.sys) && Alone(w.sys.table)
    requires w.sys.heap.blocks == [SMALL, STACK, REST] && StackIndex(w.sys) == 1 && HeapOk(w.sys.heap)
    ensures Exit(w.sys).heap.blocks == [Block(FIRST, STACK_SIZE, false), Block(FIRST + 16408, 2080720, true)]
  {
    var bs, h1 := w.sys.heap.blocks, Vacate(w.sys).heap;
    VacateFrees(w.sys);
    ExitHeap(w.sys);
    var m := ReleaseMerges(bs, 1);
    assert bs[..0] == [] && bs[3..] == [];
    assert h1.blocks == [m] && m == Block(FIRST, 2097128, true);
    HitCarve(h1);
  }

  lemma HitCarve(h: Heap)
    requires h.blocks == [Block(FIRST, 2097128, true)]
    ensures Malloc(h, STACK_SIZE).0.blocks == [Block(FIRST, STACK_SIZE, false), Block(FIRST + 16408, 2080720, true)]
  {
    var m := h.blocks[0];
    assert Rounded(STACK_SIZE) == STACK_SIZE && FirstFit(h.blocks, STACK_SIZE) == 0;
    assert Carve(m, STACK_SIZE) == [Block(FIRST, STACK_SIZE, false), Block(FIRST + 16408, 2080720, true)];
  }

  // The state the run leads to, event by event.
  lemma HitState()
    requires WorldOk(OneFrame())
    ensures var w := RunEvents(OneFrame(), HIT_RUN);
            && w.sys.table.started && w.sys.table.current == 0
            && (forall i :: 0 < i < MAX_PROCESSES ==> w.sys.table.procs[i].state == Unused)
            && w.sys.heap.blocks == [SMALL, STACK, REST] && w.sys.table.procs[0].stack == STACK.Payload()
  {
    RunCons(OneFrame(), EMalloc(64), [ECreate(3, 4), EFree(FIRST + 24), EStart]);
    assert HIT_RUN == [EMalloc(64)] + [ECreate(3, 4), EFree(FIRST + 24), EStart];
    var w1 := After(OneFrame(), EMalloc(64));
    ThreeEvents(w1, ECreate(3, 4), EFree(FIRST + 24), EStart);
    var w2 := After(w1, ECreate(3, 4));
    var w3 := After(w2, EFree(FIRST + 24));
    HitMalloc();
    HitCreate(w1);
    HitFree(w2);
    HitStart(w3);
  }
}
