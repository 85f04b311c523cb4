/** What the invariant of runs means for stacks and contexts, and the round-robin bound. */
module SchedLaws {
  import opened Machine
  import opened HeapSpec
  import opened HeapOps
  import opened HeapRoom
  import opened HeapRuns
  import opened SchedSpec
  import opened SchedRuns

  // ---- stacks ----

  // The block behind the stack of a live process.
  lemma StackBlock(w: World, i: nat) returns (b: Block)
    requires WorldOk(w) && i < MAX_PROCESSES && w.sys.table.procs[i].state != Unused
    ensures b in Used(w.sys.heap.blocks) && b.Payload() == w.sys.table.procs[i].stack && b.size >= STACK_SIZE
  {
    var stack := w.sys.table.procs[i].stack;
    assert stack in w.live && w.live[stack] == STACK_SIZE;
    b := LiveBlock(ClientOf(w), stack);
    RoundedBounds(STACK_SIZE);
  }

  /** The stacks of two live processes do not overlap, header space included. */
  lemma StacksDisjoint(w: World, i: nat, j: nat)
    requires WorldOk(w) && i < MAX_PROCESSES && j < MAX_PROCESSES && i != j
    requires w.sys.table.procs[i].state != Unused && w.sys.table.procs[j].state != Unused
    ensures var (p, q) := (w.sys.table.procs[i].stack, w.sys.table.procs[j].stack);
            p + STACK_SIZE + HEADER_SIZE <= q || q + STACK_SIZE + HEADER_SIZE <= p
  {
    var (p, q) := (w.sys.table.procs[i].stack, w.sys.table.procs[j].stack);
    assert p in w.live && w.live[p] == STACK_SIZE && q in w.live && w.live[q] == STACK_SIZE;
    OtherStacksDiffer(w, i);
    if p < q {
      LivePayloadsDisjoint(ClientOf(w), p, q);
    } else {
      LivePayloadsDisjoint(ClientOf(w), q, p);
    }
  }

  lemma StackTopInside(stack: nat)
    ensures StackTop(stack) % 16 == 0 && stack < StackTop(stack) <= stack + STACK_SIZE
  {
  }

  /** A new process starts with a 16-byte aligned stack pointer inside its own fresh block. */
  lemma InitialStackPointer(w: World, entry: nat, arg: nat) returns (b: Block)
    requires BooksOk(w) && Create(w.sys, entry, arg).1 >= 0
    ensures var (s, k) := Create(w.sys, entry, arg);
            && k < MAX_PROCESSES
            && var rsp := s.table.procs[k].context.rsp;
               && rsp % 16 == 0 && b.Payload() < rsp <= b.End()
               && s.table.procs[k].stack == b.Payload()
               && Used(s.heap.blocks) == Used(w.sys.heap.blocks) + {b} && b !in Used(w.sys.heap.blocks)
  {
    CreateCases(w, entry, arg);
    b := Granted(w.sys.heap, STACK_SIZE);
    MallocGrants(w.sys.heap, STACK_SIZE);
    RoundedBounds(STACK_SIZE);
    StackTopInside(b.Payload());
  }

  /** Exit releases exactly the block of the exiting process; only an idle process then takes a new one. */
  lemma ExitReleases(w: World) returns (b: Block)
    requires WorldOk(w) && w.sys.table.current >= 0
    ensures b in Used(w.sys.heap.blocks) && b.Payload() == w.sys.table.procs[w.sys.table.current].stack
    ensures Releasable(w.sys) && Used(Vacate(w.sys).heap.blocks) == Used(w.sys.heap.blocks) - {b}
    ensures FirstOther(Vacate(w.sys).table.procs, w.sys.table.current, 0) < MAX_PROCESSES ==>
              Exit(w.sys).heap == Vacate(w.sys).heap
  {
    CurrentReleasable(w);
    assert w.sys.table.procs[w.sys.table.current].state == Running;
    b := StackBlock(w, w.sys.table.current);
    FreeReleases(w.sys.heap, b);
  }

  /** While the current process exits, the stacks of the others stay blocks in use. */
  lemma OtherStacksStay(w: World, i: nat) returns (b: Block)
    requires WorldOk(w) && w.sys.table.current >= 0
    requires i < MAX_PROCESSES && i != w.sys.table.current && w.sys.table.procs[i].state != Unused
    ensures Releasable(w.sys) && b in Used(Vacate(w.sys).heap.blocks)
    ensures b.Payload() == w.sys.table.procs[i].stack && b.size >= STACK_SIZE
  {
    b := StackBlock(w, i);
    var c := ExitReleases(w);
    StacksDisjoint(w, i, w.sys.table.current);
  }

  lemma StackServed(h: Heap)
    ensures Malloc(h, STACK_SIZE).1 != 0 <==> h.taken < |h.pool| || Room(h.blocks, STACK_SIZE)
  {
    MallocNull(h, STACK_SIZE);
    assert Rounded(STACK_SIZE) == STACK_SIZE;
  }

  // After the last process has given back its stack, an idle one is created, or the scheduler stops.
  lemma LastResume(w: World)
    requires WorldOk(w) && w.sys.table.current >= 0
    requires forall i :: 0 <= i < MAX_PROCESSES && i != w.sys.table.current ==> w.sys.table.procs[i].state == Unused
    ensures Releasable(w.sys)
    ensures var h := Vacate(w.sys).heap;
            Exit(w.sys).table.started <==> h.taken < |h.pool| || Room(h.blocks, STACK_SIZE)
  {
    CurrentReleasable(w);
    VacatedOk(w);
    var s1 := Vacate(w.sys);
    var ps := s1.table.procs;
    var next := FirstOther(ps, s1.table.current, 0);
    assert next == MAX_PROCESSES;
    assert ps[w.sys.table.current].state == Unused;
    assert FirstIn(ps, Unused) < MAX_PROCESSES;
    StackServed(s1.heap);
  }

  /** When the last process exits, the scheduler goes on if and only if a frame is left, or some free block fits a
    * stack, or the stack of the exiting process fits one together with its free neighbours: its own size is not
    * enough, since malloc asks for room for one more header. */
  lemma LastExit(w: World)
    requires WorldOk(w) && w.sys.table.current >= 0
    requires forall i :: 0 <= i < MAX_PROCESSES && i != w.sys.table.current ==> w.sys.table.procs[i].state == Unused
    ensures Releasable(w.sys)
    ensures var h := w.sys.heap;
            var k := IndexOf(h.blocks, w.sys.table.procs[w.sys.table.current].stack);
            && k < |h.blocks|
            && (Exit(w.sys).table.started <==>
                h.taken < |h.pool| || Room(h.blocks, STACK_SIZE) || RoomAt(h.blocks, k) >= STACK_SIZE + HEADER_SIZE)
  {
    var h := w.sys.heap;
    LastResume(w);
    assert w.sys.table.procs[w.sys.table.current].state == Running;
    var b := StackBlock(w, w.sys.table.current);
    FreeReleases(h, b);
    var k := IndexOf(h.blocks, b.Payload());
    assert Vacate(w.sys).heap.blocks == Release(h.blocks, k);
    RoomAfterRelease(h.blocks, k, STACK_SIZE);
  }

  // A machine of one frame: a process is created and started, and takes all that is left.
  const STUCK_RUN: seq<Event> := [ECreate(3, 4), EStart, EMalloc(2080696)]

  function OneFrame(): World {
    Boot([0x20_0000], 0x20_0000, 0x40_0000, 1, 2)
  }

  /** A run after which the exit of the last process stops the scheduler, though it frees a whole stack. */
  lemma LastExitStops()
    ensures WorldOk(OneFrame())
    ensures var w := RunEvents(OneFrame(), STUCK_RUN);
            w.sys.table.started && Releasable(w.sys) && !Exited(w).sys.table.started
  {
    BootOk([0x20_0000], 0x20_0000, 0x40_0000, 1, 2);
    StuckState();
    var w := RunEvents(OneFrame(), STUCK_RUN);
    LastExit(w);
    var h := w.sys.heap;
    assert h.blocks[0] == STACK_BLOCK && IndexOf(h.blocks, STACK_BLOCK.Payload()) == 0;
    assert !Room(h.blocks, STACK_SIZE) && RoomAt(h.blocks, 0) == STACK_SIZE;
  }

  // The state it leads to, event by event.
  const STACK_BLOCK: Block := Block(PhyToVirt(0x20_0000), STACK_SIZE, false)
  const REST_BLOCK: Block := Block(PhyToVirt(0x20_0000) + 16408, 2080720, true)

  lemma StuckCreate()
    ensures var w := Created(OneFrame(), 3, 4);
            && w.sys.heap.blocks == [STACK_BLOCK, REST_BLOCK] && w.sys.heap.taken == 1 && w.sys.heap.pool == [0x20_0000]
            && w.sys.table == OneFrame().sys.table.(
                 procs := OneFrame().sys.table.procs[0 := NewProcess(1, STACK_BLOCK.Payload(), 3, 4, 1)], nextPid := 2)
  {
    var h := OneFrame().sys.heap;
    assert h.blocks == [] && h.taken == 0 && h.pool == [0x20_0000];
    assert Rounded(STACK_SIZE) == STACK_SIZE && FirstFit(h.blocks, STACK_SIZE) == 0;
    assert Carve(Fresh(0x20_0000), STACK_SIZE) == [STACK_BLOCK, REST_BLOCK];
    assert FirstIn(OneFrame().sys.table.procs, Unused) == 0;
  }

  lemma StuckStart(w: World)
    requires w == Created(OneFrame(), 3, 4)
    ensures var t := Started(w).sys.table;
            && Started(w).sys.heap == w.sys.heap && t.started && t.current == 0 && |t.procs| == MAX_PROCESSES
            && t.procs[0].stack == STACK_BLOCK.Payload()
            && forall i :: 0 < i < MAX_PROCESSES ==> t.procs[i].state == Unused
  {
    StuckCreate();
    assert w.sys.table.procs[0].state == Ready;
    assert FirstIn(w.sys.table.procs, Ready) == 0;
  }

  lemma StuckMalloc(h: Heap)
    requires h.blocks == [STACK_BLOCK, REST_BLOCK]
    ensures Malloc(h, 2080696).1 != 0
    ensures var h' := Malloc(h, 2080696).0;
            h'.blocks == [STACK_BLOCK, REST_BLOCK.(free := false)] && h'.taken == h.taken && h'.pool == h.pool
  {
    var r := 2080696;
    assert Rounded(r) == r;
    assert h.blocks[1..][0] == REST_BLOCK && Fits(REST_BLOCK, r) && FirstFit(h.blocks, r) == 1;
    assert Carve(REST_BLOCK, r) == [REST_BLOCK.(free := false)];
  }

  lemma StuckState()
    requires WorldOk(OneFrame())
    ensures var w := RunEvents(OneFrame(), STUCK_RUN);
            && w.sys.table.started && w.sys.table.current == 0
            && (forall i :: 0 < i < MAX_PROCESSES ==> w.sys.table.procs[i].state == Unused)
            && w.sys.heap.taken == 1 == |w.sys.heap.pool|
            && w.sys.heap.blocks == [STACK_BLOCK, REST_BLOCK.(free := false)]
            && w.sys.table.procs[0].stack == STACK_BLOCK.Payload()
  {
    ThreeEvents(OneFrame(), ECreate(3, 4), EStart, EMalloc(2080696));
    var w1 := Created(OneFrame(), 3, 4);
    StuckCreate();
    StuckStart(w1);
    StuckMalloc(Started(w1).sys.heap);
    TakesAll(Started(w1), 2080696);
  }

  lemma TakesAll(w: World, n: nat)
    requires TableShape(w.sys.table) && Releasable(w.sys) && Malloc(w.sys.heap, n).1 != 0
    ensures After(w, EMalloc(n)).sys == w.sys.(heap := Malloc(w.sys.heap, n).0)
  {
  }

  lemma RunCons(w: World, e: Event, es: seq<Event>)
    requires WorldOk(w)
    ensures Releasable(w.sys) && WorldOk(After(w, e))
    ensures RunEvents(w, [e] + es) == RunEvents(After(w, e), es)
  {
    AfterOk(w, e);
    assert ([e] + es)[1..] == es;
  }

  lemma ThreeEvents(w: World, a: Event, b: Event, c: Event)
    requires WorldOk(w)
    ensures Releasable(w.sys)
    ensures var w1 := After(w, a);
            && WorldOk(w1) && Releasable(w1.sys)
            && var w2 := After(w1, b);
               && WorldOk(w2) && Releasable(w2.sys) && WorldOk(After(w2, c))
               && RunEvents(w, [a, b, c]) == After(w2, c)
  {
    RunCons(w, a, [b, c]);
    var w1 := After(w, a);
    RunCons(w1, b, [c]);
    var w2 := After(w1, b);
    RunCons(w2, c, []);
    assert [a, b, c] == [a] + [b, c] && [b, c] == [b] + [c] && [c] == [c] + [];
    assert RunEvents(After(w2, c), []) == After(w2, c);
  }

  /** With no process left and nothing held, all the memory taken is one free block: no stack leaks. */
  lemma NothingLeaks(w: World)
    requires WorldOk(w) && w.held == {} && w.sys.heap.taken > 0
    requires forall i :: 0 <= i < MAX_PROCESSES ==> w.sys.table.procs[i].state == Unused
    ensures var h := w.sys.heap; h.blocks == [Block(Base(h), h.taken * PAGE_2M_SIZE - HEADER_SIZE, true)]
  {
    assert Stacks(w.sys.table.procs) == {};
    assert w.live.Keys == {};
    assert ClientOf(w).live == map[];
    AllFreed(ClientOf(w));
  }

  // ---- who runs ----

  /** Until the pid counter has wrapped, the current pid is 0 exactly as long as the scheduler is not started; then it
    * is the pid of the one running process, and of no other live process. */
  lemma CurrentPidNames(w: World)
    requires WorldOk(w) && w.created < W64 - 1
    ensures var t := w.sys.table;
            && (CurrentPid(t) != 0 <==> t.started)
            && forall i :: 0 <= i < MAX_PROCESSES && t.procs[i].state != Unused ==>
                 (t.procs[i].state == Running <==> t.procs[i].pid == CurrentPid(t))
  {
    var t := w.sys.table;
    if t.current >= 0 {
      assert t.procs[t.current].state == Running;
    }
  }

  // ---- contexts ----

  ghost predicate Undisturbed(p: Process, q: Process) {
    q.pid == p.pid && q.stack == p.stack && q.stackSize == p.stackSize && q.context == p.context
  }

  // A step other than the creation into its slot leaves a slot that is not current as it is, but for its state.
  lemma CreateUndisturbed(w: World, entry: nat, arg: nat, p: nat)
    requires BooksOk(w) && p < MAX_PROCESSES && w.sys.table.procs[p].state != Unused
    ensures var s := Create(w.sys, entry, arg).0;
            |s.table.procs| == MAX_PROCESSES && s.table.procs[p] == w.sys.table.procs[p]
  {
    CreateCases(w, entry, arg);
  }

  lemma YieldUndisturbed(t: Table, saved: Context, p: nat)
    requires TableShape(t) && p < MAX_PROCESSES && p != t.current
    ensures Undisturbed(t.procs[p], Yield(t, saved).procs[p])
  {
  }

  lemma ExitUndisturbed(w: World, p: nat)
    requires WorldOk(w) && p < MAX_PROCESSES && p != w.sys.table.current
    requires w.sys.table.procs[p].state != Unused
    ensures Releasable(w.sys) && |Exit(w.sys).table.procs| == MAX_PROCESSES
    ensures Undisturbed(w.sys.table.procs[p], Exit(w.sys).table.procs[p])
  {
    CurrentReleasable(w);
    if w.sys.table.current >= 0 {
      VacatedOk(w);
      CreateUndisturbed(Vacated(w), w.sys.table.idle, 0, p);
      CreateCases(Vacated(w), w.sys.table.idle, 0);
    }
  }

  lemma StartUndisturbed(w: World, p: nat)
    requires WorldOk(w) && p < MAX_PROCESSES && w.sys.table.procs[p].state != Unused
    ensures |Start(w.sys).table.procs| == MAX_PROCESSES
    ensures Undisturbed(w.sys.table.procs[p], Start(w.sys).table.procs[p])
  {
    CreateUndisturbed(w, w.sys.table.idle, 0, p);
  }

  /** No event touches the pid, the stack or the saved context of a live process that is not the current one. */
  lemma OthersUndisturbed(w: World, e: Event, p: nat)
    requires WorldOk(w) && p < MAX_PROCESSES && p != w.sys.table.current
    requires w.sys.table.procs[p].state != Unused
    ensures Releasable(w.sys) && |After(w, e).sys.table.procs| == MAX_PROCESSES
    ensures Undisturbed(w.sys.table.procs[p], After(w, e).sys.table.procs[p])
  {
    CurrentReleasable(w);
    match e
    case ECreate(entry, arg) => CreateUndisturbed(w, entry, arg, p);
    case EStart => StartUndisturbed(w, p);
    case EExit => ExitUndisturbed(w, p);
    case EYield(saved) => YieldUndisturbed(w.sys.table, saved, p);
    case EMalloc(n) =>
    case EFree(q) =>
  }

  // ---- round robin ----

  // How far slot p lies behind slot c, cyclically.
  function Ahead(c: int, p: nat): nat
    requires 0 <= c < MAX_PROCESSES && p < MAX_PROCESSES
  {
    if p >= c then p - c else p + MAX_PROCESSES - c
  }

  function Distance(t: Table, p: nat): nat
    requires TableShape(t) && t.current >= 0 && p < MAX_PROCESSES
  {
    Ahead(t.current, p)
  }

  lemma SlotAdd(c: nat, a: nat, b: nat)
    ensures Slot(Slot(c, a), b) == Slot(c, a + b)
  {
    var q, r := (c + a) / MAX_PROCESSES, (c + a) % MAX_PROCESSES;
    assert c + (a + b) == MAX_PROCESSES * q + (r + b);
  }

  lemma SlotValue(c: nat, i: nat)
    requires c < MAX_PROCESSES && i <= MAX_PROCESSES
    ensures Slot(c, i) == if c + i < MAX_PROCESSES then c + i else c + i - MAX_PROCESSES
  {
  }

  // Offsets of the scan that starts behind slot c, as distances from c.
  lemma SlotAhead(c: nat, p: nat, j: nat)
    requires c < MAX_PROCESSES && p < MAX_PROCESSES && p != c && j < MAX_PROCESSES
    ensures Slot(Slot(c, 1), Ahead(c, p) - 1) == p
    ensures j < Ahead(c, p) ==>
              var r := Slot(Slot(c, 1), j);
              if r == p then j + 1 == Ahead(c, p) else r != c && Ahead(r, p) == Ahead(c, p) - (j + 1)
  {
    SlotAdd(c, 1, j);
    SlotValue(c, 1 + j);
    SlotAdd(c, 1, Ahead(c, p) - 1);
    SlotValue(c, Ahead(c, p));
  }

  // The scan stops at p or earlier.
  lemma ScanReaches(ps: seq<Process>, c: nat, p: nat) returns (j: nat)
    requires |ps| == MAX_PROCESSES && c < MAX_PROCESSES && p < MAX_PROCESSES && p != c && ps[p].state == Ready
    ensures j < Ahead(c, p) && NextReady(ps, Slot(c, 1), 0) == Slot(Slot(c, 1), j)
    ensures forall l :: 0 <= l < j ==> ps[Slot(Slot(c, 1), l)].state != Ready
  {
    var start := Slot(c, 1);
    SlotAhead(c, p, 0);
    NextReadyFirst(ps, start, 0);
    assert ps[Slot(start, Ahead(c, p) - 1)].state == Ready;
    j :| 0 <= j < MAX_PROCESSES && NextReady(ps, start, 0) == Slot(start, j) &&
         forall l :: 0 <= l < j ==> ps[Slot(start, l)].state != Ready;
  }

  /** One yield either makes a ready process current or brings the current slot strictly closer to it. */
  lemma YieldApproaches(t: Table, saved: Context, p: nat)
    requires SlotsOk(t.procs) && RunningOk(t) && t.started
    requires p < MAX_PROCESSES && t.procs[p].state == Ready
    ensures var t' := Yield(t, saved);
            && t'.current >= 0
            && (t'.current == p || (t'.procs[p].state == Ready && Distance(t', p) < Distance(t, p)))
  {
    assert p != t.current;
    var j := ScanReaches(StepBack(t.procs, t.current), t.current, p);
    SlotAhead(t.current, p, j);
  }

  function Yields(es: seq<Event>): nat {
    if es == [] then 0 else (if es[0].EYield? then 1 else 0) + Yields(es[1..])
  }

  ghost predicate NoExit(es: seq<Event>) {
    forall i :: 0 <= i < |es| ==> es[i] != EExit
  }

  // An event that is neither a yield nor an exit leaves a started table with the same queue.
  lemma QueueKept(w: World, e: Event, p: nat)
    requires WorldOk(w) && w.sys.table.started && e != EExit && !e.EYield?
    requires p < MAX_PROCESSES && w.sys.table.procs[p].state != Unused
    ensures Releasable(w.sys)
    ensures var (t, t') := (w.sys.table, After(w, e).sys.table);
            && TableShape(t') && t'.started && t'.current == t.current && t'.procs[p] == t.procs[p]
  {
    CurrentReleasable(w);
    match e
    case ECreate(entry, arg) => CreateUndisturbed(w, entry, arg, p);
    case EStart => assert Started(w) == w;
    case EMalloc(n) => HeapEventKeeps(w, e);
    case EFree(q) => HeapEventKeeps(w, e);
  }

  lemma HeapEventKeeps(w: World, e: Event)
    requires TableShape(w.sys.table) && Releasable(w.sys) && (e.EMalloc? || e.EFree?)
    ensures After(w, e).sys.table == w.sys.table
  {
  }

  // What an event other than an exit does to a ready slot.
  lemma EventApproaches(w: World, e: Event, p: nat)
    requires WorldOk(w) && w.sys.table.started && e != EExit
    requires p < MAX_PROCESSES && w.sys.table.procs[p].state == Ready
    ensures Releasable(w.sys)
    ensures var (t, t') := (w.sys.table, After(w, e).sys.table);
            && TableShape(t') && t'.started && t'.current >= 0
            && (t'.current == p ||
                (t'.procs[p].state == Ready && Distance(t', p) + (if e.EYield? then 1 else 0) <= Distance(t, p)))
  {
    CurrentReleasable(w);
    if e.EYield? {
      YieldApproaches(w.sys.table, e.saved, p);
    } else {
      QueueKept(w, e, p);
    }
  }

  /** Round-robin bound: in any stretch without an exit, whatever is created or allocated in between, a ready
    * process becomes current by the time as many yields have happened as its cyclic distance, so at most 7. */
  lemma {:induction false} RoundRobin(w: World, es: seq<Event>, p: nat) returns (k: nat)
    requires WorldOk(w) && w.sys.table.started && NoExit(es)
    requires p < MAX_PROCESSES && w.sys.table.procs[p].state == Ready
    requires Yields(es) >= Distance(w.sys.table, p)
    ensures k <= |es| && RunEvents(w, es[..k]).sys.table.current == p
    ensures Distance(w.sys.table, p) <= 7
    decreases |es|
  {
    assert p != w.sys.table.current;
    assert Distance(w.sys.table, p) > 0;
    var e := es[0];
    EventApproaches(w, e, p);
    AfterOk(w, e);
    var w' := After(w, e);
    if w'.sys.table.current == p {
      k := 1;
      assert es[..1] == [e];
      assert RunEvents(w, [e]) == RunEvents(w', []);
    } else {
      assert NoExit(es[1..]);
      var k' := RoundRobin(w', es[1..], p);
      k := k' + 1;
      assert es[..k][0] == e && es[..k][1..] == es[1..][..k'];
    }
  }

  // ---- the exact turn ----

  // How many of the d slots behind slot c are ready.
  function ReadyWithin(ps: seq<Process>, c: nat, d: nat): nat
    requires |ps| == MAX_PROCESSES
  {
    if d == 0 then 0
    else (if ps[Slot(c, d)].state == Ready then 1 else 0) + ReadyWithin(ps, c, d - 1)
  }

  lemma {:induction false} ReadySplit(ps: seq<Process>, c: nat, e: nat, d: nat)
    requires |ps| == MAX_PROCESSES && e <= d
    ensures ReadyWithin(ps, c, d) == ReadyWithin(ps, c, e) + ReadyWithin(ps, Slot(c, e), d - e)
    decreases d
  {
    if e < d {
      ReadySplit(ps, c, e, d - 1);
      SlotAdd(c, e, d - e);
    }
  }

  lemma {:induction false} ReadyAgree(ps: seq<Process>, qs: seq<Process>, c: nat, d: nat)
    requires |ps| == |qs| == MAX_PROCESSES
    requires forall i :: 1 <= i <= d ==> (ps[Slot(c, i)].state == Ready <==> qs[Slot(c, i)].state == Ready)
    ensures ReadyWithin(ps, c, d) == ReadyWithin(qs, c, d)
  {
    if d > 0 {
      ReadyAgree(ps, qs, c, d - 1);
    }
  }

  lemma {:induction false} ReadyNone(ps: seq<Process>, c: nat, d: nat)
    requires |ps| == MAX_PROCESSES && forall i :: 1 <= i <= d ==> ps[Slot(c, i)].state != Ready
    ensures ReadyWithin(ps, c, d) == 0
  {
    if d > 0 {
      ReadyNone(ps, c, d - 1);
    }
  }

  // The place of slot p in the queue: ready slots behind the current one, up to and including p.
  function Place(t: Table, p: nat): nat
    requires TableShape(t) && t.current >= 0 && p < MAX_PROCESSES
  {
    ReadyWithin(t.procs, t.current, Distance(t, p))
  }

  // No slot at distance 1 to 7 from c is c itself.
  lemma SlotsApart(c: nat)
    requires c < MAX_PROCESSES
    ensures forall i :: 1 <= i < MAX_PROCESSES ==> Slot(c, i) != c
  {
  }

  // The slots the scan passes over are not ready, the one it stops at is.
  lemma ScanCounts(ps: seq<Process>, c: nat, j: nat)
    requires |ps| == MAX_PROCESSES && j < MAX_PROCESSES
    requires NextReady(ps, Slot(c, 1), 0) == Slot(Slot(c, 1), j)
    requires forall l :: 0 <= l < j ==> ps[Slot(Slot(c, 1), l)].state != Ready
    ensures ReadyWithin(ps, c, j + 1) == 1
  {
    NextReadyFirst(ps, Slot(c, 1), 0);
    forall i | 1 <= i <= j ensures ps[Slot(c, i)].state != Ready {
      SlotAdd(c, 1, i - 1);
    }
    SlotAdd(c, 1, j);
    ReadyNone(ps, c, j);
  }

  // Tables that agree on readiness outside slots c and r count the same between r and p.
  lemma AgreeBetween(ps: seq<Process>, qs: seq<Process>, c: nat, r: nat, e: nat, d: nat)
    requires |ps| == |qs| == MAX_PROCESSES && c < MAX_PROCESSES && e <= d < MAX_PROCESSES && r == Slot(c, e)
    requires forall i :: 0 <= i < MAX_PROCESSES && i != c && i != r ==> (ps[i].state == Ready <==> qs[i].state == Ready)
    ensures ReadyWithin(qs, r, d - e) == ReadyWithin(ps, r, d - e)
  {
    SlotsApart(c);
    SlotsApart(r);
    forall i | 1 <= i <= d - e ensures ps[Slot(r, i)].state == Ready <==> qs[Slot(r, i)].state == Ready {
      SlotAdd(c, e, i);
      assert Slot(c, e + i) != c && Slot(r, i) != r;
    }
    ReadyAgree(ps, qs, r, d - e);
  }

  // The first ready slot behind c is r, at distance e; ps and qs are the tables before and after the switch to it.
  lemma PlaceAfterScan(ps: seq<Process>, qs: seq<Process>, c: nat, r: nat, e: nat, d: nat)
    requires |ps| == |qs| == MAX_PROCESSES && c < MAX_PROCESSES && e <= d < MAX_PROCESSES
    requires r == Slot(c, e) && ReadyWithin(ps, c, e) == 1
    requires forall i :: 0 <= i < MAX_PROCESSES && i != c && i != r ==> (ps[i].state == Ready <==> qs[i].state == Ready)
    ensures ReadyWithin(ps, c, d) == 1 + ReadyWithin(qs, r, d - e)
  {
    ReadySplit(ps, c, e, d);
    AgreeBetween(ps, qs, c, r, e, d);
  }

  // Where the scan stops, as a distance e from c.
  lemma ScanStops(ps: seq<Process>, c: nat, p: nat) returns (e: nat)
    requires |ps| == MAX_PROCESSES && c < MAX_PROCESSES && p < MAX_PROCESSES && p != c && ps[p].state == Ready
    ensures var r := NextReady(ps, Slot(c, 1), 0);
            && 0 < e <= Ahead(c, p) && r == Slot(c, e) && r != c && ReadyWithin(ps, c, e) == 1
            && if r == p then e == Ahead(c, p) else Ahead(r, p) == Ahead(c, p) - e
  {
    var j := ScanReaches(ps, c, p);
    SlotAhead(c, p, j);
    SlotAdd(c, 1, j);
    ScanCounts(ps, c, j);
    e := j + 1;
  }

  // Going from t to t' switched to the first ready slot behind the current one, at distance e; p is not before it.
  ghost predicate Switched(t: Table, t': Table, e: nat, p: nat)
    requires p < MAX_PROCESSES
  {
    && TableShape(t) && TableShape(t') && t.current >= 0 && t'.current >= 0
    && var ps := StepBack(t.procs, t.current);
       && 0 < e <= Distance(t, p) && t'.current == Slot(t.current, e) && ReadyWithin(ps, t.current, e) == 1
       && (if t'.current == p then e == Distance(t, p) else Distance(t', p) == Distance(t, p) - e)
       && (forall i :: 0 <= i < MAX_PROCESSES && i != t.current ==> ps[i] == t.procs[i])
       && forall i :: 0 <= i < MAX_PROCESSES && i != t.current && i != t'.current ==> t'.procs[i] == ps[i]
  }

  lemma YieldSwitches(t: Table, saved: Context, p: nat) returns (e: nat)
    requires SlotsOk(t.procs) && RunningOk(t) && t.started
    requires p < MAX_PROCESSES && t.procs[p].state == Ready
    ensures p != t.current && Switched(t, Yield(t, saved), e, p)
  {
    e := ScanStops(StepBack(t.procs, t.current), t.current, p);
  }

  lemma SwitchAdvances(t: Table, t': Table, e: nat, p: nat)
    requires p < MAX_PROCESSES && Switched(t, t', e, p) && t.procs[p].state == Ready && p != t.current
    ensures if t'.current == p then Place(t, p) == 1
            else t'.procs[p].state == Ready && Place(t', p) == Place(t, p) - 1 && Place(t', p) > 0
  {
    var c, ps, d := t.current, StepBack(t.procs, t.current), Distance(t, p);
    PlaceAfterScan(ps, t'.procs, c, t'.current, e, d);
    ReadyAgreeBehind(t.procs, ps, c, p);
    if t'.current != p {
      PlacePositive(t', p);
    }
  }

  /** One yield moves a ready process up exactly one place in the queue; from the first place it becomes current. */
  lemma YieldAdvances(t: Table, saved: Context, p: nat)
    requires SlotsOk(t.procs) && RunningOk(t) && t.started
    requires p < MAX_PROCESSES && t.procs[p].state == Ready
    ensures var t' := Yield(t, saved);
            && TableShape(t') && t'.current >= 0
            && if t'.current == p then Place(t, p) == 1
               else t'.procs[p].state == Ready && Place(t', p) == Place(t, p) - 1 && Place(t', p) > 0
  {
    var e := YieldSwitches(t, saved, p);
    SwitchAdvances(t, Yield(t, saved), e, p);
  }

  lemma ReadyAgreeBehind(ps: seq<Process>, qs: seq<Process>, c: nat, p: nat)
    requires |ps| == |qs| == MAX_PROCESSES && c < MAX_PROCESSES && p < MAX_PROCESSES
    requires forall i :: 0 <= i < MAX_PROCESSES && i != c ==> ps[i] == qs[i]
    ensures ReadyWithin(ps, c, Ahead(c, p)) == ReadyWithin(qs, c, Ahead(c, p))
  {
    SlotsApart(c);
    ReadyAgree(ps, qs, c, Ahead(c, p));
  }

  function RunYields(t: Table, saves: seq<Context>): Table
    requires TableShape(t)
    decreases |saves|
  {
    if saves == [] then t else RunYields(Yield(t, saves[0]), saves[1..])
  }

  /** With nothing created in between, a ready process becomes current after exactly as many yields as its place
    * in the queue, and not before. */
  lemma {:induction false} ExactTurn(w: World, saves: seq<Context>, p: nat)
    requires WorldOk(w) && w.sys.table.started
    requires p < MAX_PROCESSES && w.sys.table.procs[p].state == Ready
    requires |saves| <= Place(w.sys.table, p)
    ensures RunYields(w.sys.table, saves).current == p <==> |saves| == Place(w.sys.table, p)
    decreases |saves|
  {
    var t := w.sys.table;
    assert p != t.current;
    if saves == [] {
      PlacePositive(t, p);
    } else {
      YieldAdvances(t, saves[0], p);
      YieldedOk(w, saves[0]);
      var w' := After(w, EYield(saves[0]));
      if w'.sys.table.current == p {
        assert saves[1..] == [];
      } else {
        ExactTurn(w', saves[1..], p);
      }
    }
  }

  lemma PlacePositive(t: Table, p: nat)
    requires TableShape(t) && t.current >= 0 && p < MAX_PROCESSES && p != t.current && t.procs[p].state == Ready
    ensures Place(t, p) > 0
  {
    SlotAhead(t.current, p, 0);
    SlotAdd(t.current, 1, Distance(t, p) - 1);
  }
}
