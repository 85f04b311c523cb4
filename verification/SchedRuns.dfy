/** Whole runs of the scheduler together with the heap it takes stacks from, and that its processes use too. */
module SchedRuns {
  import opened Machine
  import opened HeapSpec
  import opened HeapOps
  import opened HeapRuns
  import opened SchedSpec

  /** The kernel, with the books of a run: the live pointers with their requested sizes, those among them that
    * processes allocated for themselves, and how many processes were ever created. */
  datatype World = World(sys: Sys, live: map<nat, nat>, held: set<nat>, grants: nat, created: nat)

  datatype Event =
    | ECreate(entry: nat, arg: nat)
    | EStart
    | EYield(saved: Context)
    | EExit
    | EMalloc(n: nat)
    | EFree(p: nat)

  function ClientOf(w: World): Client {
    Client(w.sys.heap, w.live, w.grants)
  }

  function Boot(pool: seq<nat>, lo: nat, hi: nat, wrapper: nat, idle: nat): World {
    var empty := Process(0, Unused, Context(0, 0, 0, 0, 0, 0, 0, 0), 0, 0);
    World(Sys(Init(pool, lo, hi).heap, Table(seq(MAX_PROCESSES, i => empty), -1, 1, false, wrapper, idle)),
          map[], {}, 0, 0)
  }

  // The books after process_create.
  function Created(w: World, entry: nat, arg: nat): World {
    var (s, k) := Create(w.sys, entry, arg);
    if k < 0 then w.(sys := s)
    else World(s, w.live[s.table.procs[k].stack := STACK_SIZE], w.held, w.grants + 1, w.created + 1)
  }

  // The books after the exiting process has given back its stack.
  function Vacated(w: World): World
    requires TableShape(w.sys.table) && w.sys.table.current >= 0 && Releasable(w.sys)
  {
    var stack := w.sys.table.procs[w.sys.table.current].stack;
    w.(sys := Vacate(w.sys), live := w.live - {stack})
  }

  function Started(w: World): World {
    var t := w.sys.table;
    if t.started then w
    else
      var w1 := if FirstIn(t.procs, Ready) == |t.procs| then Created(w, t.idle, 0) else w;
      w1.(sys := Start(w.sys))
  }

  function Exited(w: World): World
    requires TableShape(w.sys.table) && Releasable(w.sys)
  {
    if w.sys.table.current < 0 then w
    else
      var w1 := Vacated(w);
      var next := FirstOther(w1.sys.table.procs, w1.sys.table.current, 0);
      var w2 := if next < MAX_PROCESSES then w1 else Created(w1, w1.sys.table.idle, 0);
      w2.(sys := Exit(w.sys))
  }

  function After(w: World, e: Event): World
    requires TableShape(w.sys.table) && Releasable(w.sys)
  {
    match e
    case ECreate(entry, arg) => Created(w, entry, arg)
    case EStart => Started(w)
    case EYield(saved) => w.(sys := w.sys.(table := Yield(w.sys.table, saved)))
    case EExit => Exited(w)
    case EMalloc(n) =>
      var (h, p) := Malloc(w.sys.heap, n);
      if p == 0 then w
      else World(w.sys.(heap := h), w.live[p := n], w.held + {p}, w.grants + 1, w.created)
    case EFree(p) =>
      // A process frees only what it holds.
      if p in w.held && Listed(w.sys.heap, p) then
        w.(sys := w.sys.(heap := Free(w.sys.heap, p)), live := w.live - {p}, held := w.held - {p})
      else w
  }

  // ---- what every run keeps ----

  ghost predicate Vacant(p: Process) {
    p.state == Unused && p.pid == 0 && p.stack == 0 && p.stackSize == 0
  }

  ghost predicate Alive(p: Process) {
    (p.state == Ready || p.state == Running) && p.stack != 0 && p.stackSize == STACK_SIZE
  }

  ghost predicate SlotsOk(ps: seq<Process>) {
    |ps| == MAX_PROCESSES && forall i :: 0 <= i < |ps| ==> Vacant(ps[i]) || Alive(ps[i])
  }

  /** Started: exactly one slot runs, and it is the current one. Not started: none runs, and current is -1. */
  ghost predicate RunningOk(t: Table)
    requires |t.procs| == MAX_PROCESSES
  {
    && TableShape(t) && (t.started <==> t.current >= 0)
    && forall i :: 0 <= i < |t.procs| ==> (t.procs[i].state == Running <==> i == t.current)
  }

  /** Until the 64-bit counter has wrapped, pids in use are non-zero, distinct and below the next one. */
  ghost predicate PidsOk(t: Table, created: nat)
    requires |t.procs| == MAX_PROCESSES
  {
    created < W64 - 1 ==>
      && t.nextPid == created + 1
      && (forall i :: 0 <= i < MAX_PROCESSES && t.procs[i].state != Unused ==> 0 < t.procs[i].pid < t.nextPid)
      && (forall i, j :: 0 <= i < j < MAX_PROCESSES && t.procs[i].state != Unused && t.procs[j].state != Unused ==>
            t.procs[i].pid != t.procs[j].pid)
  }

  ghost function Stacks(ps: seq<Process>): set<nat> {
    set i: nat | i < |ps| && ps[i].state != Unused :: ps[i].stack
  }

  /** Every live block is a process's own or the stack of exactly one process: no stack leaks or is shared. */
  ghost predicate StacksOk(w: World) {
    var ps := w.sys.table.procs;
    && w.live.Keys == w.held + Stacks(ps) && w.held !! Stacks(ps)
    && (forall i :: 0 <= i < |ps| && ps[i].state != Unused ==>
          ps[i].stack in w.live && w.live[ps[i].stack] == STACK_SIZE)
    && (forall i, j :: 0 <= i < j < |ps| && ps[i].state != Unused && ps[j].state != Unused ==>
          ps[i].stack != ps[j].stack)
  }

  // Everything but who is running.
  ghost predicate BooksOk(w: World) {
    && ClientOk(ClientOf(w)) && SlotsOk(w.sys.table.procs)
    && PidsOk(w.sys.table, w.created) && StacksOk(w)
  }

  ghost predicate WorldOk(w: World) {
    BooksOk(w) && RunningOk(w.sys.table)
  }

  lemma BootOk(pool: seq<nat>, lo: nat, hi: nat, wrapper: nat, idle: nat)
    requires PoolOk(pool, lo, hi) && Contiguous(pool)
    ensures WorldOk(Boot(pool, lo, hi, wrapper, idle))
  {
    InitOk(pool, lo, hi);
  }

  // ---- changes that leave every slot with its owner ----

  ghost predicate SameOwner(p: Process, q: Process) {
    && q.pid == p.pid && q.stack == p.stack && q.stackSize == p.stackSize
    && (q.state == Unused <==> p.state == Unused) && q.state != Blocked
  }

  lemma SameOwnersOk(w: World, t: Table)
    requires BooksOk(w) && |t.procs| == MAX_PROCESSES && t.nextPid == w.sys.table.nextPid
    requires forall i :: 0 <= i < MAX_PROCESSES ==> SameOwner(w.sys.table.procs[i], t.procs[i])
    ensures BooksOk(w.(sys := w.sys.(table := t)))
  {
    var ps, qs := w.sys.table.procs, t.procs;
    assert Stacks(qs) == Stacks(ps) by {
      assert forall i :: 0 <= i < |ps| ==> SameOwner(ps[i], qs[i]);
    }
  }

  // Letting a ready slot run, when no other slot does.
  lemma DispatchOk(w: World, k: nat, started: bool)
    requires BooksOk(w) && k < MAX_PROCESSES && w.sys.table.procs[k].state == Ready && started
    requires forall i :: 0 <= i < MAX_PROCESSES ==> w.sys.table.procs[i].state != Running
    ensures WorldOk(w.(sys := w.sys.(table := Dispatch(w.sys.table, k).(started := started))))
  {
    SameOwnersOk(w, Dispatch(w.sys.table, k).(started := started));
  }

  // ---- process_create ----

  lemma StacksAdd(ps: seq<Process>, k: nat, p: Process)
    requires k < |ps| && ps[k].state == Unused && p.state != Unused
    ensures Stacks(ps[k := p]) == Stacks(ps) + {p.stack}
  {
    var qs := ps[k := p];
    assert qs[k] == p;
    forall x ensures x in Stacks(qs) <==> x in Stacks(ps) + {p.stack} {
      if x in Stacks(ps) {
        var i: nat :| i < |ps| && ps[i].state != Unused && ps[i].stack == x;
        assert qs[i] == ps[i];
      }
    }
  }

  lemma FreshPointer(w: World, n: nat)
    requires ClientOk(ClientOf(w)) && Malloc(w.sys.heap, n).1 != 0
    ensures Malloc(w.sys.heap, n).1 !in w.live
  {
    var (h, p) := Malloc(w.sys.heap, n);
    if p in w.live {
      var b := LiveBlock(ClientOf(w), p);
      MallocGrants(w.sys.heap, n);
      MallocOk(w.sys.heap, n);
      PayloadsDistinct(h, b, Granted(w.sys.heap, n));
    }
  }

  /** process_create either changes nothing, or puts a new ready process with a fresh stack into a vacant slot. */
  lemma CreateCases(w: World, entry: nat, arg: nat)
    requires BooksOk(w)
    ensures var (s, k) := Create(w.sys, entry, arg);
            if k < 0 then s == w.sys
            else
              && k < MAX_PROCESSES && w.sys.table.procs[k].state == Unused
              && var stack := Malloc(w.sys.heap, STACK_SIZE).1;
                 && stack != 0 && stack !in w.live
                 && var p := NewProcess(w.sys.table.nextPid, stack, entry, arg, w.sys.table.wrapper);
                 && s.table.procs == w.sys.table.procs[k := p]
                 && ClientOf(Created(w, entry, arg)) == Step(ClientOf(w), OpMalloc(STACK_SIZE))
  {
    MallocNull(w.sys.heap, STACK_SIZE);
    if Malloc(w.sys.heap, STACK_SIZE).1 != 0 {
      FreshPointer(w, STACK_SIZE);
    }
  }

  lemma CreatedPids(w: World, k: nat, p: Process)
    requires SlotsOk(w.sys.table.procs) && PidsOk(w.sys.table, w.created)
    requires k < MAX_PROCESSES && w.sys.table.procs[k].state == Unused && p.pid == w.sys.table.nextPid
    ensures var t := w.sys.table;
            PidsOk(t.(procs := t.procs[k := p], nextPid := (t.nextPid + 1) % W64), w.created + 1)
  {
  }

  // A vacant slot filled with a process on a fresh stack.
  lemma CreatedStacks(w: World, w': World, k: nat, p: Process)
    requires StacksOk(w) && k < |w.sys.table.procs| && w.sys.table.procs[k].state == Unused && p.state != Unused
    requires p.stack !in w.live
    requires w'.sys.table.procs == w.sys.table.procs[k := p]
    requires w'.live == w.live[p.stack := STACK_SIZE] && w'.held == w.held
    ensures StacksOk(w')
  {
    StacksAdd(w.sys.table.procs, k, p);
  }

  lemma CreatedOk(w: World, entry: nat, arg: nat)
    requires BooksOk(w)
    ensures BooksOk(Created(w, entry, arg))
  {
    var (s, k) := Create(w.sys, entry, arg);
    CreateCases(w, entry, arg);
    if k >= 0 {
      CreatedIn(w, entry, arg, k);
    } else {
      assert Created(w, entry, arg) == w;
    }
  }

  lemma FilledSlots(ps: seq<Process>, k: nat, p: Process)
    requires SlotsOk(ps) && k < |ps| && Alive(p)
    ensures SlotsOk(ps[k := p])
  {
  }

  lemma CreatedIn(w: World, entry: nat, arg: nat, k: nat)
    requires BooksOk(w) && k == Create(w.sys, entry, arg).1
    ensures BooksOk(Created(w, entry, arg))
  {
    var t, w' := w.sys.table, Created(w, entry, arg);
    CreateCases(w, entry, arg);
    var p := w'.sys.table.procs[k];
    MallocStepOk(ClientOf(w), STACK_SIZE);
    CreatedStacks(w, w', k, p);
    CreatedPids(w, k, p);
    assert w'.sys.table == t.(procs := t.procs[k := p], nextPid := (t.nextPid + 1) % W64);
    assert w'.created == w.created + 1;
    FilledSlots(t.procs, k, p);
  }

  // ---- process_exit ----

  lemma StacksRemove(ps: seq<Process>, k: nat, p: Process)
    requires k < |ps| && ps[k].state != Unused && p.state == Unused
    requires forall i :: 0 <= i < |ps| && i != k && ps[i].state != Unused ==> ps[i].stack != ps[k].stack
    ensures Stacks(ps[k := p]) == Stacks(ps) - {ps[k].stack}
  {
    var qs := ps[k := p];
    forall x ensures x in Stacks(qs) <==> x in Stacks(ps) - {ps[k].stack} {
      if x in Stacks(ps) && x != ps[k].stack {
        var i: nat :| i < |ps| && ps[i].state != Unused && ps[i].stack == x;
        assert qs[i] == ps[i];
      }
      if x in Stacks(qs) {
        var i: nat :| i < |qs| && qs[i].state != Unused && qs[i].stack == x;
        assert i != k && qs[i] == ps[i];
      }
    }
  }

  // The current slot of a started table runs on a live stack, which free takes.
  lemma CurrentReleasable(w: World)
    requires WorldOk(w)
    ensures Releasable(w.sys)
    ensures w.sys.table.current >= 0 ==>
              var stack := w.sys.table.procs[w.sys.table.current].stack;
              stack != 0 && stack in w.live && InRange(w.sys.heap, stack) && Listed(w.sys.heap, stack)
  {
    var t := w.sys.table;
    if t.current >= 0 {
      assert t.procs[t.current].state == Running;
      var b := LiveBlock(ClientOf(w), t.procs[t.current].stack);
      FreeReleases(w.sys.heap, b);
    }
  }

  lemma OtherStacksDiffer(w: World, k: nat)
    requires StacksOk(w) && k < |w.sys.table.procs| && w.sys.table.procs[k].state != Unused
    ensures var ps := w.sys.table.procs;
            forall i :: 0 <= i < |ps| && i != k && ps[i].state != Unused ==> ps[i].stack != ps[k].stack
  {
    var ps := w.sys.table.procs;
    forall i | 0 <= i < |ps| && i != k && ps[i].state != Unused ensures ps[i].stack != ps[k].stack {
      assert i < k || k < i;
    }
  }

  // A slot emptied, and its stack no longer live.
  lemma VacatedStacks(w: World, w': World, k: nat, p: Process)
    requires StacksOk(w) && k < |w.sys.table.procs| && w.sys.table.procs[k].state != Unused && p.state == Unused
    requires w'.sys.table.procs == w.sys.table.procs[k := p]
    requires w'.live == w.live - {w.sys.table.procs[k].stack} && w'.held == w.held
    ensures StacksOk(w')
  {
    OtherStacksDiffer(w, k);
    StacksRemove(w.sys.table.procs, k, p);
  }

  lemma VacatedPids(w: World, k: nat, p: Process)
    requires SlotsOk(w.sys.table.procs) && PidsOk(w.sys.table, w.created)
    requires k < MAX_PROCESSES && p.state == Unused
    ensures PidsOk(w.sys.table.(procs := w.sys.table.procs[k := p]), w.created)
  {
  }

  /** Exit gives back exactly the stack of the exiting process. */
  lemma VacatedOk(w: World)
    requires WorldOk(w) && w.sys.table.current >= 0
    ensures Releasable(w.sys) && BooksOk(Vacated(w))
    ensures forall i :: 0 <= i < MAX_PROCESSES ==> Vacated(w).sys.table.procs[i].state != Running
  {
    var t := w.sys.table;
    var k := t.current;
    CurrentReleasable(w);
    var p := Vacate(w.sys).table.procs[k];
    VacatedStacks(w, Vacated(w), k, p);
    VacatedPids(w, k, p);
    FreeStepOk(ClientOf(w), t.procs[k].stack);
    assert ClientOf(Vacated(w)) == Step(ClientOf(w), OpFree(t.procs[k].stack));
  }

  lemma ExitedOk(w: World)
    requires WorldOk(w)
    ensures Releasable(w.sys) && WorldOk(Exited(w))
  {
    CurrentReleasable(w);
    if w.sys.table.current >= 0 {
      VacatedOk(w);
      var w1 := Vacated(w);
      var next := FirstOther(w1.sys.table.procs, w1.sys.table.current, 0);
      if next < MAX_PROCESSES {
        DispatchOk(w1, next, true);
      } else {
        LastExitedOk(w1);
      }
    }
  }

  // With nobody left to run, an idle process takes over if it gets a stack.
  lemma LastExitedOk(w1: World)
    requires BooksOk(w1) && w1.sys.table.started && TableShape(w1.sys.table)
    requires forall i :: 0 <= i < MAX_PROCESSES ==> w1.sys.table.procs[i].state != Running
    ensures var (s2, idle) := Create(w1.sys, w1.sys.table.idle, 0);
            var w2 := Created(w1, w1.sys.table.idle, 0);
            idle < MAX_PROCESSES &&
            WorldOk(w2.(sys := s2.(table := if idle < 0 then s2.table.(started := false, current := -1)
                                            else Dispatch(s2.table, idle))))
  {
    var (s2, idle) := Create(w1.sys, w1.sys.table.idle, 0);
    var w2 := Created(w1, w1.sys.table.idle, 0);
    CreateCases(w1, w1.sys.table.idle, 0);
    CreatedOk(w1, w1.sys.table.idle, 0);
    if idle >= 0 {
      DispatchOk(w2, idle, true);
      assert s2.table.started;
      assert Dispatch(s2.table, idle) == Dispatch(s2.table, idle).(started := true);
    } else {
      SameOwnersOk(w2, s2.table.(started := false, current := -1));
    }
  }

  // ---- scheduler_start ----

  lemma StartedOk(w: World)
    requires WorldOk(w)
    ensures WorldOk(Started(w))
  {
    var t := w.sys.table;
    if !t.started {
      var w1 := if FirstIn(t.procs, Ready) == |t.procs| then Created(w, t.idle, 0) else w;
      CreatedOk(w, t.idle, 0);
      CreateCases(w, t.idle, 0);
      var first := FirstIn(w1.sys.table.procs, Ready);
      if first < MAX_PROCESSES {
        DispatchOk(w1, first, true);
      }
    }
  }

  // ---- process_yield ----

  lemma {:induction false} NextReadyFirst(ps: seq<Process>, start: nat, i: nat)
    requires |ps| == MAX_PROCESSES && i <= MAX_PROCESSES
    ensures var r := NextReady(ps, start, i);
            if r < 0 then forall j :: i <= j < MAX_PROCESSES ==> ps[Slot(start, j)].state != Ready
            else
              && ps[r].state == Ready
              && exists j :: i <= j < MAX_PROCESSES && r == Slot(start, j) &&
                             forall l :: i <= l < j ==> ps[Slot(start, l)].state != Ready
    decreases MAX_PROCESSES - i
  {
    if i < MAX_PROCESSES && ps[Slot(start, i)].state != Ready {
      NextReadyFirst(ps, start, i + 1);
      var r := NextReady(ps, start, i + 1);
      if r >= 0 {
        var j :| i + 1 <= j < MAX_PROCESSES && r == Slot(start, j) &&
                 forall l :: i + 1 <= l < j ==> ps[Slot(start, l)].state != Ready;
        assert i <= j < MAX_PROCESSES && r == Slot(start, j) &&
               forall l :: i <= l < j ==> ps[Slot(start, l)].state != Ready;
      }
    }
  }

  lemma YieldedOk(w: World, saved: Context)
    requires WorldOk(w)
    ensures WorldOk(After(w, EYield(saved)))
  {
    var t := w.sys.table;
    if t.started {
      YieldKeeps(t, saved);
      SameOwnersOk(w, Yield(t, saved));
    }
  }

  lemma YieldKeeps(t: Table, saved: Context)
    requires SlotsOk(t.procs) && RunningOk(t) && t.started
    ensures var t' := Yield(t, saved);
            && |t'.procs| == MAX_PROCESSES && RunningOk(t') && t'.nextPid == t.nextPid
            && forall i :: 0 <= i < MAX_PROCESSES ==> SameOwner(t.procs[i], t'.procs[i])
  {
    NextReadyFirst(StepBack(t.procs, t.current), Slot(t.current, 1), 0);
  }

  // ---- the processes' own use of the heap ----

  lemma MallocEventOk(w: World, n: nat)
    requires WorldOk(w)
    ensures WorldOk(After(w, EMalloc(n)))
  {
    var (h, p) := Malloc(w.sys.heap, n);
    var w' := After(w, EMalloc(n));
    if p != 0 {
      MallocStepOk(ClientOf(w), n);
      FreshPointer(w, n);
      assert ClientOf(w') == Step(ClientOf(w), OpMalloc(n));
      assert w'.sys.table == w.sys.table && w'.created == w.created;
      TakenStacks(w, w', p, n);
    } else {
      assert w' == w;
    }
  }

  // A process holds what it has been given.
  lemma TakenStacks(w: World, w': World, p: nat, n: nat)
    requires StacksOk(w) && p !in w.live && w'.sys.table == w.sys.table
    requires w'.live == w.live[p := n] && w'.held == w.held + {p}
    ensures StacksOk(w')
  {
    var ps := w.sys.table.procs;
    assert forall i: nat :: i < |ps| && ps[i].state != Unused ==> ps[i].stack in Stacks(ps);
  }

  // A process gives back what it holds.
  lemma GivenBackStacks(w: World, w': World, p: nat)
    requires StacksOk(w) && p in w.held && w'.sys.table == w.sys.table
    requires w'.live == w.live - {p} && w'.held == w.held - {p}
    ensures StacksOk(w')
  {
    var ps := w.sys.table.procs;
    assert forall i: nat :: i < |ps| && ps[i].state != Unused ==> ps[i].stack in Stacks(ps);
  }

  lemma FreeEventOk(w: World, p: nat)
    requires WorldOk(w)
    ensures WorldOk(After(w, EFree(p)))
  {
    var w' := After(w, EFree(p));
    if p in w.held && Listed(w.sys.heap, p) {
      FreeStepOk(ClientOf(w), p);
      assert ClientOf(w') == Step(ClientOf(w), OpFree(p));
      assert w'.sys.table == w.sys.table && w'.created == w.created;
      GivenBackStacks(w, w', p);
    } else {
      assert w' == w;
    }
  }

  // ---- every run ----

  lemma AfterOk(w: World, e: Event)
    requires WorldOk(w)
    ensures Releasable(w.sys) && WorldOk(After(w, e))
  {
    CurrentReleasable(w);
    match e
    case ECreate(entry, arg) =>
      CreatedOk(w, entry, arg);
      CreateCases(w, entry, arg);
    case EStart => StartedOk(w);
    case EYield(saved) => YieldedOk(w, saved);
    case EExit => ExitedOk(w);
    case EMalloc(n) => MallocEventOk(w, n);
    case EFree(p) => FreeEventOk(w, p);
  }

  ghost function RunEvents(w: World, es: seq<Event>): World
    requires WorldOk(w)
    ensures WorldOk(RunEvents(w, es))
    decreases |es|
  {
    if es == [] then w
    else
      AfterOk(w, es[0]);
      RunEvents(After(w, es[0]), es[1..])
  }
}
