/** The process table and its transitions as functions on values. Each transition is given for every table, so it
  * also covers the branches that no reachable table takes. */
module SchedSpec {
  import opened Machine
  import opened HeapSpec

  const MAX_PROCESSES: nat := 8
  const STACK_SIZE: nat := 4096 * 4

  datatype ProcState = Unused | Ready | Running | Blocked

  datatype Context = Context(rbx: nat, rbp: nat, r12: nat, r13: nat, r14: nat, r15: nat, rsp: nat, rip: nat)

  datatype Process = Process(pid: Word, state: ProcState, context: Context, stack: nat, stackSize: nat)

  /** The scheduler's statics, and the addresses of process_wrapper and idle_process. */
  datatype Table = Table(procs: seq<Process>, current: int, nextPid: Word, started: bool, wrapper: nat, idle: nat)

  datatype Sys = Sys(heap: Heap, table: Table)

  predicate TableShape(t: Table) {
    |t.procs| == MAX_PROCESSES && -1 <= t.current < MAX_PROCESSES
  }

  // Index of the first slot in the given state, or |ps|.
  function FirstIn(ps: seq<Process>, st: ProcState): (k: nat)
    ensures k <= |ps|
    ensures k < |ps| ==> ps[k].state == st
    ensures forall i :: 0 <= i < k ==> ps[i].state != st
  {
    if ps == [] then 0 else if ps[0].state == st then 0 else 1 + FirstIn(ps[1..], st)
  }

  // ---- process_create ----

  function StackTop(stack: nat): nat {
    (stack + STACK_SIZE) / 16 * 16
  }

  function NewProcess(pid: Word, stack: nat, entry: nat, arg: nat, wrapper: nat): Process {
    Process(pid, Ready, Context(entry, 0, arg, 0, 0, 0, StackTop(stack), wrapper), stack, STACK_SIZE)
  }

  // Slot k taken by a new process on this stack.
  function Filled(t: Table, k: nat, stack: nat, entry: nat, arg: nat): Table
    requires k < |t.procs|
  {
    t.(procs := t.procs[k := NewProcess(t.nextPid, stack, entry, arg, t.wrapper)], nextPid := (t.nextPid + 1) % W64)
  }

  function Create(s: Sys, entry: nat, arg: nat): (Sys, int) {
    var t := s.table;
    var k := FirstIn(t.procs, Unused);
    if k == |t.procs| then (s, -1)
    else
      var (h, stack) := Malloc(s.heap, STACK_SIZE);
      if stack == 0 then (s.(heap := h), -1)
      else (Sys(h, Filled(t, k, stack, entry, arg)), k as int)
  }

  // ---- process_yield ----

  function Slot(start: nat, i: nat): nat {
    (start + i) % MAX_PROCESSES
  }

  // The first ready slot among start+i, ..., start+7, cyclically; -1 if there is none.
  function NextReady(ps: seq<Process>, start: nat, i: nat): (r: int)
    requires |ps| == MAX_PROCESSES && i <= MAX_PROCESSES
    ensures -1 <= r < MAX_PROCESSES
    decreases MAX_PROCESSES - i
  {
    if i == MAX_PROCESSES then -1
    else if ps[Slot(start, i)].state == Ready then Slot(start, i)
    else NextReady(ps, start, i + 1)
  }

  function SetState(ps: seq<Process>, k: nat, st: ProcState): (r: seq<Process>)
    requires k < |ps|
    ensures |r| == |ps|
  {
    ps[k := ps[k].(state := st)]
  }

  // A running current process steps back into the queue.
  function StepBack(ps: seq<Process>, k: nat): (r: seq<Process>)
    requires k < |ps|
    ensures |r| == |ps|
  {
    if ps[k].state == Running then SetState(ps, k, Ready) else ps
  }

  // The switch from the current slot to another one.
  function Handover(t: Table, next: nat, saved: Context): Table
    requires TableShape(t) && t.current >= 0 && next < MAX_PROCESSES
  {
    var qs := SetState(t.procs, next, Running);
    t.(procs := qs[t.current := qs[t.current].(context := saved)], current := next)
  }

  /** `saved` is what the switch stores into the old context. */
  function Yield(t: Table, saved: Context): Table
    requires TableShape(t)
  {
    if !t.started || t.current < 0 then t
    else
      var ps := StepBack(t.procs, t.current);
      var next := NextReady(ps, Slot(t.current, 1), 0);
      if next < 0 || next == t.current then t.(procs := SetState(ps, t.current, Running))
      else Handover(t.(procs := ps), next, saved)
  }

  // ---- scheduler_start ----

  function Dispatch(t: Table, k: nat): Table
    requires k < |t.procs|
  {
    t.(procs := SetState(t.procs, k, Running), current := k)
  }

  // The first ready process runs, and the scheduler is started; without one nothing happens.
  function RunFirst(t: Table): Table {
    var first := FirstIn(t.procs, Ready);
    if first == |t.procs| then t else Dispatch(t, first).(started := true)
  }

  function Start(s: Sys): Sys {
    if s.table.started then s
    else
      var s1 := if FirstIn(s.table.procs, Ready) == |s.table.procs| then Create(s, s.table.idle, 0).0 else s;
      s1.(table := RunFirst(s1.table))
  }

  // ---- process_exit ----

  // The first slot that can run and is not `cur`, or |ps|.
  function FirstOther(ps: seq<Process>, cur: int, i: nat): (k: nat)
    requires i <= |ps|
    ensures i <= k <= |ps|
    ensures k < |ps| ==> (ps[k].state == Ready || ps[k].state == Running) && k != cur
    ensures forall j :: i <= j < k ==> !((ps[j].state == Ready || ps[j].state == Running) && j != cur)
    decreases |ps| - i
  {
    if i == |ps| then i
    else if (ps[i].state == Ready || ps[i].state == Running) && i != cur then i
    else FirstOther(ps, cur, i + 1)
  }

  /** The stack of the current process is something free can take. */
  predicate Releasable(s: Sys)
    requires TableShape(s.table)
  {
    s.table.current >= 0 ==>
      var stack := s.table.procs[s.table.current].stack;
      stack == 0 || !InRange(s.heap, stack) || Listed(s.heap, stack)
  }

  // The exiting process gives back its stack and its slot.
  function Vacate(s: Sys): (r: Sys)
    requires TableShape(s.table) && s.table.current >= 0 && Releasable(s)
    ensures TableShape(r.table)
  {
    var t := s.table;
    var p := t.procs[t.current];
    Sys(if p.stack != 0 then Free(s.heap, p.stack) else s.heap,
        t.(procs := t.procs[t.current := p.(state := Unused, pid := 0, stack := 0, stackSize := 0)]))
  }

  // The process just created runs; without one the scheduler stops.
  function Settled(t: Table, idle: int): Table
    requires idle < |t.procs|
  {
    if idle < 0 then t.(started := false, current := -1) else Dispatch(t, idle)
  }

  // An idle process takes over, if it gets a stack.
  function Idle(s: Sys): Sys
    requires TableShape(s.table)
  {
    var (s2, idle) := Create(s, s.table.idle, 0);
    s2.(table := Settled(s2.table, idle))
  }

  // Another process goes on, or an idle one.
  function Resume(s: Sys): Sys
    requires TableShape(s.table)
  {
    var next := FirstOther(s.table.procs, s.table.current, 0);
    if next < MAX_PROCESSES then s.(table := Dispatch(s.table, next)) else Idle(s)
  }

  function Exit(s: Sys): Sys
    requires TableShape(s.table) && Releasable(s)
  {
    if s.table.current < 0 then s else Resume(Vacate(s))
  }

  // ---- queries ----

  function CurrentPid(t: Table): Word
    requires TableShape(t)
  {
    if t.current >= 0 && t.procs[t.current].state != Unused then t.procs[t.current].pid else 0
  }

  function UsedSlots(ps: seq<Process>): set<nat> {
    set i: nat | i < |ps| && ps[i].state != Unused
  }
}
