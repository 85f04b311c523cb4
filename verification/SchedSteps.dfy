/** What each step of the scheduler does to the table, slot by slot, and what a process finds when it runs. */
module SchedSteps {
  import opened Machine
  import opened HeapSpec
  import opened HeapOps
  import opened SchedSpec
  import opened SchedRuns
  import opened SchedLaws

  // ---- process_wrapper ----

  datatype Call = NoCall | Call(entry: nat, arg: nat)

  /** process_wrapper: what the process that runs now calls when it is first resumed. */
  function WrapperCall(t: Table): Call
    requires |t.procs| == MAX_PROCESSES
  {
    if t.current < 0 || t.current >= MAX_PROCESSES then NoCall
    else Call(t.procs[t.current].context.rbx, t.procs[t.current].context.r12)
  }

  // ---- process_create ----

  // A process that has never run: wrapper, entry, argument and the top of its own stack.
  ghost predicate Newborn(p: Process, pid: nat, stack: nat, entry: nat, arg: nat, wrapper: nat) {
    && p.pid == pid && p.state == Ready && p.stack == stack && p.stackSize == 16384
    && p.context.rip == wrapper && p.context.rbx == entry && p.context.r12 == arg
    && p.context.rbp == 0 && p.context.r13 == 0 && p.context.r14 == 0 && p.context.r15 == 0
    && p.context.rsp % 16 == 0 && p.context.rsp <= stack + 16384 < p.context.rsp + 16
  }

  // Slot k was the first unused one, and now holds a newborn process with the next pid; nothing else has changed.
  ghost predicate Placed(t: Table, t': Table, k: nat, stack: nat, entry: nat, arg: nat)
    requires |t.procs| == 8
  {
    && k < 8 && t.procs[k].state == Unused && (forall i :: 0 <= i < k ==> t.procs[i].state != Unused)
    && |t'.procs| == 8 && Newborn(t'.procs[k], t.nextPid, stack, entry, arg, t.wrapper)
    && (forall i :: 0 <= i < 8 && i != k ==> t'.procs[i] == t.procs[i])
    && t'.nextPid == (if t.nextPid + 1 == W64 then 0 else t.nextPid + 1)
    && t' == t.(procs := t'.procs, nextPid := t'.nextPid)
  }

  /** process_create fails exactly if no slot is unused or no stack can be had, and then changes nothing; otherwise the
    * first unused slot holds a newborn process on the stack that malloc gives, and no other slot changes. */
  lemma CreateFields(s: Sys, entry: nat, arg: nat)
    requires TableShape(s.table)
    ensures var (s', k) := Create(s, entry, arg);
            var (h, stack) := Malloc(s.heap, 16384);
            && (k < 0 <==> (forall i :: 0 <= i < 8 ==> s.table.procs[i].state != Unused) || stack == 0)
            && (k < 0 ==> s' == s && k == -1)
            && (k >= 0 ==> s'.heap == h && Placed(s.table, s'.table, k, stack, entry, arg))
  {
    var t, k := s.table, FirstIn(s.table.procs, Unused);
    var (h, stack) := Malloc(s.heap, 16384);
    MallocNull(s.heap, 16384);
    if k < 8 {
      assert t.procs[k].state == Unused;
      FilledIs(t, k, stack, entry, arg);
    }
  }

  lemma FilledIs(t: Table, k: nat, stack: nat, entry: nat, arg: nat)
    requires |t.procs| == 8 && k == FirstIn(t.procs, Unused) < 8
    ensures Placed(t, Filled(t, k, stack, entry, arg), k, stack, entry, arg)
  {
    NewbornIs(t.nextPid, stack, entry, arg, t.wrapper);
    NextPidIs(t.nextPid);
  }

  lemma NextPidIs(pid: Word)
    ensures (pid + 1) % W64 == if pid + 1 == W64 then 0 else pid + 1
  {
  }

  lemma NewbornIs(pid: Word, stack: nat, entry: nat, arg: nat, wrapper: nat)
    ensures Newborn(NewProcess(pid, stack, entry, arg, wrapper), pid, stack, entry, arg, wrapper)
  {
    StackTopInside(stack);
  }

  // ---- process_yield ----

  /** If the yield switches, the process that yields keeps `saved` as its context; no other context changes, and none
    * does if it does not switch. Pids and stacks stay, and only the two processes change their state. */
  lemma YieldContexts(t: Table, saved: Context)
    requires TableShape(t)
    ensures var t' := Yield(t, saved);
            && TableShape(t') && t' == t.(procs := t'.procs, current := t'.current)
            && (t'.current != t.current ==>
                  t.current >= 0 && t'.current >= 0 && t'.procs[t.current].context == saved)
            && (forall i :: 0 <= i < 8 && !(i == t.current && t'.current != t.current) ==>
                  t'.procs[i].context == t.procs[i].context)
            && (forall i :: 0 <= i < 8 ==>
                  && t'.procs[i].pid == t.procs[i].pid
                  && t'.procs[i].stack == t.procs[i].stack && t'.procs[i].stackSize == t.procs[i].stackSize
                  && (i != t.current && i != t'.current ==> t'.procs[i].state == t.procs[i].state))
            && (!t.started || t.current < 0 ==> t' == t)
  {
  }

  /** With another process ready, the one that yields is ready afterwards and another one runs; else it runs on. */
  lemma YieldStates(w: World, saved: Context)
    requires WorldOk(w) && w.sys.table.started
    ensures var (t, t') := (w.sys.table, Yield(w.sys.table, saved));
            if exists i :: 0 <= i < 8 && t.procs[i].state == Ready then
              && t'.current != t.current && t'.current >= 0
              && t.procs[t'.current].state == Ready && t'.procs[t'.current].state == Running
              && t'.procs[t.current].state == Ready
            else t' == t
  {
    var t := w.sys.table;
    if p: nat :| p < 8 && t.procs[p].state == Ready {
      YieldGivesWay(t, saved, p);
    } else {
      YieldAlone(t, saved);
    }
  }

  lemma YieldGivesWay(t: Table, saved: Context, p: nat)
    requires SlotsOk(t.procs) && RunningOk(t) && t.started && p < 8 && t.procs[p].state == Ready
    ensures var t' := Yield(t, saved);
            && t'.current != t.current && TableShape(t') && t'.current >= 0
            && t.procs[t'.current].state == Ready && t'.procs[t'.current].state == Running
            && t'.procs[t.current].state == Ready
  {
    var ps := StepBack(t.procs, t.current);
    NextReadyFirst(ps, Slot(t.current, 1), 0);
    var j := ScanReaches(ps, t.current, p);
    SlotAhead(t.current, p, j);
  }

  lemma YieldAlone(t: Table, saved: Context)
    requires SlotsOk(t.procs) && RunningOk(t) && t.started && forall i: nat :: i < 8 ==> t.procs[i].state != Ready
    ensures Yield(t, saved) == t
  {
    var ps := StepBack(t.procs, t.current);
    NextReadyFirst(ps, Slot(t.current, 1), 0);
    assert forall i :: 0 <= i < 8 && i != t.current ==> ps[i] == t.procs[i];
    assert SetState(ps, t.current, Running) == t.procs;
  }

  // Before each event of the run, slot p is not the current one.
  ghost predicate Waits(w: World, es: seq<Event>, p: nat)
    requires WorldOk(w)
    decreases |es|
  {
    es == [] ||
    (w.sys.table.current != p &&
     (AfterOk(w, es[0]);
      Waits(After(w, es[0]), es[1..], p)))
  }

  // A live process that is not current survives any event, with its context.
  lemma SurvivesEvent(w: World, e: Event, p: nat)
    requires WorldOk(w) && p < MAX_PROCESSES && p != w.sys.table.current && w.sys.table.procs[p].state != Unused
    ensures Releasable(w.sys) && WorldOk(After(w, e))
    ensures After(w, e).sys.table.procs[p].state != Unused
    ensures Undisturbed(w.sys.table.procs[p], After(w, e).sys.table.procs[p])
  {
    AfterOk(w, e);
    OthersUndisturbed(w, e, p);
    assert Alive(w.sys.table.procs[p]);
  }

  /** Over any run, until the turn of a process comes, its pid, its stack and its context stay as they are. */
  lemma {:induction false} ContextKept(w: World, es: seq<Event>, p: nat)
    requires WorldOk(w) && p < MAX_PROCESSES && w.sys.table.procs[p].state != Unused && Waits(w, es, p)
    ensures var q := RunEvents(w, es).sys.table.procs[p];
            q.state != Unused && Undisturbed(w.sys.table.procs[p], q)
    decreases |es|
  {
    if es != [] {
      SurvivesEvent(w, es[0], p);
      ContextKept(After(w, es[0]), es[1..], p);
    }
  }

  /** From the yield that leaves a process until its turn comes again, whatever happens in between, its context is the
    * one that this yield has stored; so it goes on where it yielded. */
  lemma ResumesWhereItYielded(t: Table, saved: Context, w: World, es: seq<Event>)
    requires TableShape(t) && WorldOk(w) && w.sys.table == Yield(t, saved) && w.sys.table.current != t.current
    requires t.current >= 0 && t.procs[t.current].state == Running && Waits(w, es, t.current)
    ensures var p, q := t.procs[t.current], RunEvents(w, es).sys.table.procs[t.current];
            q.context == saved && q.pid == p.pid && q.stack == p.stack
  {
    YieldContexts(t, saved);
    YieldLives(t, saved, t.current);
    ContextKept(w, es, t.current);
  }

  lemma YieldLives(t: Table, saved: Context, i: nat)
    requires TableShape(t) && i < MAX_PROCESSES && t.procs[i].state != Unused
    ensures Yield(t, saved).procs[i].state != Unused
  {
  }

  // The state after a process has been created.
  ghost function NowCreated(w: World, entry: nat, arg: nat): (u: World)
    requires WorldOk(w)
    ensures WorldOk(u) && Releasable(w.sys) && u == After(w, ECreate(entry, arg))
  {
    AfterOk(w, ECreate(entry, arg));
    After(w, ECreate(entry, arg))
  }

  /** When the turn of a newly created process comes for the first time, process_wrapper calls its entry with its
    * argument, whatever has happened in between. */
  lemma FirstRunCalls(w: World, entry: nat, arg: nat, es: seq<Event>)
    requires WorldOk(w) && Create(w.sys, entry, arg).1 >= 0
    requires Waits(NowCreated(w, entry, arg), es, Create(w.sys, entry, arg).1)
    ensures var t := RunEvents(NowCreated(w, entry, arg), es).sys.table;
            t.current == Create(w.sys, entry, arg).1 ==> WrapperCall(t) == Call(entry, arg)
  {
    CreateFields(w.sys, entry, arg);
    ContextKept(NowCreated(w, entry, arg), es, Create(w.sys, entry, arg).1);
  }

  // ---- scheduler_start ----

  // Slot k is the first ready one.
  ghost predicate FirstReady(ps: seq<Process>, k: nat)
    requires |ps| == MAX_PROCESSES
  {
    k < 8 && ps[k].state == Ready && forall i :: 0 <= i < k ==> ps[i].state != Ready
  }

  /** A started scheduler is left alone; otherwise the first ready process runs and nothing else changes. */
  lemma StartPicks(s: Sys, k: nat)
    requires TableShape(s.table) && FirstReady(s.table.procs, k)
    ensures s.table.started ==> Start(s) == s
    ensures !s.table.started ==>
              && |Start(s).table.procs| == 8 && Start(s).table.current == k && Start(s).table.started
              && Start(s).heap == s.heap && Start(s).table.nextPid == s.table.nextPid
              && Start(s).table.procs[k] == s.table.procs[k].(state := Running)
              && forall i :: 0 <= i < 8 && i != k ==> Start(s).table.procs[i] == s.table.procs[i]
  {
    assert FirstIn(s.table.procs, Ready) == k;
  }

  /** With no ready process, an idle one is created and runs; if it cannot be, nothing changes. */
  lemma StartIdle(s: Sys)
    requires TableShape(s.table) && !s.table.started && forall i :: 0 <= i < 8 ==> s.table.procs[i].state != Ready
    ensures var (s1, k) := Create(s, s.table.idle, 0);
            if k < 0 then Start(s) == s
            else
              && TableShape(Start(s).table) && Start(s).table.current == k && Start(s).table.started
              && Start(s).heap == s1.heap && WrapperCall(Start(s).table) == Call(s.table.idle, 0)
              && Start(s).table.procs[k] == s1.table.procs[k].(state := Running)
              && forall i :: 0 <= i < 8 && i != k ==> Start(s).table.procs[i] == s.table.procs[i]
  {
    CreateFields(s, s.table.idle, 0);
    var (s1, k) := Create(s, s.table.idle, 0);
    if k >= 0 {
      assert FirstIn(s1.table.procs, Ready) == k;
    }
  }

  // ---- process_exit ----

  // The slot the exiting process leaves behind.
  ghost predicate LeftBy(p: Process) {
    p.state == Unused && p.pid == 0 && p.stack == 0 && p.stackSize == 0
  }

  /** The first ready process other than the exiting one runs next; every slot but these two stays as it is. */
  lemma ExitHandsOver(w: World, k: nat)
    requires WorldOk(w) && w.sys.table.current >= 0
    requires k < 8 && k != w.sys.table.current && w.sys.table.procs[k].state == Ready
    requires forall i :: 0 <= i < k && i != w.sys.table.current ==> w.sys.table.procs[i].state != Ready
    ensures Releasable(w.sys)
    ensures var (t, t') := (w.sys.table, Exit(w.sys).table);
            && |t'.procs| == 8 && t'.current == k && t'.procs[k] == t.procs[k].(state := Running)
            && LeftBy(t'.procs[t.current])
            && (forall i :: 0 <= i < 8 && i != k && i != t.current ==> t'.procs[i] == t.procs[i])
            && t'.started && t'.nextPid == t.nextPid
  {
    CurrentReleasable(w);
    ExitTo(w.sys, k);
  }

  lemma ExitTo(s: Sys, k: nat)
    requires TableShape(s.table) && s.table.current >= 0 && Releasable(s)
    requires k < MAX_PROCESSES && k != s.table.current && s.table.procs[k].state == Ready
    requires forall i :: 0 <= i < k && i != s.table.current ==>
               s.table.procs[i].state != Ready && s.table.procs[i].state != Running
    ensures var (t, t') := (s.table, Exit(s).table);
            && t' == t.(procs := t'.procs, current := k) && |t'.procs| == |t.procs|
            && t'.procs[k] == t.procs[k].(state := Running) && LeftBy(t'.procs[t.current])
            && forall i :: 0 <= i < MAX_PROCESSES && i != k && i != t.current ==> t'.procs[i] == t.procs[i]
  {
    var ps := Vacate(s).table.procs;
    assert forall i :: 0 <= i < MAX_PROCESSES && i != s.table.current ==> ps[i] == s.table.procs[i];
    var next := FirstOther(ps, s.table.current, 0);
    assert next == k;
    assert Exit(s).table == Dispatch(Vacate(s).table, k);
  }

  /** When the last process exits, an idle one runs in slot 0 with the next pid, or the scheduler stops and every slot
    * is vacant. */
  lemma ExitIdles(w: World)
    requires WorldOk(w) && w.sys.table.current >= 0
    requires forall i :: 0 <= i < 8 && i != w.sys.table.current ==> w.sys.table.procs[i].state == Unused
    ensures Releasable(w.sys)
    ensures var (t, t') := (w.sys.table, Exit(w.sys).table);
            && |t'.procs| == 8
            && (t'.started ==>
                  && t'.current == 0 && t'.procs[0].state == Running && t'.procs[0].pid == t.nextPid
                  && WrapperCall(t') == Call(t.idle, 0)
                  && forall i :: 1 <= i < 8 ==> t'.procs[i].state == Unused)
            && (!t'.started ==> t'.current == -1 && forall i :: 0 <= i < 8 ==> t'.procs[i].state == Unused)
  {
    CurrentReleasable(w);
    var s1 := Vacate(w.sys);
    CreateFields(s1, w.sys.table.idle, 0);
    var (s2, k) := Create(s1, w.sys.table.idle, 0);
    assert forall i :: 0 <= i < 8 ==> s1.table.procs[i].state == Unused;
  }

  /** Without a current process exit does nothing. */
  lemma ExitOutside(s: Sys)
    requires TableShape(s.table) && s.table.current < 0
    ensures Exit(s) == s
  {
  }

  // ---- get_process_count ----

  /** The number of processes is the number of live blocks that are not held by a process for itself. */
  lemma CountIsStacks(w: World)
    requires WorldOk(w)
    ensures |UsedSlots(w.sys.table.procs)| == |w.live.Keys - w.held|
  {
    var ps := w.sys.table.procs;
    forall i, j | 0 <= i < j < |ps| && ps[i].state != Unused && ps[j].state != Unused
      ensures ps[i].stack != ps[j].stack
    {
      OtherStacksDiffer(w, i);
    }
    StacksCount(ps);
    assert w.live.Keys - w.held == Stacks(ps);
  }

  lemma {:induction false} StacksCount(ps: seq<Process>)
    requires forall i, j :: 0 <= i < j < |ps| && ps[i].state != Unused && ps[j].state != Unused ==>
               ps[i].stack != ps[j].stack
    ensures |UsedSlots(ps)| == |Stacks(ps)|
  {
    if ps == [] {
      assert UsedSlots(ps) == {} && Stacks(ps) == {};
    } else {
      var init, p := ps[..|ps| - 1], ps[|ps| - 1];
      assert ps == init + [p];
      StacksCount(init);
      StacksSnoc(init, p);
      UsedSnoc(init, p);
      if p.state != Unused {
        LastStackNew(init, p);
      }
    }
  }

  lemma UsedSnoc(ps: seq<Process>, p: Process)
    ensures UsedSlots(ps + [p]) == UsedSlots(ps) + if p.state != Unused then {|ps|} else {}
  {
  }

  lemma LastStackNew(ps: seq<Process>, p: Process)
    requires forall i :: 0 <= i < |ps| && ps[i].state != Unused ==> ps[i].stack != p.stack
    ensures p.stack !in Stacks(ps)
  {
  }

  lemma StacksSnoc(ps: seq<Process>, p: Process)
    ensures Stacks(ps + [p]) == Stacks(ps) + if p.state != Unused then {p.stack} else {}
  {
    var qs := ps + [p];
    assert qs[|ps|] == p;
    forall x ensures x in Stacks(qs) <==> x in Stacks(ps) + if p.state != Unused then {p.stack} else {} {
      if x in Stacks(ps) {
        var i: nat :| i < |ps| && ps[i].state != Unused && ps[i].stack == x;
        assert qs[i] == ps[i];
      }
      if x in Stacks(qs) {
        var i: nat :| i < |qs| && qs[i].state != Unused && qs[i].stack == x;
        assert i < |ps| ==> ps[i] == qs[i];
      }
    }
  }
}
