/** scheduler.c: the process table and its operations, on top of the kernel heap. */
module SchedulerC {
  import opened Machine
  import opened HeapImage
  import opened HeapOps
  import opened HeapParts
  import opened MemoryC
  import opened SchedSpec
  import opened ExitStack

  class Scheduler {
    const memory: Memory
    const wrapper: nat
    const idleEntry: nat
    const procs: array<Process>
    var current: int
    var nextPid: Word
    var started: bool

    ghost function TableView(): Table
      reads this, procs
    {
      Table(procs[..], current, nextPid, started, wrapper, idleEntry)
    }

    ghost function View(): Sys
      reads this, procs, memory
    {
      Sys(memory.heap, TableView())
    }

    ghost predicate Valid()
      reads this, procs, memory, memory.mem, memory.pages
    {
      TableShape(TableView()) && memory.Valid()
    }

    /** C's zero-initialised table; scheduler_init itself only prints. */
    constructor (memory: Memory, wrapper: nat, idleEntry: nat)
      requires memory.Valid()
      ensures Valid() && this.memory == memory && fresh(procs)
      ensures memory.heap == old(memory.heap)
      ensures forall i :: 0 <= i < MAX_PROCESSES ==>
                procs[i] == Process(0, Unused, Context(0, 0, 0, 0, 0, 0, 0, 0), 0, 0)
      ensures current == -1 && nextPid == 1 && !started
    {
      this.memory, this.wrapper, this.idleEntry := memory, wrapper, idleEntry;
      procs := new Process[MAX_PROCESSES](_ => Process(0, Unused, Context(0, 0, 0, 0, 0, 0, 0, 0), 0, 0));
      current, nextPid, started := -1, 1, false;
    }

    method AllocSlot() returns (k: int)
      requires procs.Length == MAX_PROCESSES
      ensures k == if FirstIn(procs[..], Unused) == MAX_PROCESSES then -1 else FirstIn(procs[..], Unused)
    {
      for i := 0 to MAX_PROCESSES
        invariant forall j :: 0 <= j < i ==> procs[j].state != Unused
      {
        if procs[i].state == Unused {
          return i;
        }
      }
      return -1;
    }

    method ProcessCreate(entry: nat, arg: nat) returns (idx: int)
      requires Valid()
      modifies this`nextPid, procs, memory, memory.mem, memory.pages
      ensures (View(), idx) == Create(old(View()), entry, arg)
      ensures KeepsLive(old(memory.heap.blocks), old(memory.mem[..]), memory.mem[..])
      ensures Valid() && memory.pages == old(memory.pages)
    {
      OwnSpared(memory.heap, STACK_SIZE);
      idx := CreateSparing(entry, arg, memory.heap.blocks);
    }

    /** process_create, and the payloads that its malloc spares. */
    method CreateSparing(entry: nat, arg: nat, ghost live: seq<HeapSpec.Block>) returns (idx: int)
      requires Valid() && Spared(memory.heap, STACK_SIZE, live)
      modifies this`nextPid, procs, memory, memory.mem, memory.pages
      ensures (View(), idx) == Create(old(View()), entry, arg)
      ensures KeepsLive(live, old(memory.mem[..]), memory.mem[..])
      ensures Valid() && memory.pages == old(memory.pages)
    {
      ghost var s := View();
      idx := AllocSlot();
      if idx < 0 {
        CreateFails(s, entry, arg);
        return -1;
      }
      var stack := TakeStack(live);
      if stack == 0 {
        CreateFails(s, entry, arg);
        MallocNull(s.heap, STACK_SIZE);
        assert View() == s;
        return -1;
      }
      ghost var t, h := TableView(), memory.heap;
      FillSlot(idx, stack, entry, arg);
      CreateFills(s, entry, arg, idx, h, stack);
      assert View() == Sys(h, Filled(t, idx, stack, entry, arg));
    }

    method TakeStack(ghost live: seq<HeapSpec.Block>) returns (stack: nat)
      requires memory.Valid() && Spared(memory.heap, STACK_SIZE, live)
      modifies memory, memory.mem, memory.pages
      ensures (memory.heap, stack) == HeapSpec.Malloc(old(memory.heap), STACK_SIZE)
      ensures KeepsLive(live, old(memory.mem[..]), memory.mem[..])
      ensures memory.Valid() && memory.pages == old(memory.pages)
    {
      stack := memory.MallocSparing(STACK_SIZE, live);
    }

    // The fields of the slot, one after the other.
    method FillSlot(idx: nat, stack: nat, entry: nat, arg: nat)
      requires idx < procs.Length
      modifies this`nextPid, procs
      ensures TableView() == Filled(old(TableView()), idx, stack, entry, arg)
    {
      var p := procs[idx];
      p := p.(stack := stack);
      p := p.(stackSize := STACK_SIZE);
      p := p.(pid := nextPid);
      nextPid := (nextPid + 1) % W64;
      p := p.(state := Ready);
      var stackTop := (stack + STACK_SIZE) / 16 * 16;
      p := p.(context := Context(entry, 0, arg, 0, 0, 0, stackTop, wrapper));
      procs[idx] := p;
    }

    /** `saved` is what context_switch_asm stores into the old context, if it switches. */
    method ProcessYield(saved: Context)
      requires TableShape(TableView())
      modifies this`current, procs
      ensures TableView() == Yield(old(TableView()), saved)
    {
      if !started {
        return;
      }
      if current < 0 {
        return;
      }
      YieldTurn();
      var next := ScanFrom((current + 1) % MAX_PROCESSES);
      if next < 0 {
        procs[current] := procs[current].(state := Running);
        return;
      }
      if next == current {
        procs[current] := procs[current].(state := Running);
        return;
      }
      HandOver(next, saved);
    }

    method YieldTurn()
      requires TableShape(TableView()) && current >= 0
      modifies procs
      ensures procs[..] == StepBack(old(procs[..]), current)
    {
      if procs[current].state == Running {
        procs[current] := procs[current].(state := Ready);
      }
    }

    method HandOver(next: nat, saved: Context)
      requires TableShape(TableView()) && current >= 0 && next < MAX_PROCESSES
      modifies this`current, procs
      ensures TableView() == Handover(old(TableView()), next, saved)
    {
      var oldCurrent := current;
      current := next;
      procs[next] := procs[next].(state := Running);
      procs[oldCurrent] := procs[oldCurrent].(context := saved);
    }

    /** The scan for the next ready slot. */
    method ScanFrom(start: nat) returns (next: int)
      requires procs.Length == MAX_PROCESSES
      ensures next == NextReady(procs[..], start, 0)
    {
      var i := 0;
      while i < MAX_PROCESSES
        invariant i <= MAX_PROCESSES
        invariant NextReady(procs[..], start, 0) == NextReady(procs[..], start, i)
      {
        var idx := (start + i) % MAX_PROCESSES;
        if procs[idx].state == Ready {
          return idx;
        }
        i := i + 1;
      }
      return -1;
    }

    // Makes slot k the running one.
    method SwitchTo(k: nat)
      requires k < procs.Length
      modifies this`current, procs
      ensures TableView() == Dispatch(old(TableView()), k)
    {
      current := k;
      procs[k] := procs[k].(state := Running);
    }

    method FindReady() returns (first: int)
      requires procs.Length == MAX_PROCESSES
      ensures first == if FirstIn(procs[..], Ready) == MAX_PROCESSES then -1 else FirstIn(procs[..], Ready)
    {
      for i := 0 to MAX_PROCESSES
        invariant forall j :: 0 <= j < i ==> procs[j].state != Ready
      {
        if procs[i].state == Ready {
          return i;
        }
      }
      return -1;
    }

    method CountReady() returns (count: nat)
      requires procs.Length == MAX_PROCESSES
      ensures count == |set i | 0 <= i < MAX_PROCESSES && procs[i].state == Ready|
      ensures count == 0 <==> FirstIn(procs[..], Ready) == MAX_PROCESSES
    {
      count := 0;
      ghost var seen: set<int> := {};
      for i := 0 to MAX_PROCESSES
        invariant seen == (set j | 0 <= j < i && procs[j].state == Ready) && count == |seen|
      {
        if procs[i].state == Ready {
          count := count + 1;
          seen := seen + {i};
        }
      }
      if count == 0 {
        assert forall j :: 0 <= j < MAX_PROCESSES && procs[j].state == Ready ==> j in seen;
      } else {
        ghost var j :| j in seen;
        assert FirstIn(procs[..], Ready) <= j;
      }
    }

    method SchedulerStart()
      requires Valid()
      modifies this, procs, memory, memory.mem, memory.pages
      ensures View() == Start(old(View()))
      ensures KeepsLive(old(memory.heap.blocks), old(memory.mem[..]), memory.mem[..])
      ensures Valid()
    {
      if started {
        return;
      }
      EnsureReady();
      StartFirst();
    }

    method StartFirst()
      requires TableShape(TableView())
      modifies this`current, this`started, procs
      ensures TableView() == RunFirst(old(TableView()))
      ensures TableShape(TableView())
    {
      var first := FindReady();
      if first < 0 {
        return;
      }
      SwitchTo(first);
      started := true;
    }

    // With no ready process, an idle one is created.
    method EnsureReady()
      requires Valid()
      modifies this`nextPid, procs, memory, memory.mem, memory.pages
      ensures View() == if FirstIn(old(procs[..]), Ready) == MAX_PROCESSES then Create(old(View()), idleEntry, 0).0
                        else old(View())
      ensures KeepsLive(old(memory.heap.blocks), old(memory.mem[..]), memory.mem[..])
      ensures Valid() && memory.pages == old(memory.pages)
    {
      var readyCount := CountReady();
      if readyCount == 0 {
        var idx := ProcessCreate(idleEntry, 0);
      }
    }

    /** process_exit frees the stack that it runs on, and goes on running on it: `before` and `after` are what it then
      * stores there, before and after a stack for an idle process is allocated. The blocks in use once the stack is
      * freed, so also the stacks of the other processes, keep every word. Unless ExitHits, the freed stack holds at
      * the end what the running code has stored there, and the heap is valid; with ExitHits it still is if nothing
      * is stored any more. */
    method ProcessExit(before: seq<Write>, after: seq<Write>)
      requires Valid() && Releasable(View())
      requires before + after != [] ==>
                 OwnsStack(View()) && WritesIn(before + after, StackExtent(View()), memory.mem.Length)
      modifies this, procs, memory, memory.mem, memory.pages
      ensures View() == Exit(old(View()))
      ensures old(current) >= 0 ==>
                KeepsLive(old(Vacate(View()).heap.blocks), old(memory.mem[..]), memory.mem[..])
      ensures old(current) < 0 ==> memory.mem[..] == old(memory.mem[..])
      ensures old(OwnsStack(View()) && !ExitHits(View())) ==>
                WritesFit(before + after, memory.mem.Length) &&
                KeepsLive([old(StackExtent(View()))], Written(old(memory.mem[..]), before + after), memory.mem[..])
      ensures after == [] || old(OwnsStack(View()) && !ExitHits(View())) ==> Valid()
    {
      if current < 0 {
        return;
      }
      ghost var s, m0 := View(), memory.mem[..];
      ghost var b := RunningOn(s);
      SplitWrites(before, after, b, memory.mem.Length);
      ExitKeeps(s);
      RunningClear(s);
      VacateCurrent();
      ghost var bs, m1 := memory.heap.blocks, memory.mem[..];
      RunOnStack(before, b);
      ghost var m2 := memory.mem[..];
      ResumeNext(KeptByExit(s));
      ghost var m3 := memory.mem[..];
      RunOnStack(after, b);
      ExitMemory(s, before, after, m0, m1, m2, m3, memory.mem[..]);
    }

    // The code that runs on the freed stack.
    method RunOnStack(ws: seq<Write>, ghost b: HeapSpec.Block)
      requires Valid() && !b.free && WritesIn(ws, b, memory.mem.Length)
      modifies memory.mem
      ensures memory.mem[..] == Written(old(memory.mem[..]), ws)
      ensures View() == old(View()) && memory.pages == old(memory.pages)
      ensures ws == [] || HeadersClear(memory.heap.blocks, [b]) ==> Valid()
    {
      if ws != [] {
        memory.RunOn(ws, b);
      }
    }

    // Frees the stack of the current process and clears its slot.
    method VacateCurrent()
      requires Valid() && current >= 0 && Releasable(View())
      modifies procs, memory, memory.mem
      ensures View() == Vacate(old(View()))
      ensures KeepsLive(old(memory.heap.blocks), old(memory.mem[..]), memory.mem[..])
      ensures Valid() && memory.pages == old(memory.pages)
    {
      GiveBack(procs[current].stack);
      procs[current] := procs[current].(state := Unused, pid := 0, stack := 0, stackSize := 0);
    }

    method GiveBack(stack: nat)
      requires memory.Valid()
      requires stack == 0 || !HeapSpec.InRange(memory.heap, stack) || HeapSpec.Listed(memory.heap, stack)
      modifies memory, memory.mem
      ensures memory.heap == if stack != 0 then HeapSpec.Free(old(memory.heap), stack) else old(memory.heap)
      ensures KeepsLive(old(memory.heap.blocks), old(memory.mem[..]), memory.mem[..])
      ensures memory.Valid() && memory.pages == old(memory.pages)
    {
      if stack != 0 {
        memory.Free(stack);
      }
    }

    // Another process goes on; with none left, an idle one.
    method ResumeNext(ghost live: seq<HeapSpec.Block>)
      requires Valid()
      requires FirstOther(procs[..], current, 0) == MAX_PROCESSES ==> Spared(memory.heap, STACK_SIZE, live)
      modifies this, procs, memory, memory.mem, memory.pages
      ensures View() == Resume(old(View()))
      ensures KeepsLive(live, old(memory.mem[..]), memory.mem[..])
      ensures Valid()
    {
      var next := FindOther();
      if next < 0 {
        GoIdle(live);
      } else {
        SwitchTo(next);
      }
    }

    method GoIdle(ghost live: seq<HeapSpec.Block>)
      requires Valid() && Spared(memory.heap, STACK_SIZE, live)
      modifies this, procs, memory, memory.mem, memory.pages
      ensures View() == Idle(old(View()))
      ensures KeepsLive(live, old(memory.mem[..]), memory.mem[..])
      ensures Valid()
    {
      var next := CreateSparing(idleEntry, 0, live);
      Settle(next);
    }

    method Settle(next: int)
      requires next < MAX_PROCESSES && TableShape(TableView())
      modifies this`current, this`started, procs
      ensures TableView() == Settled(old(TableView()), next)
      ensures TableShape(TableView())
    {
      if next < 0 {
        started := false;
        current := -1;
        return;
      }
      SwitchTo(next);
    }

    method FindOther() returns (next: int)
      requires TableShape(TableView())
      ensures var k := FirstOther(procs[..], current, 0); next == if k == MAX_PROCESSES then -1 else k
    {
      var i := 0;
      while i < MAX_PROCESSES
        invariant i <= MAX_PROCESSES && FirstOther(procs[..], current, 0) == FirstOther(procs[..], current, i)
      {
        if procs[i].state == Ready || procs[i].state == Running {
          if i != current {
            return i;
          }
        }
        i := i + 1;
      }
      return -1;
    }

    method GetCurrentPid() returns (pid: Word)
      requires TableShape(TableView())
      ensures pid == CurrentPid(TableView())
    {
      if 0 <= current < MAX_PROCESSES && procs[current].state != Unused {
        return procs[current].pid;
      }
      return 0;
    }

    method GetProcessCount() returns (count: nat)
      requires procs.Length == MAX_PROCESSES
      ensures count == |UsedSlots(procs[..])|
    {
      count := 0;
      ghost var seen: set<nat> := {};
      for i := 0 to MAX_PROCESSES
        invariant seen == (set j: nat | j < i && procs[j].state != Unused) && count == |seen|
      {
        if procs[i].state != Unused {
          count := count + 1;
          seen := seen + {i};
        }
      }
      assert seen == UsedSlots(procs[..]);
    }
  }

  // process_create, when it finds no slot or gets no stack.
  lemma CreateFails(s: Sys, entry: nat, arg: nat)
    requires FirstIn(s.table.procs, Unused) == |s.table.procs| || HeapSpec.Malloc(s.heap, STACK_SIZE).1 == 0
    ensures Create(s, entry, arg) == (s, -1)
  {
    MallocNull(s.heap, STACK_SIZE);
  }

  // process_create, when it finds a slot and gets a stack.
  lemma CreateFills(s: Sys, entry: nat, arg: nat, k: nat, h: HeapSpec.Heap, stack: nat)
    requires k == FirstIn(s.table.procs, Unused) < |s.table.procs|
    requires (h, stack) == HeapSpec.Malloc(s.heap, STACK_SIZE) && stack != 0
    ensures Create(s, entry, arg) == (Sys(h, Filled(s.table, k, stack, entry, arg)), k as int)
  {
  }
}
