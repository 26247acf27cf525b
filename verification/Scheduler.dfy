/** The scheduler and process operations as the kernel runs them: loops over fixed
    arrays and statement-by-statement state changes. */
module Scheduler {
  import opened Bytes
  import opened Wrappers
  import opened SchedulerSpec

  class Scheduler {
    // process_table, reduced to the fields that scheduling reads
    const states: array<ProcessState>
    const wakeupTick: array<u32>
    var currentProcess: Option<nat>
    // the scheduler's own variables
    const processes: array<nat>
    var processCount: nat
    var current: nat
    var needResched: bool
    var schedulerTicks: u32
    var idleProcess: Option<nat>
    var timerTicks: u32

    ghost function Abs(): Kernel
      requires processCount <= processes.Length
      reads this, states, wakeupTick, processes
    {
      Kernel(states[..], wakeupTick[..], processes[..processCount], current, currentProcess, idleProcess,
             timerTicks, schedulerTicks, needResched)
    }

    /** The arrays are the kernel's and every index used is in range. */
    ghost predicate Shaped()
      reads this, states, wakeupTick, processes
    {
      && states.Length == MAX_PROCESS && wakeupTick.Length == MAX_PROCESS && processes.Length == MAX_PROCESS
      && processCount <= MAX_PROCESS
      && Indexed(Abs())
      && (current < processCount || (processCount == 0 && current == 0))
    }

    ghost predicate Valid()
      reads this, states, wakeupTick, processes
    {
      Shaped() && Inv(Abs())
    }

    constructor ()
      ensures Valid() && fresh(states) && fresh(wakeupTick) && fresh(processes)
      ensures Abs() == Booted()
    {
      states := new ProcessState[MAX_PROCESS](_ => Unused);
      wakeupTick := new u32[MAX_PROCESS](_ => 0);
      processes := new nat[MAX_PROCESS](_ => 0);
      processCount, current, currentProcess, idleProcess := 0, 0, None, None;
      timerTicks, schedulerTicks, needResched := 0, 0, false;
      new;
      assert states[..] == seq(MAX_PROCESS, i => Unused);
    }

    /** The state changes of process_switch, without the change of stacks. */
    method ProcessSwitch(next: nat)
      requires Shaped() && next < MAX_PROCESS
      modifies this`currentProcess, states
      ensures Shaped() && Abs() == Switch(old(Abs()), next)
    {
      var prev := currentProcess;
      currentProcess := Some(next);
      if prev.Some? && states[prev.value] == Running {
        states[prev.value] := Ready;
      }
      states[next] := Running;
    }

    method Schedule()
      requires Shaped()
      modifies this, states
      ensures Shaped() && Abs() == SchedulerSpec.Schedule(old(Abs()))
    {
      hide Switch, Scan;
      ghost var k := Abs();
      var next := current;
      for i := 0 to processCount
        invariant Shaped() && Abs() == k
        invariant processCount > 0 ==> next == (current + i) % processCount && Scan(k, 0) == Scan(k, i)
      {
        NextCyclic(current, i, processCount);
        next := (next + 1) % processCount;
        assert next == Cyclic(k, i);
        ScanStep(k, i);
        if currentProcess != Some(processes[next]) {
          if states[processes[next]] == Ready {
            current := next;
            ProcessSwitch(processes[next]);
            return;
          }
        }
      }
      if idleProcess.Some? && currentProcess != idleProcess {
        ProcessSwitch(idleProcess.value);
      }
    }

    method Add(p: nat)
      requires Shaped() && p < MAX_PROCESS
      modifies this`processCount, processes
      ensures Shaped() && Abs() == SchedulerSpec.Add(old(Abs()), p)
    {
      if processCount >= MAX_PROCESS {
        return;
      }
      processes[processCount] := p;
      processCount := processCount + 1;
    }

    method Remove(p: nat)
      requires Shaped()
      modifies this, processes
      ensures Shaped() && Abs() == SchedulerSpec.Remove(old(Abs()), p)
    {
      hide Closed, PositionOf;
      ghost var k := Abs();
      var index := 0;
      while index < processCount && processes[index] != p
        invariant index <= processCount && p !in processes[..index]
      {
        index := index + 1;
      }
      FoundAt(k.table, p, index);
      if index == processCount {
        return;
      }
      ClosedBounded(k.table, index, MAX_PROCESS);
      CloseGap(processes, index, processCount);
      processCount := processCount - 1;
      if current >= processCount {
        current := 0;
      }
    }

    method Wakeup()
      requires Shaped()
      modifies this`needResched, states
      ensures Shaped() && Abs() == WakeFirst(old(Abs()), old(processCount))
    {
      hide WakeFirst;
      ghost var k := Abs();
      WakeNone(k);
      for i := 0 to processCount
        invariant Shaped() && Abs() == WakeFirst(k, i)
      {
        var proc := processes[i];
        WakeOneMore(k, i);
        if states[proc] == Blocked {
          if timerTicks >= wakeupTick[proc] {
            states[proc] := Ready;
            needResched := true;
          }
        }
      }
    }

    method TickSlice()
      requires Shaped()
      modifies this`schedulerTicks, this`needResched
      ensures Shaped() && Abs() == SliceTick(old(Abs()))
    {
      schedulerTicks := (schedulerTicks + 1) % WORD;
      if schedulerTicks >= TIME_SLICE {
        schedulerTicks := 0;
        needResched := true;
      }
    }

    /** The timer branch of the interrupt handler. */
    method TimerInterrupt()
      requires Valid()
      modifies this, states
      ensures Valid() && Abs() == Tick(old(Abs()))
    {
      hide Inv, WakeFirst, SliceTick;
      TickKeepsInv(Abs());
      timerTicks := (timerTicks + 1) % WORD;
      Wakeup();
      TickSlice();
    }

    /** process_create_kernel, without the initial stack. */
    method CreateKernel() returns (proc: Option<nat>)
      requires Valid()
      modifies states, wakeupTick
      ensures Valid() && Abs() == Create(old(Abs()))
      ensures proc == var p := FreeSlot(old(states[..]), 0); if p < MAX_PROCESS then Some(p) else None
    {
      ghost var k := Abs();
      CreateKeepsInv(k);
      for i := 0 to MAX_PROCESS
        invariant Abs() == k && FreeSlot(k.states, 0) == FreeSlot(k.states, i)
      {
        if states[i] == Unused {
          wakeupTick[i] := 0;
          states[i] := Ready;
          return Some(i);
        }
      }
      return None;
    }

    method Yield()
      requires Valid() && Enabled(Abs(), OpYield)
      modifies this, states
      ensures Valid() && Abs() == SchedulerSpec.Yield(old(Abs()))
    {
      hide Inv, SchedulerSpec.Schedule;
      YieldKeepsInv(Abs());
      if currentProcess.None? {
        return;
      }
      needResched := false;
      states[currentProcess.value] := Ready;
      Schedule();
    }

    method Exit()
      requires Valid() && Enabled(Abs(), OpExit)
      modifies this, states, processes
      ensures Valid() && Abs() == SchedulerSpec.Exit(old(Abs()))
    {
      hide Inv, SchedulerSpec.Schedule, SchedulerSpec.Remove;
      ExitKeepsInv(Abs());
      var proc := currentProcess.value;
      states[proc] := Exited;
      Remove(proc);
      Schedule();
    }

    method Sleep(ticks: u32)
      requires Valid() && Enabled(Abs(), OpSleep(ticks))
      modifies this, states, wakeupTick
      ensures Valid() && Abs() == SchedulerSpec.Sleep(old(Abs()), ticks)
    {
      hide Inv, SchedulerSpec.Schedule;
      SleepKeepsInv(Abs(), ticks);
      var proc := currentProcess.value;
      wakeupTick[proc] := (timerTicks + ticks) % WORD;
      states[proc] := Blocked;
      Schedule();
    }
  }

  /** Moves the entries after position `index` down by one. */
  method CloseGap(processes: array<nat>, index: nat, count: nat)
    requires index < count <= processes.Length
    modifies processes
    ensures processes[..count - 1] == Closed(old(processes[..count]), index)
  {
    ghost var was := processes[..];
    for i := index to count - 1
      invariant forall j :: 0 <= j < processes.Length && !(index <= j < i) ==> processes[j] == was[j]
      invariant forall j :: index <= j < i ==> processes[j] == was[j + 1]
    {
      processes[i] := processes[i + 1];
    }
  }

  lemma ClosedBounded(table: seq<nat>, i: nat, n: nat)
    requires i < |table| && forall j :: 0 <= j < |table| ==> table[j] < n
    ensures |Closed(table, i)| == |table| - 1
    ensures forall j :: 0 <= j < |table| - 1 ==> Closed(table, i)[j] < n
  {
  }

  /** Adding one at a time modulo `n` is adding all at once. */
  lemma NextCyclic(c: nat, i: nat, n: nat)
    requires c < n && i < n
    ensures ((c + i) % n + 1) % n == (c + 1 + i) % n
  {
    ModOnce(c + i, n);
    ModOnce((c + i) % n + 1, n);
    ModOnce(c + 1 + i, n);
  }

  lemma FoundAt(table: seq<nat>, p: nat, i: nat)
    requires i <= |table| && p !in table[..i] && (i < |table| ==> table[i] == p)
    ensures PositionOf(table, p) == i
  {
    if i > 0 {
      assert table[0] == table[..i][0] && table[1..][..i - 1] == table[..i][1..];
      FoundAt(table[1..], p, i - 1);
    }
  }

  lemma ScanStep(k: Kernel, i: nat)
    requires k.table != [] && i < |k.table|
    ensures Scan(k, i) == if Eligible(k, k.table[Cyclic(k, i)]) then i else Scan(k, i + 1)
  {
  }

  lemma WakeNone(k: Kernel)
    requires Indexed(k)
    ensures WakeFirst(k, 0) == k
  {
  }

  lemma WakeOneMore(k: Kernel, i: nat)
    requires Indexed(k) && i < |k.table|
    ensures var before, p := WakeFirst(k, i), k.table[i];
      WakeFirst(k, i + 1) ==
        if Due(before, p) then before.(states := before.states[p := Ready], needResched := true) else before
  {
  }
}
