/** The scheduler and the context switch as one machine: every dispatch that the
    scheduler decides on is a switch to a process whose frame is in place, so suspended
    processes get their registers back along every run of the process operations. */
module Processes {
  import opened Bytes
  import opened Wrappers
  import S = SchedulerSpec
  import C = ContextSwitch

  /** The scheduler's state and the words of the process table with its stacks. */
  datatype Machine = Machine(k: S.Kernel, c: C.System)

  /** The slot whose stack is in use; before the first switch it is the boot code's. */
  function SlotInUse(k: S.Kernel): nat {
    match k.running
    case Some(p) => p
    case None => C.SLOTS - 1
  }

  /** Every process that lives and is not the current one has a frame to resume from. */
  ghost predicate Inv(m: Machine) {
    && S.Inv(m.k) && C.Inv(m.c)
    && m.c.running == SlotInUse(m.k)
    && (forall p :: 0 <= p < S.MAX_PROCESS && p != m.c.running && S.Alive(m.k.states[p]) ==> p in m.c.saved)
    && (forall p :: p in m.c.saved && p < S.MAX_PROCESS ==> m.k.states[p] != S.Unused)
  }

  /** `Operate` is any operation but creation; `ret` is where its caller continues. */
  datatype Step =
    | Work(mem: C.Memory, regs: C.Registers)
    | Create(entry: u32, mem: C.Memory)
    | Operate(op: S.Op, ret: u32)

  function Slot(k: S.Kernel): nat {
    S.FreeSlot(k.states, 0)
  }

  /** The memory after process_create_kernel, which leaves it alone when no slot is free. */
  ghost predicate Built(m: Machine, entry: u32, mem: C.Memory)
    requires Inv(m)
  {
    var i := Slot(m.k);
    if i == S.MAX_PROCESS then mem == m.c.mem
    else
      && C.HasFrame(mem, i) && C.Frame(mem, i) == C.Registers(0, 0, 0, 0, C.StackTop(i), entry)
      && forall j :: 0 <= j < C.SLOTS && j != i ==> C.SameSlot(m.c.mem, mem, j)
  }

  /** What callers and running processes may do; nothing is asked about who can be
      switched to. */
  ghost predicate Possible(m: Machine, s: Step)
    requires Inv(m)
  {
    match s
    case Work(mem, regs) => C.Allowed(m.c, C.Work(mem, regs))
    case Create(entry, mem) => Built(m, entry, mem)
    case Operate(op, _) =>
      && !op.OpCreate? && S.Enabled(m.k, op)
      && (S.Do(m.k, op).running != m.k.running ==> C.RoomToSwitch(m.c.running, m.c.regs.esp))
  }

  /** Boot: no process, nothing saved, whatever the memory and the registers. */
  lemma BootInv(mem: C.Memory, regs: C.Registers)
    ensures Inv(Machine(S.Booted(), C.System(mem, regs, C.SLOTS - 1, map[])))
  {
  }

  // ----- every dispatch is an allowed switch -----

  /** From `k` to `k'`, the processor went at most to a process that lives, none was
      given life and unused slots stayed unused. */
  ghost predicate DispatchesAlive(k: S.Kernel, k': S.Kernel) {
    && |k'.states| == |k.states|
    && (k'.running != k.running ==>
         && k'.running.Some? && k'.running.value < |k.states| && S.Alive(k.states[k'.running.value]))
    && forall p :: 0 <= p < |k.states| ==>
         && (S.Alive(k'.states[p]) ==> S.Alive(k.states[p]))
         && (k'.states[p] == S.Unused <==> k.states[p] == S.Unused)
  }

  lemma ScheduleDispatchesAlive(k: S.Kernel)
    requires S.Inv(k)
    ensures DispatchesAlive(k, S.Schedule(k))
  {
  }

  lemma YieldDispatchesAlive(k: S.Kernel)
    requires S.Inv(k) && S.Enabled(k, S.OpYield)
    ensures DispatchesAlive(k, S.Yield(k))
  {
    hide S.Schedule;
    if k.running.Some? {
      var k1 := k.(needResched := false, states := k.states[k.running.value := S.Ready]);
      assert S.Inv(k1);
      ScheduleDispatchesAlive(k1);
    }
  }

  lemma SleepDispatchesAlive(k: S.Kernel, n: u32)
    requires S.Inv(k) && S.Enabled(k, S.OpSleep(n))
    ensures DispatchesAlive(k, S.Sleep(k, n))
  {
    hide S.Schedule;
    var p := k.running.value;
    var k1 := k.(wakeup := k.wakeup[p := (k.ticks + n) % WORD], states := k.states[p := S.Blocked]);
    assert S.Inv(k1);
    ScheduleDispatchesAlive(k1);
  }

  lemma ExitDispatchesAlive(k: S.Kernel)
    requires S.Inv(k) && S.Enabled(k, S.OpExit)
    ensures DispatchesAlive(k, S.Exit(k))
  {
    hide S.Schedule, S.Remove;
    var p := k.running.value;
    var k1 := k.(states := k.states[p := S.Exited]);
    S.RemoveKeepsInv(k, p);
    S.RemoveOnlyTable(k1, p);
    ScheduleDispatchesAlive(S.Remove(k1, p));
  }

  lemma TickDispatchesAlive(k: S.Kernel)
    requires S.Inv(k)
    ensures DispatchesAlive(k, S.Tick(k))
  {
  }

  lemma DoDispatchesAlive(k: S.Kernel, op: S.Op)
    requires S.Inv(k) && S.Enabled(k, op) && !op.OpCreate?
    ensures DispatchesAlive(k, S.Do(k, op))
  {
    hide S.Yield, S.Sleep, S.Exit, S.Tick;
    match op
    case OpYield => YieldDispatchesAlive(k);
    case OpSleep(n) => SleepDispatchesAlive(k, n);
    case OpExit => ExitDispatchesAlive(k);
    case OpTick => TickDispatchesAlive(k);
    case _ =>
  }

  /** The switch that an operation decides on, if any, is one that the machine code can
      carry out: its target has a frame. */
  lemma DispatchAllowed(m: Machine, op: S.Op, ret: u32)
    requires Inv(m) && Possible(m, Operate(op, ret))
    ensures S.Do(m.k, op).running != m.k.running ==>
      && S.Do(m.k, op).running.Some?
      && C.Allowed(m.c, C.SwitchTo(S.Do(m.k, op).running.value, ret))
  {
    hide S.Inv, S.Enabled, S.Do, C.Inv;
    DoDispatchesAlive(m.k, op);
    RunningHasSlot(m.k);
  }

  lemma RunningHasSlot(k: S.Kernel)
    requires S.Inv(k)
    ensures |k.states| == S.MAX_PROCESS
    ensures k.running.Some? ==> k.running.value < S.MAX_PROCESS && k.states[k.running.value] != S.Unused
  {
  }

  /** The slot that creation takes belongs to nobody. */
  lemma CreationAllowed(m: Machine, entry: u32, mem: C.Memory)
    requires Inv(m) && Built(m, entry, mem) && Slot(m.k) < S.MAX_PROCESS
    ensures C.Allowed(m.c, C.Create(Slot(m.k), entry, mem))
  {
    RunningHasSlot(m.k);
  }

  ghost function Take(m: Machine, s: Step): Machine
    requires Inv(m) && Possible(m, s)
  {
    match s
    case Work(mem, regs) => m.(c := C.Take(m.c, C.Work(mem, regs)))
    case Create(entry, mem) =>
      if Slot(m.k) == S.MAX_PROCESS then m
      else
        CreationAllowed(m, entry, mem);
        Machine(S.Create(m.k), C.Take(m.c, C.Create(Slot(m.k), entry, mem)))
    case Operate(op, ret) =>
      DispatchAllowed(m, op, ret);
      var k := S.Do(m.k, op);
      Machine(k, if k.running == m.k.running then m.c else C.Take(m.c, C.SwitchTo(k.running.value, ret)))
  }

  lemma OperateKeepsInv(m: Machine, op: S.Op, ret: u32)
    requires Inv(m) && Possible(m, Operate(op, ret))
    ensures Inv(Take(m, Operate(op, ret)))
  {
    hide S.Inv, S.Enabled, S.Do, C.Inv, C.Switched, S.Alive;
    S.DoKeepsInv(m.k, op);
    DoDispatchesAlive(m.k, op);
    RunningHasSlot(m.k);
    var k := S.Do(m.k, op);
    RunningHasSlot(k);
    DispatchAllowed(m, op, ret);
    if k.running != m.k.running {
      C.TakeKeepsInv(m.c, C.SwitchTo(k.running.value, ret));
    }
  }

  lemma CreateKeepsInv(m: Machine, entry: u32, mem: C.Memory)
    requires Inv(m) && Possible(m, Create(entry, mem))
    ensures Inv(Take(m, Create(entry, mem)))
  {
    hide S.Inv, C.Inv, C.HasFrame, C.Frame, C.SameSlot;
    RunningHasSlot(m.k);
    if Slot(m.k) < S.MAX_PROCESS {
      CreationAllowed(m, entry, mem);
      S.CreateKeepsInv(m.k);
      C.TakeKeepsInv(m.c, C.Create(Slot(m.k), entry, mem));
    }
  }

  /** Every step keeps the frames of all living processes in place. */
  lemma TakeKeepsInv(m: Machine, s: Step)
    requires Inv(m) && Possible(m, s)
    ensures Inv(Take(m, s))
  {
    hide S.Inv, S.Do, C.Inv;
    match s
    case Work(mem, regs) => C.TakeKeepsInv(m.c, C.Work(mem, regs));
    case Create(entry, mem) => CreateKeepsInv(m, entry, mem);
    case Operate(op, ret) => OperateKeepsInv(m, op, ret);
  }

  // ----- runs -----

  ghost function TakeInv(m: Machine, s: Step): (m': Machine)
    requires Inv(m) && Possible(m, s)
    ensures Inv(m') && m' == Take(m, s)
  {
    TakeKeepsInv(m, s);
    Take(m, s)
  }

  ghost predicate Run(m: Machine, steps: seq<Step>)
    requires Inv(m)
    decreases |steps|
  {
    steps != [] ==> Possible(m, steps[0]) && Run(TakeInv(m, steps[0]), steps[1..])
  }

  ghost function After(m: Machine, steps: seq<Step>): (m': Machine)
    requires Inv(m) && Run(m, steps)
    ensures Inv(m')
    decreases |steps|
  {
    if steps == [] then m else After(TakeInv(m, steps[0]), steps[1..])
  }

  /** Process `i` is not the current one before, during or after the steps. */
  ghost predicate Suspended(m: Machine, steps: seq<Step>, i: nat)
    requires Inv(m) && Run(m, steps)
    decreases |steps|
  {
    && m.c.running != i
    && (steps != [] ==> Suspended(TakeInv(m, steps[0]), steps[1..], i))
  }

  lemma StepKeepsSaved(m: Machine, s: Step, i: nat)
    requires Inv(m) && Possible(m, s) && i in m.c.saved && i != m.c.running
    ensures i in Take(m, s).c.saved && Take(m, s).c.saved[i] == m.c.saved[i]
  {
    hide S.Do, C.Switched;
    match s
    case Create(entry, mem) =>
      RunningHasSlot(m.k);
      if Slot(m.k) < S.MAX_PROCESS {
        CreationAllowed(m, entry, mem);
      }
    case Operate(op, ret) =>
      DispatchAllowed(m, op, ret);
    case _ =>
  }

  lemma {:induction false} SavedStays(m: Machine, steps: seq<Step>, i: nat)
    requires Inv(m) && Run(m, steps) && i in m.c.saved && Suspended(m, steps, i)
    ensures i in After(m, steps).c.saved && After(m, steps).c.saved[i] == m.c.saved[i]
    ensures After(m, steps).c.running != i
    decreases |steps|
  {
    hide Inv, Possible, Take;
    if steps != [] {
      StepKeepsSaved(m, steps[0], i);
      SavedStays(TakeInv(m, steps[0]), steps[1..], i);
    }
  }

  /** A dispatch hands the processor over with the registers recorded for the target. */
  lemma DispatchLoads(m: Machine, s: Step, i: nat)
    requires Inv(m) && Possible(m, s) && i in m.c.saved && m.c.running != i
    requires Take(m, s).c.running == i
    ensures Take(m, s).c.regs == m.c.saved[i]
  {
    hide S.Inv, S.Do, C.Inv, C.Switched;
    if s.Operate? {
      DispatchAllowed(m, s.op, s.ret);
      C.TakeKeepsInv(m.c, C.SwitchTo(S.Do(m.k, s.op).running.value, s.ret));
    }
  }

  /** A process that loses the processor in one of the operations and is not current
      during any run afterwards continues, at the operation that dispatches it again,
      with its own registers and stack pointer behind its own call. */
  lemma ResumesWhereSuspended(m: Machine, away: Step, steps: seq<Step>, back: Step)
    requires Inv(m) && away.Operate? && Possible(m, away)
    requires Take(m, away).c.running != m.c.running
    requires Run(TakeInv(m, away), steps) && Suspended(TakeInv(m, away), steps, m.c.running)
    requires Possible(After(TakeInv(m, away), steps), back)
    requires Take(After(TakeInv(m, away), steps), back).c.running == m.c.running
    ensures m.c.regs.esp >= 2
    ensures Take(After(TakeInv(m, away), steps), back).c.regs == C.Resumed(m.c.regs, away.ret)
  {
    hide S.Inv, S.Do, C.Inv, C.Switched, Run, After, Suspended;
    DispatchAllowed(m, away.op, away.ret);
    var m1 := TakeInv(m, away);
    SavedStays(m1, steps, m.c.running);
    DispatchLoads(After(m1, steps), back, m.c.running);
  }

  /** A new process first runs at its entry point, with an empty stack and zero registers. */
  lemma StartsAtEntry(m: Machine, create: Step, steps: seq<Step>, start: Step)
    requires Inv(m) && create.Create? && Possible(m, create) && Slot(m.k) < S.MAX_PROCESS
    requires Run(TakeInv(m, create), steps) && Suspended(TakeInv(m, create), steps, Slot(m.k))
    requires Possible(After(TakeInv(m, create), steps), start)
    requires Take(After(TakeInv(m, create), steps), start).c.running == Slot(m.k)
    ensures Take(After(TakeInv(m, create), steps), start).c.regs
         == C.Registers(0, 0, 0, 0, C.StackTop(Slot(m.k)), create.entry)
  {
    hide S.Inv, C.Inv, C.HasFrame, C.Frame, C.SameSlot, Run, After, Suspended;
    CreationAllowed(m, create.entry, create.mem);
    var m1 := TakeInv(m, create);
    SavedStays(m1, steps, Slot(m.k));
    DispatchLoads(After(m1, steps), start, Slot(m.k));
  }
}
