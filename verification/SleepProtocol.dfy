/** process_sleep against the timer interrupt, statement by statement: a sleeper is
    woken by the first interrupt whose count has reached its time, and not before. */
module SleepProtocol {
  import opened Bytes
  import opened Wrappers
  import opened SchedulerSpec

  /** Where the current process is inside process_sleep; `Outside` when it is not. */
  datatype Phase = Outside | Computed(wake: u32) | Stored | MustSchedule

  datatype Machine = Machine(k: Kernel, phase: Phase)

  /** The steps between which a timer interrupt can come. */
  datatype Step =
    | Irq
    | Create
    | Add(p: nat)
    | SetIdle(p: nat)
    | Start(p: nat)
    | Yield
    | Exit
    | ComputeWake(n: u32)
    | StoreWake
    | StoreBlocked
    | CallSchedule

  ghost predicate MInv(m: Machine) {
    && Inv(m.k)
    && (!m.phase.Outside? ==> m.k.running.Some? && m.k.states[m.k.running.value] != Exited)
  }

  ghost predicate Possible(m: Machine, s: Step)
    requires MInv(m)
  {
    match s
    case Irq => true
    case Create => m.phase.Outside?
    case Add(p) => m.phase.Outside? && Enabled(m.k, OpAdd(p))
    case SetIdle(p) => m.phase.Outside? && Enabled(m.k, OpSetIdle(p))
    case Start(p) => m.phase.Outside? && Enabled(m.k, OpStart(p))
    case Yield => m.phase.Outside? && Enabled(m.k, OpYield)
    case Exit => m.phase.Outside? && Enabled(m.k, OpExit)
    case ComputeWake(n) => m.phase.Outside? && Enabled(m.k, OpSleep(n))
    case StoreWake => m.phase.Computed?
    case StoreBlocked => m.phase.Stored?
    case CallSchedule => m.phase.MustSchedule?
  }

  ghost function Take(m: Machine, s: Step): Machine
    requires MInv(m) && Possible(m, s)
  {
    var k := m.k;
    match s
    case Irq => m.(k := Tick(k))
    case Create => m.(k := SchedulerSpec.Create(k))
    case Add(p) => m.(k := SchedulerSpec.Add(k, p))
    case SetIdle(p) => m.(k := k.(idle := Some(p)))
    case Start(p) => m.(k := Switch(k, p))
    case Yield => m.(k := SchedulerSpec.Yield(k))
    case Exit => m.(k := SchedulerSpec.Exit(k))
    case ComputeWake(n) => m.(phase := Computed((k.ticks + n) % WORD))
    case StoreWake => Machine(k.(wakeup := k.wakeup[k.running.value := m.phase.wake]), Stored)
    case StoreBlocked => Machine(k.(states := k.states[k.running.value := Blocked]), MustSchedule)
    case CallSchedule => Machine(Schedule(k), Outside)
  }

  lemma IrqKeeps(k: Kernel)
    requires Inv(k)
    ensures var k' := Tick(k);
      && k'.running == k.running && k'.table == k.table && k'.idle == k.idle && k'.wakeup == k.wakeup
      && k'.current == k.current && |k'.states| == |k.states|
      && k'.ticks == (k.ticks + 1) % WORD
      && forall p :: 0 <= p < MAX_PROCESS ==>
           k'.states[p] == if p in k.table && k.states[p] == Blocked && k'.ticks >= k.wakeup[p] then Ready else k.states[p]
  {
    assert k.table[..|k.table|] == k.table;
  }

  lemma TakeKeepsInv(m: Machine, s: Step)
    requires MInv(m) && Possible(m, s)
    ensures MInv(Take(m, s))
  {
    hide Tick, SchedulerSpec.Create, SchedulerSpec.Yield, SchedulerSpec.Exit, Schedule;
    match s
    case Irq =>
      TickKeepsInv(m.k);
      IrqKeeps(m.k);
    case Create => CreateKeepsInv(m.k);
    case Add(p) => AddKeepsInv(m.k, p);
    case SetIdle(p) => DoKeepsInv(m.k, OpSetIdle(p));
    case Start(p) => SwitchKeepsInv(m.k, p);
    case Yield => YieldKeepsInv(m.k);
    case Exit => ExitKeepsInv(m.k);
    case CallSchedule => ScheduleKeepsInv(m.k);
    case _ =>
  }

  /** The machine after a step; the invariant survives it. */
  ghost function TakeInv(m: Machine, s: Step): (m': Machine)
    requires MInv(m) && Possible(m, s)
    ensures MInv(m') && m' == Take(m, s)
  {
    TakeKeepsInv(m, s);
    Take(m, s)
  }

  /** A run: every step is one that its machine can make. */
  ghost predicate PossibleRun(m: Machine, steps: seq<Step>)
    requires MInv(m)
    decreases |steps|
  {
    steps != [] ==> Possible(m, steps[0]) && PossibleRun(TakeInv(m, steps[0]), steps[1..])
  }

  ghost function At(m: Machine, steps: seq<Step>, i: nat): (m': Machine)
    requires MInv(m) && PossibleRun(m, steps) && i <= |steps|
    ensures MInv(m') && |m'.k.states| == MAX_PROCESS
    decreases i
  {
    if i == 0 then m else At(TakeInv(m, steps[0]), steps[1..], i - 1)
  }

  // ----- a process asleep -----

  /** Process `p` sleeps until tick `w`: it is blocked, and if it is still the current
      process then only its call of the scheduler is left to do, and there is another
      process to switch to. */
  ghost predicate Asleep(m: Machine, p: nat, w: u32)
    requires MInv(m)
  {
    && p in m.k.table && m.k.states[p] == Blocked && m.k.wakeup[p] == w
    && (m.k.running == Some(p) ==> m.phase.MustSchedule? && CanLeave(m.k))
  }

  lemma ScheduleLeavesSleeper(k: Kernel, p: nat)
    requires Inv(k) && p in k.table && k.states[p] == Blocked
    ensures var k' := Schedule(k);
      && k'.table == k.table && k'.wakeup == k.wakeup
      && k'.states[p] == Blocked
      && (k'.running == Some(p) <==> k.running == Some(p) && !CanLeave(k))
  {
    SwitchesAwayIff(k);
  }

  lemma RemoveKeepsOthers(table: seq<nat>, p: nat, i: nat)
    requires p in table && i < |table| && table[i] != p
    ensures p in Closed(table, i)
  {
    var j :| 0 <= j < |table| && table[j] == p;
    assert Closed(table, i)[if j < i then j else j - 1] == p;
  }

  lemma ExitLeavesSleeper(k: Kernel, p: nat)
    requires Inv(k) && Enabled(k, OpExit) && k.running != Some(p)
    requires p in k.table && k.states[p] == Blocked
    ensures var k' := SchedulerSpec.Exit(k);
      && p in k'.table && k'.wakeup == k.wakeup
      && k'.states[p] == Blocked && k'.running != Some(p)
  {
    hide Schedule, Closed, PositionOf;
    var q := k.running.value;
    assert p < |k.states| by { InvBounds(k, p); }
    var i := PositionOf(k.table, q);
    PositionFound(k.table, q);
    if i < |k.table| {
      RemoveKeepsOthers(k.table, p, i);
    }
    RemoveKeepsInv(k, q);
    ScheduleLeavesSleeper(Remove(k.(states := k.states[q := Exited]), q), p);
  }

  lemma PositionFound(table: seq<nat>, p: nat)
    ensures var i := PositionOf(table, p); i <= |table| && (i < |table| ==> table[i] == p)
  {
  }

  lemma InvBounds(k: Kernel, p: nat)
    requires Inv(k) && p in k.table
    ensures p < MAX_PROCESS && |k.states| == MAX_PROCESS && k.idle != Some(p)
  {
  }

  lemma RunningBound(k: Kernel)
    requires Inv(k)
    ensures |k.states| == |k.wakeup| == MAX_PROCESS
    ensures k.running.Some? ==> k.running.value < MAX_PROCESS
  {
  }

  lemma CreateLeavesSleeper(k: Kernel, p: nat)
    requires Inv(k) && p in k.table && k.states[p] == Blocked
    ensures var k' := SchedulerSpec.Create(k);
      k'.states[p] == Blocked && k'.wakeup[p] == k.wakeup[p] && k' == k.(states := k'.states, wakeup := k'.wakeup)
  {
  }

  lemma YieldLeavesSleeper(k: Kernel, p: nat)
    requires Inv(k) && Enabled(k, OpYield) && k.running != Some(p)
    requires p in k.table && k.states[p] == Blocked
    ensures var k' := SchedulerSpec.Yield(k);
      && k'.table == k.table && k'.wakeup == k.wakeup
      && k'.states[p] == Blocked && k'.running != Some(p)
  {
    hide Schedule, CanLeave;
    if k.running.Some? {
      var k1 := k.(needResched := false, states := k.states[k.running.value := Ready]);
      assert Inv(k1);
      ScheduleLeavesSleeper(k1, p);
    }
  }

  lemma IrqKeepsCanLeave(k: Kernel)
    requires Inv(k) && CanLeave(k)
    ensures CanLeave(Tick(k))
  {
    IrqKeeps(k);
    if t: nat :| t < |k.table| && Eligible(k, k.table[t]) {
      assert Eligible(Tick(k), k.table[t]);
    }
  }

  /** No step but a timer interrupt that has reached its time disturbs a sleeper, and
      such an interrupt makes it ready. */
  lemma SleeperStep(m: Machine, s: Step, p: nat, w: u32)
    requires MInv(m) && Possible(m, s) && Asleep(m, p, w)
    ensures MInv(Take(m, s)) && p < |Take(m, s).k.states|
    ensures s == Irq && Take(m, s).k.ticks >= w ==> Take(m, s).k.states[p] == Ready
    ensures !(s == Irq && Take(m, s).k.ticks >= w) ==> Asleep(Take(m, s), p, w)
  {
    hide Tick, SchedulerSpec.Create, SchedulerSpec.Yield, SchedulerSpec.Exit, Schedule, Inv, CanLeave;
    TakeKeepsInv(m, s);
    InvBounds(m.k, p);
    RunningBound(m.k);
    match s
    case Irq =>
      IrqKeeps(m.k);
      if CanLeave(m.k) {
        IrqKeepsCanLeave(m.k);
      }
    case Create =>
      CreateLeavesSleeper(m.k, p);
    case Yield =>
      YieldLeavesSleeper(m.k, p);
    case Exit =>
      ExitLeavesSleeper(m.k, p);
    case CallSchedule =>
      ScheduleLeavesSleeper(m.k, p);
    case _ =>
  }

  /** One of the first `i` steps is a timer interrupt whose count has reached `w`. */
  ghost predicate Reached(m: Machine, steps: seq<Step>, i: nat, w: u32)
    requires MInv(m) && PossibleRun(m, steps) && i <= |steps|
    decreases i
  {
    i > 0 && ((steps[0] == Irq && Take(m, steps[0]).k.ticks >= w) || Reached(TakeInv(m, steps[0]), steps[1..], i - 1, w))
  }

  /** Along every run from `m`, process `p` is blocked up to the first timer interrupt
      whose count has reached `w`, and that interrupt makes it ready. */
  ghost predicate WokenOnTime(m: Machine, p: nat, w: u32)
    requires MInv(m) && p < MAX_PROCESS
  {
    forall steps, i :: PossibleRun(m, steps) && 0 <= i <= |steps| ==>
      && (!Reached(m, steps, i, w) ==> At(m, steps, i).k.states[p] == Blocked)
      && (i > 0 && Reached(m, steps, i, w) && !Reached(m, steps, i - 1, w) ==> At(m, steps, i).k.states[p] == Ready)
  }

  /** The machine once the current process has called the scheduler. */
  ghost function SchedulerCalled(m: Machine): (m': Machine)
    requires MInv(m) && m.phase.MustSchedule?
    ensures MInv(m') && m' == Take(m, CallSchedule)
  {
    TakeInv(m, CallSchedule)
  }

  /** No lost and no early wakeup: along every run, the sleeper stays asleep until the
      first timer interrupt whose count has reached its time, and that interrupt makes
      it ready. */
  lemma {:induction false} WokenExactlyOnTime(m: Machine, steps: seq<Step>, i: nat, p: nat, w: u32)
    requires MInv(m) && PossibleRun(m, steps) && i <= |steps| && Asleep(m, p, w)
    ensures !Reached(m, steps, i, w) ==> Asleep(At(m, steps, i), p, w)
    ensures i > 0 && Reached(m, steps, i, w) && !Reached(m, steps, i - 1, w) ==>
      p < |At(m, steps, i).k.states| && At(m, steps, i).k.states[p] == Ready
    decreases i
  {
    hide MInv, Possible, Take, Asleep;
    if i > 0 {
      SleeperStep(m, steps[0], p, w);
      if !(steps[0] == Irq && Take(m, steps[0]).k.ticks >= w) {
        WokenExactlyOnTime(TakeInv(m, steps[0]), steps[1..], i - 1, p, w);
      }
    }
  }

  /** A process about to make process_sleep's call of the scheduler is woken on time
      along every run if and only if that call has somebody to switch to. Otherwise
      the call returns to the blocked caller, and its next yield makes it ready. */
  lemma WokenOnTimeIff(m: Machine, p: nat, w: u32)
    requires MInv(m) && m.phase.MustSchedule? && m.k.running == Some(p)
    requires p in m.k.table && m.k.states[p] == Blocked && m.k.wakeup[p] == w
    ensures p < MAX_PROCESS
    ensures WokenOnTime(SchedulerCalled(m), p, w) <==> CanLeave(m.k)
  {
    hide Inv, CanLeave, Schedule, SchedulerCalled, WokenOnTime;
    InvBounds(m.k, p);
    if CanLeave(m.k) {
      AsleepIsWokenOnTime(m, p, w);
    } else {
      ReturnsEarly(m, p, w);
    }
  }

  lemma AsleepIsWokenOnTime(m: Machine, p: nat, w: u32)
    requires MInv(m) && m.phase.MustSchedule? && Asleep(m, p, w) && p < MAX_PROCESS
    ensures WokenOnTime(SchedulerCalled(m), p, w)
  {
    hide Inv, Take, Reached, At, CanLeave, PossibleRun;
    SleeperStep(m, CallSchedule, p, w);
    var m' := SchedulerCalled(m);
    forall steps, i: nat | PossibleRun(m', steps) && i <= |steps|
      ensures !Reached(m', steps, i, w) ==> At(m', steps, i).k.states[p] == Blocked
      ensures i > 0 && Reached(m', steps, i, w) && !Reached(m', steps, i - 1, w) ==> At(m', steps, i).k.states[p] == Ready
    {
      WokenExactlyOnTime(m', steps, i, p, w);
    }
  }

  /** With nobody to switch to, a call of process_sleep followed by one of process_yield
      leaves the caller ready with no timer interrupt at all. */
  lemma ReturnsEarly(m: Machine, p: nat, w: u32)
    requires MInv(m) && m.phase.MustSchedule? && m.k.running == Some(p)
    requires p in m.k.table && m.k.states[p] == Blocked && m.k.wakeup[p] == w
    requires !CanLeave(m.k)
    ensures p < MAX_PROCESS
    ensures !WokenOnTime(SchedulerCalled(m), p, w)
  {
    hide Schedule;
    InvBounds(m.k, p);
    SwitchesAwayIff(m.k);
    var back := SchedulerCalled(m);
    assert back == Machine(m.k, Outside);
    var k1 := m.k.(needResched := false, states := m.k.states[p := Ready]);
    assert Inv(k1);
    assert !CanLeave(k1) by {
      forall t | 0 <= t < |k1.table|
        ensures !Eligible(k1, k1.table[t])
      {
        assert !Eligible(m.k, m.k.table[t]);
      }
    }
    SwitchesAwayIff(k1);
    assert Possible(back, Yield);
    var ready := TakeInv(back, Yield);
    var steps := [Yield];
    assert steps[1..] == [];
    assert PossibleRun(ready, []);
    assert PossibleRun(back, steps);
    assert At(ready, [], 0) == ready;
    assert At(back, steps, 1) == ready;
    assert !Reached(ready, [], 0, w);
    assert !Reached(back, steps, 1, w);
  }

  /** The concrete failure: the only process, without an idle process, calls
      process_sleep(n); the call returns at once with the caller blocked, and its next
      yield makes it ready at tick 0. */
  lemma LoneSleeperReturnsEarly(n: u32)
    requires n > 0
    ensures Inv(LoneProcess())
    ensures Sleep(LoneProcess(), n).running == Some(0) && Sleep(LoneProcess(), n).states[0] == Blocked
    ensures |Sleep(LoneProcess(), n).states| == |Sleep(LoneProcess(), n).wakeup| && Indexed(Sleep(LoneProcess(), n))
    ensures var k := SchedulerSpec.Yield(Sleep(LoneProcess(), n));
      |k.wakeup| == MAX_PROCESS && k.states[0] == Ready && k.ticks < k.wakeup[0]
  {
    hide Schedule;
    var k := LoneProcess();
    var blocked := k.(wakeup := k.wakeup[0 := n], states := k.states[0 := Blocked]);
    SwitchesAwayIff(blocked);
    SwitchesAwayIff(blocked.(states := k.states[0 := Ready]));
    assert k.states[0 := Blocked][0 := Ready] == k.states[0 := Ready];
  }

  // ----- from the call of process_sleep -----

  /** The machine after `j` timer interrupts; they leave the current process alone. */
  ghost function AfterIrqs(m: Machine, j: nat): (m': Machine)
    requires MInv(m)
    ensures MInv(m') && m'.phase == m.phase
    ensures m'.k.running == m.k.running && m'.k.table == m.k.table
    ensures m'.k.idle == m.k.idle && m'.k.wakeup == m.k.wakeup
    decreases j
  {
    if j == 0 then m
    else
      IrqKeeps(m.k);
      AfterIrqs(TakeInv(m, Irq), j - 1)
  }

  /** One of the next `j` timer interrupts counts up to `w` or beyond. */
  ghost predicate IrqReaches(m: Machine, j: nat, w: u32)
    requires MInv(m)
    decreases j
  {
    j > 0 && (Take(m, Irq).k.ticks >= w || IrqReaches(TakeInv(m, Irq), j - 1, w))
  }

  /** process_sleep(n) with the sum computed and then `i` interrupts. */
  ghost function SleepSummed(m: Machine, n: u32, i: nat): (m': Machine)
    requires MInv(m) && Possible(m, ComputeWake(n))
    ensures MInv(m') && m'.phase.Computed?
  {
    hide Inv, Enabled, Tick;
    AfterIrqs(TakeInv(m, ComputeWake(n)), i)
  }

  ghost function WakeStored(m: Machine): (m': Machine)
    requires MInv(m) && m.phase.Computed?
    ensures MInv(m') && m'.phase.Stored? && m' == Take(m, StoreWake)
  {
    TakeInv(m, StoreWake)
  }

  ghost function BlockedStored(m: Machine): (m': Machine)
    requires MInv(m) && m.phase.Stored?
    ensures MInv(m') && m'.phase.MustSchedule? && m' == Take(m, StoreBlocked)
  {
    TakeInv(m, StoreBlocked)
  }

  /** process_sleep(n) with the sum stored and then `j` more interrupts. */
  ghost function SleepStored(m: Machine, n: u32, i: nat, j: nat): (m': Machine)
    requires MInv(m) && Possible(m, ComputeWake(n))
    ensures MInv(m') && m'.phase.Stored?
  {
    hide MInv, Possible, Take, SleepSummed;
    AfterIrqs(WakeStored(SleepSummed(m, n, i)), j)
  }

  /** process_sleep(n) up to its BLOCKED store, with `i` interrupts after the sum was
      computed and `j` after it was stored. */
  ghost function SleepStores(m: Machine, n: u32, i: nat, j: nat): (m': Machine)
    requires MInv(m) && Possible(m, ComputeWake(n))
    ensures MInv(m') && m'.phase.MustSchedule?
  {
    hide MInv, Possible, Take, SleepStored;
    BlockedStored(SleepStored(m, n, i, j))
  }

  /** Wherever interrupts fall, a table member that calls process_sleep(n) at tick t is
      blocked with alarm t + n once the BLOCKED store is done. */
  lemma SleepSetsAlarm(m: Machine, n: u32, i: nat, j: nat)
    requires MInv(m) && Possible(m, ComputeWake(n))
    requires m.k.running.value in m.k.table
    requires m.k.ticks + n < WORD
    ensures var m', p := SleepStores(m, n, i, j), m.k.running.value;
      && m'.k.running == Some(p) && p in m'.k.table
      && p < |m'.k.states| && m'.k.states[p] == Blocked && m'.k.wakeup[p] == m.k.ticks + n
  {
    hide Inv, Enabled, Tick, AfterIrqs;
    var summed := SleepSummed(m, n, i);
    var stored := SleepStored(m, n, i, j);
    RunningBound(summed.k);
    RunningBound(stored.k);
  }

  /** Interrupts between the BLOCKED store and the call of the scheduler wake the caller
      exactly when one of them has reached its time. */
  lemma {:induction false} IrqsWakeIff(m: Machine, j: nat, p: nat, w: u32)
    requires MInv(m) && p in m.k.table && p < |m.k.states| && m.k.wakeup[p] == w
    requires m.k.states[p] == Blocked || m.k.states[p] == Ready
    ensures p < |AfterIrqs(m, j).k.states|
    ensures AfterIrqs(m, j).k.states[p] == if m.k.states[p] == Blocked && !IrqReaches(m, j, w) then Blocked else Ready
    decreases j
  {
    hide Inv, Tick;
    if j > 0 {
      IrqKeeps(m.k);
      InvBounds(m.k, p);
      InvBounds(TakeInv(m, Irq).k, p);
      IrqsWakeIff(TakeInv(m, Irq), j - 1, p, w);
    }
  }

  /** process_sleep(n) when it is about to call the scheduler, after `l` more interrupts. */
  ghost function SleepAtCall(m: Machine, n: u32, i: nat, j: nat, l: nat): (m': Machine)
    requires MInv(m) && Possible(m, ComputeWake(n))
    ensures MInv(m') && m'.phase.MustSchedule? && |m'.k.states| == MAX_PROCESS
  {
    hide Enabled, Tick, SleepStores;
    AfterIrqs(SleepStores(m, n, i, j), l)
  }

  /** The whole protocol, for a table member that calls process_sleep(n) at tick t, with
      any interrupts between its statements. When it comes to call the scheduler it is
      ready if one of the last `l` interrupts reached t + n, and blocked otherwise; in
      the second case every run afterwards wakes it at the first interrupt that reaches
      t + n, and not before, if and only if the scheduler has somebody to switch to. */
  lemma SleepProtocolExact(m: Machine, n: u32, i: nat, j: nat, l: nat, p: nat, w: u32)
    requires MInv(m) && Possible(m, ComputeWake(n))
    requires p in m.k.table && p < MAX_PROCESS && m.k.running == Some(p)
    requires w == m.k.ticks + n
    ensures SleepAtCall(m, n, i, j, l).k.states[p] ==
      if IrqReaches(SleepStores(m, n, i, j), l, w) then Ready else Blocked
    ensures !IrqReaches(SleepStores(m, n, i, j), l, w) ==>
      (WokenOnTime(SchedulerCalled(SleepAtCall(m, n, i, j, l)), p, w) <==> CanLeave(SleepAtCall(m, n, i, j, l).k))
  {
    hide Inv, Enabled, CanLeave, SleepStores, Take, WokenOnTime, SchedulerCalled, IrqReaches;
    var stored := SleepStores(m, n, i, j);
    SleepSetsAlarm(m, n, i, j);
    IrqsWakeIff(stored, l, p, w);
    if !IrqReaches(stored, l, w) {
      WokenOnTimeIff(AfterIrqs(stored, l), p, w);
    }
  }

  /** Without an interrupt between its statements, the protocol is process_sleep in one
      step. */
  lemma UninterruptedSleep(m: Machine, n: u32)
    requires MInv(m) && Possible(m, ComputeWake(n))
    ensures SchedulerCalled(SleepAtCall(m, n, 0, 0, 0)) == Machine(SchedulerSpec.Sleep(m.k, n), Outside)
  {
    hide Inv, Enabled, Tick, Schedule;
    RunningBound(m.k);
  }
}
