/** The process table and the round-robin scheduler of kernel/process.c and
    kernel/scheduler.c as values: what each operation does to the state, which
    invariants every run keeps, and how long a ready process can be passed over. */
module SchedulerSpec {
  import opened Bytes
  import opened Wrappers

  const MAX_PROCESS := 16
  const TIME_SLICE := 10

  datatype ProcessState = Unused | Ready | Running | Blocked | Exited

  /** A process is named by its slot in process_table. `table` is the used part of the
      scheduler's own array, `current` its position in it, `running` the process that
      current_process points to. */
  datatype Kernel = Kernel(
    states: seq<ProcessState>,
    wakeup: seq<u32>,
    table: seq<nat>,
    current: nat,
    running: Option<nat>,
    idle: Option<nat>,
    ticks: u32,
    sliceTicks: u32,
    needResched: bool)

  predicate Alive(s: ProcessState) {
    s != Unused && s != Exited
  }

  predicate Distinct(table: seq<nat>) {
    forall i, j :: 0 <= i < j < |table| ==> table[i] != table[j]
  }

  ghost predicate Inv(k: Kernel) {
    && |k.states| == |k.wakeup| == MAX_PROCESS
    && |k.table| <= MAX_PROCESS
    && (forall i :: 0 <= i < |k.table| ==> k.table[i] < MAX_PROCESS && Alive(k.states[k.table[i]]))
    && Distinct(k.table)
    && (k.current < |k.table| || (k.table == [] && k.current == 0))
    && (forall p :: 0 <= p < MAX_PROCESS && k.states[p] == Running ==> k.running == Some(p))
    && (k.running.Some? ==> k.running.value < MAX_PROCESS && k.states[k.running.value] != Unused)
    && (k.idle.Some? ==> k.idle.value < MAX_PROCESS && k.idle.value !in k.table && Alive(k.states[k.idle.value]))
  }

  // ----- process_switch and scheduler_schedule -----

  /** The state changes of process_switch. */
  function Switch(k: Kernel, next: nat): (k': Kernel)
    requires next < |k.states|
    requires k.running.Some? ==> k.running.value < |k.states|
    ensures |k'.states| == |k.states|
  {
    var prev := k.running;
    var s := if prev.Some? && k.states[prev.value] == Running then k.states[prev.value := Ready] else k.states;
    k.(states := s[next := Running], running := Some(next))
  }

  predicate Eligible(k: Kernel, p: nat) {
    p < |k.states| && k.running != Some(p) && k.states[p] == Ready
  }

  /** The position reached after `i + 1` cyclic steps from the current one. */
  function Cyclic(k: Kernel, i: nat): nat
    requires k.table != []
  {
    (k.current + 1 + i) % |k.table|
  }

  /** How many positions the scan passes over before an eligible process, from the i-th
      on; the table size when there is none. */
  function Scan(k: Kernel, i: nat): (r: nat)
    requires k.table != [] && i <= |k.table|
    ensures i <= r <= |k.table|
    ensures r < |k.table| ==> Eligible(k, k.table[Cyclic(k, r)])
    ensures forall j :: i <= j < r ==> !Eligible(k, k.table[Cyclic(k, j)])
    decreases |k.table| - i
  {
    if i == |k.table| || Eligible(k, k.table[Cyclic(k, i)]) then i else Scan(k, i + 1)
  }

  function Schedule(k: Kernel): (k': Kernel)
    requires Indexed(k)
    ensures |k'.states| == |k.states|
  {
    if k.table != [] && Scan(k, 0) < |k.table| then
      var next := Cyclic(k, Scan(k, 0));
      Switch(k.(current := next), k.table[next])
    else if k.idle.Some? && k.running != k.idle then
      Switch(k, k.idle.value)
    else
      k
  }

  /** Every process mentioned has a slot. */
  predicate Indexed(k: Kernel) {
    && |k.states| == |k.wakeup|
    && (k.running.Some? ==> k.running.value < |k.states|)
    && (k.idle.Some? ==> k.idle.value < |k.states|)
    && forall i :: 0 <= i < |k.table| ==> k.table[i] < |k.states|
  }

  // ----- the operations -----

  /** The lowest unused slot from `i` on. */
  function FreeSlot(states: seq<ProcessState>, i: nat): (r: nat)
    requires i <= |states|
    ensures i <= r <= |states|
    ensures r < |states| ==> states[r] == Unused
    ensures forall j :: i <= j < r ==> states[j] != Unused
    decreases |states| - i
  {
    if i == |states| || states[i] == Unused then i else FreeSlot(states, i + 1)
  }

  function Create(k: Kernel): (k': Kernel)
    requires |k.states| == |k.wakeup|
    ensures |k'.states| == |k.states|
  {
    var p := FreeSlot(k.states, 0);
    if p == |k.states| then k else k.(states := k.states[p := Ready], wakeup := k.wakeup[p := 0])
  }

  function Add(k: Kernel, p: nat): Kernel {
    if |k.table| >= MAX_PROCESS then k else k.(table := k.table + [p])
  }

  /** The first position of `p`, or the length of the table. */
  function PositionOf(table: seq<nat>, p: nat): (i: nat)
    ensures i <= |table|
    ensures i < |table| ==> table[i] == p
    ensures forall j :: 0 <= j < i ==> table[j] != p
  {
    if table == [] || table[0] == p then 0 else 1 + PositionOf(table[1..], p)
  }

  /** The table with the entries after position `i` moved down by one. */
  function Closed(table: seq<nat>, i: nat): (r: seq<nat>)
    requires i < |table|
    ensures |r| == |table| - 1
    ensures forall j :: 0 <= j < |r| ==> r[j] == if j < i then table[j] else table[j + 1]
  {
    table[..i] + table[i + 1..]
  }

  function Remove(k: Kernel, p: nat): Kernel {
    var i := PositionOf(k.table, p);
    if i == |k.table| then k
    else
      var shorter := Closed(k.table, i);
      k.(table := shorter, current := if k.current >= |shorter| then 0 else k.current)
  }

  function Yield(k: Kernel): (k': Kernel)
    requires Indexed(k)
    ensures |k'.states| == |k.states|
  {
    if k.running.None? then k
    else Schedule(k.(needResched := false, states := k.states[k.running.value := Ready]))
  }

  function Exit(k: Kernel): (k': Kernel)
    requires Indexed(k) && k.running.Some?
    ensures |k'.states| == |k.states|
  {
    var p := k.running.value;
    Schedule(Remove(k.(states := k.states[p := Exited]), p))
  }

  /** process_sleep when no timer interrupt comes between its statements. */
  function Sleep(k: Kernel, n: u32): (k': Kernel)
    requires Indexed(k) && k.running.Some?
    ensures |k'.states| == |k.states|
  {
    var p := k.running.value;
    Schedule(k.(wakeup := k.wakeup[p := (k.ticks + n) % WORD], states := k.states[p := Blocked]))
  }

  /** A blocked table member whose time has come. */
  predicate Due(k: Kernel, p: nat) {
    p < |k.states| && |k.wakeup| == |k.states| && k.states[p] == Blocked && k.ticks >= k.wakeup[p]
  }

  /** scheduler_wakeup over the first `n` table members. */
  function WakeFirst(k: Kernel, n: nat): (k': Kernel)
    requires Indexed(k) && n <= |k.table|
    ensures k' == k.(states := k'.states, needResched := k'.needResched) && |k'.states| == |k.states|
    ensures forall p :: 0 <= p < |k.states| ==>
      k'.states[p] == if p in k.table[..n] && Due(k, p) then Ready else k.states[p]
    ensures k'.needResched <==> k.needResched || exists i :: 0 <= i < n && Due(k, k.table[i])
  {
    if n == 0 then k
    else
      var before := WakeFirst(k, n - 1);
      var p := k.table[n - 1];
      assert k.table[..n] == k.table[..n - 1] + [p];
      if Due(before, p) then before.(states := before.states[p := Ready], needResched := true) else before
  }

  function SliceTick(k: Kernel): Kernel {
    var t := (k.sliceTicks + 1) % WORD;
    if t >= TIME_SLICE then k.(sliceTicks := 0, needResched := true) else k.(sliceTicks := t)
  }

  /** The timer interrupt: count, wake the sleepers, account the slice. */
  function Tick(k: Kernel): Kernel
    requires Indexed(k)
  {
    var counted := k.(ticks := (k.ticks + 1) % WORD);
    SliceTick(WakeFirst(counted, |k.table|))
  }

  // ----- steps of the system -----

  datatype Op = OpCreate | OpAdd(p: nat) | OpSetIdle(p: nat) | OpStart(p: nat)
    | OpYield | OpSleep(n: u32) | OpExit | OpTick

  /** What callers may do: add each process once, give the idle process its own role,
      start the first process from boot, and act only as a process that still runs. */
  ghost predicate Enabled(k: Kernel, op: Op)
    requires Inv(k)
  {
    match op
    case OpCreate => true
    case OpAdd(p) => p < MAX_PROCESS && p !in k.table && k.idle != Some(p) && Alive(k.states[p])
    case OpSetIdle(p) => p < MAX_PROCESS && p !in k.table && Alive(k.states[p])
    case OpStart(p) => k.running.None? && p < MAX_PROCESS && k.states[p] == Ready
    case OpYield => k.running.Some? ==> k.states[k.running.value] != Exited
    case OpSleep(_) => k.running.Some? && k.states[k.running.value] != Exited
    case OpExit => k.running.Some? && k.running != k.idle && k.states[k.running.value] != Exited
    case OpTick => true
  }

  ghost function Do(k: Kernel, op: Op): (k': Kernel)
    requires Inv(k) && Enabled(k, op)
    ensures |k'.states| == |k.states|
  {
    match op
    case OpCreate => Create(k)
    case OpAdd(p) => Add(k, p)
    case OpSetIdle(p) => k.(idle := Some(p))
    case OpStart(p) => Switch(k, p)
    case OpYield => Yield(k)
    case OpSleep(n) => Sleep(k, n)
    case OpExit => Exit(k)
    case OpTick => Tick(k)
  }

  lemma SwitchKeepsInv(k: Kernel, next: nat)
    requires Inv(k) && next < MAX_PROCESS && Alive(k.states[next])
    ensures Inv(Switch(k, next))
  {
  }

  lemma ScheduleKeepsInv(k: Kernel)
    requires Inv(k)
    ensures Inv(Schedule(k))
  {
    if k.table != [] && Scan(k, 0) < |k.table| {
      var next := Cyclic(k, Scan(k, 0));
      SwitchKeepsInv(k.(current := next), k.table[next]);
    } else if k.idle.Some? && k.running != k.idle {
      SwitchKeepsInv(k, k.idle.value);
    }
  }

  lemma RemoveKeepsInv(k: Kernel, p: nat)
    requires p < MAX_PROCESS && k.running == Some(p) && k.idle != Some(p) && Inv(k)
    ensures Inv(Remove(k.(states := k.states[p := Exited]), p))
  {
    hide PositionOf, Closed, Distinct;
    var i := PositionOf(k.table, p);
    if i < |k.table| {
      ClosedTable(k.table, i);
    }
    MembersNot(k.table, p, i);
  }

  lemma ClosedTable(table: seq<nat>, i: nat)
    requires Distinct(table) && i < |table|
    ensures Distinct(Closed(table, i)) && |Closed(table, i)| == |table| - 1
    ensures forall j :: 0 <= j < |table| - 1 ==> Closed(table, i)[j] in table && Closed(table, i)[j] != table[i]
  {
  }

  lemma MembersNot(table: seq<nat>, p: nat, i: nat)
    requires i == PositionOf(table, p)
    ensures i == |table| ==> forall j :: 0 <= j < |table| ==> table[j] != p
  {
  }

  lemma CreateKeepsInv(k: Kernel)
    requires Inv(k)
    ensures Inv(Create(k))
  {
  }

  lemma AddKeepsInv(k: Kernel, p: nat)
    requires Inv(k) && Enabled(k, OpAdd(p))
    ensures Inv(Add(k, p))
  {
  }

  lemma YieldKeepsInv(k: Kernel)
    requires Inv(k) && Enabled(k, OpYield)
    ensures Inv(Yield(k))
  {
    hide Schedule;
    if k.running.Some? {
      ScheduleKeepsInv(k.(needResched := false, states := k.states[k.running.value := Ready]));
    }
  }

  lemma SleepKeepsInv(k: Kernel, n: u32)
    requires Inv(k) && Enabled(k, OpSleep(n))
    ensures Inv(Sleep(k, n))
  {
    hide Schedule;
    var p := k.running.value;
    ScheduleKeepsInv(k.(wakeup := k.wakeup[p := (k.ticks + n) % WORD], states := k.states[p := Blocked]));
  }

  lemma ExitKeepsInv(k: Kernel)
    requires Inv(k) && Enabled(k, OpExit)
    ensures Inv(Exit(k))
  {
    hide Schedule, Remove;
    var p := k.running.value;
    RemoveKeepsInv(k, p);
    ScheduleKeepsInv(Remove(k.(states := k.states[p := Exited]), p));
  }

  lemma TickKeepsInv(k: Kernel)
    requires Inv(k)
    ensures Inv(Tick(k))
  {
  }

  /** Every step keeps the invariant; in particular at most one process is RUNNING, it
      is the current one, and the scheduler's position stays in bounds. */
  lemma DoKeepsInv(k: Kernel, op: Op)
    requires Inv(k) && Enabled(k, op)
    ensures Inv(Do(k, op))
  {
    hide Create, Add, Yield, Sleep, Exit, Tick, Switch;
    match op
    case OpCreate => CreateKeepsInv(k);
    case OpAdd(p) => AddKeepsInv(k, p);
    case OpSetIdle(p) =>
    case OpStart(p) => SwitchKeepsInv(k, p);
    case OpYield => YieldKeepsInv(k);
    case OpSleep(n) => SleepKeepsInv(k, n);
    case OpExit => ExitKeepsInv(k);
    case OpTick => TickKeepsInv(k);
  }

  /** A run in which every operation is enabled when its turn comes; the invariant of
      the first state carries over to all. */
  ghost predicate Run(k: Kernel, ops: seq<Op>)
    requires Inv(k)
    decreases |ops|
  {
    ops != [] ==> Enabled(k, ops[0]) && (DoKeepsInv(k, ops[0]); Run(Do(k, ops[0]), ops[1..]))
  }

  ghost function After(k: Kernel, ops: seq<Op>): (k': Kernel)
    requires Inv(k) && Run(k, ops)
    ensures Inv(k')
    decreases |ops|
  {
    if ops == [] then k
    else
      DoKeepsInv(k, ops[0]);
      After(Do(k, ops[0]), ops[1..])
  }

  /** Every run from a good state goes through good states only, as long as callers
      keep to the rules. */
  lemma {:induction false} RunExtends(k: Kernel, ops: seq<Op>, op: Op)
    requires Inv(k) && Run(k, ops) && Enabled(After(k, ops), op)
    ensures Run(k, ops + [op]) && After(k, ops + [op]) == Do(After(k, ops), op)
    decreases |ops|
  {
    hide Inv, Enabled, Do;
    if ops == [] {
      DoKeepsInv(k, op);
      assert [op][1..] == [] && ops + [op] == [op];
    } else {
      DoKeepsInv(k, ops[0]);
      RunExtends(Do(k, ops[0]), ops[1..], op);
      assert (ops + [op])[1..] == ops[1..] + [op];
    }
  }

  lemma ScheduleSparesExited(k: Kernel, p: nat)
    requires Inv(k) && p < MAX_PROCESS && k.states[p] == Exited
    ensures Schedule(k).states[p] == Exited
    ensures Schedule(k).running == Some(p) ==> k.running == Some(p)
  {
  }

  /** An exited process stays exited and is never switched to. */
  lemma ExitedStaysDown(k: Kernel, op: Op, p: nat)
    requires Inv(k) && Enabled(k, op) && p < MAX_PROCESS && k.states[p] == Exited
    ensures Do(k, op).states[p] == Exited
    ensures Do(k, op).running == Some(p) ==> k.running == Some(p)
  {
    hide Schedule, Create, Remove, Tick;
    match op
    case OpCreate => CreateSparesExited(k, p);
    case OpYield =>
      if k.running.Some? {
        YieldKeepsInv(k);
        ScheduleSparesExited(k.(needResched := false, states := k.states[k.running.value := Ready]), p);
      }
    case OpSleep(n) =>
      var q := k.running.value;
      ScheduleSparesExited(k.(wakeup := k.wakeup[q := (k.ticks + n) % WORD], states := k.states[q := Blocked]), p);
    case OpExit =>
      var q := k.running.value;
      RemoveKeepsInv(k, q);
      RemoveOnlyTable(k.(states := k.states[q := Exited]), q);
      ScheduleSparesExited(Remove(k.(states := k.states[q := Exited]), q), p);
    case OpTick => TickSparesExited(k, p);
    case _ =>
  }

  lemma TickSparesExited(k: Kernel, p: nat)
    requires Inv(k) && p < MAX_PROCESS && k.states[p] == Exited
    ensures Tick(k).states[p] == Exited && Tick(k).running == k.running
  {
  }

  lemma CreateSparesExited(k: Kernel, p: nat)
    requires Inv(k) && p < MAX_PROCESS && k.states[p] == Exited
    ensures Create(k).states[p] == Exited && Create(k).running == k.running
  {
  }

  lemma RemoveOnlyTable(k: Kernel, p: nat)
    ensures Remove(k, p).states == k.states && Remove(k, p).running == k.running
  {
  }

  /** Over every run an exited process stays exited and is never switched to: it is the
      current process at most as long as nothing was switched to since it exited. */
  lemma {:induction false} ExitedForever(k: Kernel, ops: seq<Op>, p: nat)
    requires Inv(k) && Run(k, ops) && p < MAX_PROCESS && k.states[p] == Exited
    ensures After(k, ops).states[p] == Exited
    ensures After(k, ops).running == Some(p) ==> k.running == Some(p)
    decreases |ops|
  {
    hide Inv, Enabled, Do;
    if ops != [] {
      InvSize(k);
      DoKeepsInv(k, ops[0]);
      ExitedStaysDown(k, ops[0], p);
      ExitedForever(Do(k, ops[0]), ops[1..], p);
    }
  }

  lemma InvSize(k: Kernel)
    requires Inv(k)
    ensures Indexed(k) && |k.states| == MAX_PROCESS
    ensures k.table == [] || k.current < |k.table|
  {
  }

  // ----- what the scheduler picks -----

  lemma ModOnce(x: nat, n: nat)
    requires x < 2 * n
    ensures x % n == if x < n then x else x - n
  {
    if x >= n {
      assert x == n * 1 + (x - n);
    }
  }

  /** How many positions lie between the current one and `t` in cyclic order. */
  function Distance(k: Kernel, t: nat): (d: nat)
    requires k.current < |k.table| && t < |k.table|
    ensures d < |k.table|
  {
    if t > k.current then t - k.current - 1 else t + |k.table| - k.current - 1
  }

  lemma CyclicOfDistance(k: Kernel, t: nat)
    requires k.current < |k.table| && t < |k.table|
    ensures Cyclic(k, Distance(k, t)) == t
  {
    ModOnce(k.current + 1 + Distance(k, t), |k.table|);
  }

  lemma DistanceOfCyclic(k: Kernel, i: nat)
    requires k.current < |k.table| && i < |k.table|
    ensures Distance(k, Cyclic(k, i)) == i
  {
    ModOnce(k.current + 1 + i, |k.table|);
  }

  /** scheduler_schedule dispatches the first ready process other than the current one
      in cyclic order after the scheduler's position; it finds one exactly when the
      table holds one, and only then does it not fall back to the idle process. */
  lemma PicksFirstEligible(k: Kernel)
    requires Inv(k)
    ensures (exists t :: 0 <= t < |k.table| && Eligible(k, k.table[t])) ==>
      var k' := Schedule(k);
      && k'.current < |k.table| && Eligible(k, k.table[k'.current])
      && k'.running == Some(k.table[k'.current])
      && forall t :: 0 <= t < |k.table| && Eligible(k, k.table[t]) ==> Distance(k, k'.current) <= Distance(k, t)
    ensures (forall t :: 0 <= t < |k.table| ==> !Eligible(k, k.table[t])) ==>
      Schedule(k) == if k.idle.Some? && k.running != k.idle then Switch(k, k.idle.value) else k
  {
    if k.table != [] {
      var s := Scan(k, 0);
      forall t | 0 <= t < |k.table| && Eligible(k, k.table[t])
        ensures s <= Distance(k, t)
      {
        CyclicOfDistance(k, t);
      }
      if s < |k.table| {
        DistanceOfCyclic(k, s);
      }
    }
  }

  /** Somebody to switch to: another ready table member, or an idle process other than
      the current one. */
  predicate CanLeave(k: Kernel) {
    || (exists t :: 0 <= t < |k.table| && Eligible(k, k.table[t]))
    || (k.idle.Some? && k.idle != k.running)
  }

  /** A process that calls the scheduler is really switched away exactly when there is
      somebody to switch to; otherwise the call returns to it, whatever its state. */
  lemma SwitchesAwayIff(k: Kernel)
    requires Inv(k)
    ensures Schedule(k).running != k.running <==> CanLeave(k)
    ensures !CanLeave(k) ==> Schedule(k) == k
  {
    hide Schedule, Eligible, Distance;
    PicksFirstEligible(k);
    if t: nat :| t < |k.table| && Eligible(k, k.table[t]) {
      EligibleIsOther(k, k.table[Schedule(k).current]);
    }
  }

  function Booted(): (k: Kernel) {
    Kernel(seq(MAX_PROCESS, _ => Unused), seq(MAX_PROCESS, _ => 0), [], 0, None, None, 0, 0, false)
  }

  /** The smallest machine with nobody to switch to: one process, in the table and
      current, and no idle process. */
  function LoneProcess(): (k: Kernel)
    ensures |k.states| == |k.wakeup| == MAX_PROCESS
  {
    Booted().(states := Booted().states[0 := Running], table := [0], running := Some(0))
  }

  /** Creating, adding and starting one process after boot leads there. */
  lemma LoneProcessReached()
    ensures Inv(Booted()) && Run(Booted(), [OpCreate, OpAdd(0), OpStart(0)])
    ensures After(Booted(), [OpCreate, OpAdd(0), OpStart(0)]) == LoneProcess()
  {
    hide Run, After, Inv, Enabled, Do;
    var k1 := Booted().(states := Booted().states[0 := Ready]);
    var k2 := k1.(table := [0]);
    FirstSteps(k1, k2);
    OneMore(Booted(), OpCreate, [OpAdd(0), OpStart(0)]);
    OneMore(k1, OpAdd(0), [OpStart(0)]);
    OneMore(k2, OpStart(0), []);
    NoMore(LoneProcess());
    assert [OpCreate] + [OpAdd(0), OpStart(0)] == [OpCreate, OpAdd(0), OpStart(0)];
    assert [OpAdd(0)] + [OpStart(0)] == [OpAdd(0), OpStart(0)];
    assert [OpStart(0)] + [] == [OpStart(0)];
  }

  lemma FirstSteps(k1: Kernel, k2: Kernel)
    requires k1 == Booted().(states := Booted().states[0 := Ready]) && k2 == k1.(table := [0])
    ensures Inv(Booted()) && Enabled(Booted(), OpCreate) && Do(Booted(), OpCreate) == k1
    ensures Inv(k1) && Enabled(k1, OpAdd(0)) && Do(k1, OpAdd(0)) == k2
    ensures Inv(k2) && Enabled(k2, OpStart(0)) && Do(k2, OpStart(0)) == LoneProcess()
  {
    hide Create, Add, Switch, Yield, Sleep, Exit, Tick;
    FirstCreate(k1);
    FirstAdd(k1, k2);
    FirstStart(k1, k2);
    DoKeepsInv(Booted(), OpCreate);
    DoKeepsInv(k1, OpAdd(0));
  }

  lemma FirstCreate(k1: Kernel)
    requires k1 == Booted().(states := Booted().states[0 := Ready])
    ensures Create(Booted()) == k1
  {
    assert Booted().wakeup[0 := 0] == Booted().wakeup;
  }

  lemma FirstAdd(k1: Kernel, k2: Kernel)
    requires k1 == Booted().(states := Booted().states[0 := Ready]) && k2 == k1.(table := [0])
    ensures Add(k1, 0) == k2
  {
  }

  lemma FirstStart(k1: Kernel, k2: Kernel)
    requires k1 == Booted().(states := Booted().states[0 := Ready]) && k2 == k1.(table := [0])
    ensures Switch(k2, 0) == LoneProcess()
  {
    assert k2.states[0 := Running] == Booted().states[0 := Running];
  }

  lemma NoMore(k: Kernel)
    requires Inv(k)
    ensures Run(k, []) && After(k, []) == k
  {
  }

  /** Its yield leaves it the current process, READY and not RUNNING. */
  lemma LoneYieldReturns()
    ensures Inv(LoneProcess()) && !CanLeave(LoneProcess())
    ensures Yield(LoneProcess()).running == Some(0) && Yield(LoneProcess()).states[0] == Ready
  {
    hide Schedule;
    var ready := LoneProcess().(states := LoneProcess().states[0 := Ready]);
    assert !CanLeave(ready);
    SwitchesAwayIff(ready);
  }

  lemma OneMore(k: Kernel, op: Op, ops: seq<Op>)
    requires Inv(k) && Enabled(k, op)
    ensures Inv(Do(k, op))
    ensures Run(k, [op] + ops) <==> Run(Do(k, op), ops)
    ensures Run(k, [op] + ops) ==> After(k, [op] + ops) == After(Do(k, op), ops)
  {
    hide Inv, Enabled, Do;
    DoKeepsInv(k, op);
    assert ([op] + ops)[1..] == ops;
  }

  lemma EligibleIsOther(k: Kernel, p: nat)
    requires Eligible(k, p)
    ensures k.running != Some(p)
  {
  }

  // ----- who is next -----

  /** The first process of `order` that is ready and is not `skip`. */
  function FirstReady(states: seq<ProcessState>, skip: Option<nat>, order: seq<nat>): Option<nat> {
    if order == [] then None
    else if order[0] < |states| && states[order[0]] == Ready && Some(order[0]) != skip then Some(order[0])
    else FirstReady(states, skip, order[1..])
  }

  lemma {:induction false} FirstReadyAt(states: seq<ProcessState>, skip: Option<nat>, order: seq<nat>, i: nat)
    requires i <= |order|
    requires forall j :: 0 <= j < i ==> !(order[j] < |states| && states[order[j]] == Ready && Some(order[j]) != skip)
    requires i < |order| ==> order[i] < |states| && states[order[i]] == Ready && Some(order[i]) != skip
    ensures FirstReady(states, skip, order) == if i < |order| then Some(order[i]) else None
    decreases i
  {
    if i > 0 {
      FirstReadyAt(states, skip, order[1..], i - 1);
    }
  }

  lemma {:induction false} SameReady(states: seq<ProcessState>, states': seq<ProcessState>, skip: Option<nat>, order: seq<nat>)
    requires |states| == |states'|
    requires forall p :: p in order && p < |states| ==>
      (states[p] == Ready && Some(p) != skip <==> states'[p] == Ready)
    ensures FirstReady(states, skip, order) == FirstReady(states', None, order)
    decreases |order|
  {
    if order != [] {
      assert order[0] in order;
      SameReady(states, states', skip, order[1..]);
    }
  }

  /** A scheduling call hands over to `next`, or to the idle process if there is no next
      one, or else returns to the caller. */
  predicate HandsOver(k: Kernel, k': Kernel, next: Option<nat>) {
    && k'.running == (if next.Some? then next else if k.idle.Some? then k.idle else k.running)
    && (next.Some? ==> k'.current < |k'.table| && k'.table[k'.current] == next.value)
  }

  /** The table read from behind position `c`, around to the position itself. */
  function Turn(table: seq<nat>, c: nat): seq<nat>
    requires table == [] || c < |table|
  {
    if table == [] then [] else table[c + 1..] + table[..c + 1]
  }

  /** Round robin: the scheduler takes the first ready process in turn. */
  lemma InTurn(k: Kernel)
    requires Inv(k)
    ensures k.table == [] || k.current < |k.table|
    ensures HandsOver(k, Schedule(k), FirstReady(k.states, k.running, Turn(k.table, k.current)))
  {
    if k.table != [] {
      var n, s := |k.table|, Scan(k, 0);
      var order := Turn(k.table, k.current);
      forall i | 0 <= i < n
        ensures order[i] == k.table[Cyclic(k, i)]
      {
        ModOnce(k.current + 1 + i, n);
      }
      FirstReadyAt(k.states, k.running, order, s);
    }
  }

  /** A yield or a sleep of the process at the scheduler's position passes the processor
      to the first ready process behind it in the table, around to the one before it. */
  lemma GivesWayInTurn(k: Kernel, op: Op)
    requires Inv(k) && Enabled(k, op) && (op.OpYield? || op.OpSleep?)
    requires k.table != [] && k.running == Some(k.table[k.current])
    ensures HandsOver(k, Do(k, op), FirstReady(k.states, None, k.table[k.current + 1..] + k.table[..k.current]))
  {
    hide Schedule, FirstReady, Inv, HandsOver;
    InvSize(k);
    var p := k.running.value;
    if op.OpYield? {
      CallerHandsOver(k, k.(needResched := false, states := k.states[p := Ready]));
    } else {
      CallerHandsOver(k, k.(wakeup := k.wakeup[p := (k.ticks + op.n) % WORD], states := k.states[p := Blocked]));
    }
  }

  /** `k1` is `k` after the caller's own stores. */
  ghost predicate CallerStores(k: Kernel, k1: Kernel) {
    && k.table != [] && k.current < |k.table| && k.running == Some(k.table[k.current]) && k.running.value < |k.states|
    && k1 == k.(states := k1.states, wakeup := k1.wakeup, needResched := k1.needResched)
    && |k1.states| == |k.states| && |k1.wakeup| == |k.wakeup|
    && (forall q :: 0 <= q < |k.states| && Some(q) != k.running ==> k1.states[q] == k.states[q])
    && (k1.states[k.running.value] == Ready || k1.states[k.running.value] == Blocked)
  }

  lemma CallerHandsOver(k: Kernel, k1: Kernel)
    requires Inv(k) && CallerStores(k, k1)
    ensures HandsOver(k, Schedule(k1), FirstReady(k.states, None, k.table[k.current + 1..] + k.table[..k.current]))
  {
    hide Schedule, FirstReady, Inv, HandsOver;
    var p, c := k.running.value, k.current;
    CallerStored(k, k1);
    InTurn(k1);
    var order := k.table[c + 1..] + k.table[..c];
    assert Turn(k1.table, c) == order + [p];
    SkipLast(k1.states, p, order);
    SameReady(k1.states, k.states, Some(p), order);
    HandsOverFrom(k1, k, Schedule(k1), FirstReady(k1.states, Some(p), order));
  }

  lemma CallerStored(k: Kernel, k1: Kernel)
    requires Inv(k) && CallerStores(k, k1)
    ensures Inv(k1)
    ensures forall q :: q in k.table[k.current + 1..] + k.table[..k.current] ==> Some(q) != k.running
  {
  }

  lemma {:induction false} SkipLast(states: seq<ProcessState>, p: nat, order: seq<nat>)
    ensures FirstReady(states, Some(p), order + [p]) == FirstReady(states, Some(p), order)
    decreases |order|
  {
    if order == [] {
      assert order + [p] == [p] && [p][1..] == [];
    } else {
      assert (order + [p])[1..] == order[1..] + [p];
      SkipLast(states, p, order[1..]);
    }
  }

  /** Who runs after an exit, wherever the exiting process stands: the others keep their
      order, the position keeps its number or goes to the front if that is gone, and the
      scan begins behind it. */
  lemma ExitHandsOver(k: Kernel, i: nat)
    requires Inv(k) && Enabled(k, OpExit) && i < |k.table| && k.table[i] == k.running.value
    ensures var others := k.table[..i] + k.table[i + 1..];
      var c := if k.current < |others| then k.current else 0;
      Exit(k).table == others && HandsOver(k, Exit(k), FirstReady(k.states, None, Turn(others, c)))
  {
    hide Schedule, FirstReady, Inv, HandsOver, Turn, Remove;
    InvSize(k);
    ExitedOne(k, i);
    var p := k.running.value;
    var k1 := Remove(k.(states := k.states[p := Exited]), p);
    InTurn(k1);
    ScheduleKeepsTable(k1);
    var order := Turn(k1.table, k1.current);
    TurnMembers(k1.table, k1.current);
    SameReady(k1.states, k.states, Some(p), order);
    HandsOverFrom(k1, k, Schedule(k1), FirstReady(k1.states, Some(p), order));
  }

  lemma TurnMembers(table: seq<nat>, c: nat)
    requires table == [] || c < |table|
    ensures forall q :: q in Turn(table, c) ==> q in table
  {
  }

  lemma HandsOverFrom(k1: Kernel, k: Kernel, k': Kernel, next: Option<nat>)
    requires HandsOver(k1, k', next) && k1.idle == k.idle && k1.running == k.running
    ensures HandsOver(k, k', next)
  {
  }

  /** The state in which an exiting process calls the scheduler. */
  lemma ExitedOne(k: Kernel, i: nat)
    requires Inv(k) && Enabled(k, OpExit) && i < |k.table| && k.table[i] == k.running.value
    ensures k.running.value < |k.states|
    ensures var p, others := k.running.value, k.table[..i] + k.table[i + 1..];
      var k1 := Remove(k.(states := k.states[p := Exited]), p);
      && Inv(k1)
      && k1 == k.(states := k.states[p := Exited], table := others, current := if k.current < |others| then k.current else 0)
      && p !in others
  {
    hide Closed, PositionOf, Distinct;
    var p := k.running.value;
    RemoveKeepsInv(k, p);
    PositionIs(k.table, p, i);
    ClosedIs(k.table, i);
  }

  lemma ClosedIs(table: seq<nat>, i: nat)
    requires Distinct(table) && i < |table|
    ensures Closed(table, i) == table[..i] + table[i + 1..] && table[i] !in Closed(table, i)
  {
    ClosedTable(table, i);
  }

  lemma PositionIs(table: seq<nat>, p: nat, i: nat)
    requires Distinct(table) && i < |table| && table[i] == p
    ensures PositionOf(table, p) == i
  {
    hide PositionOf;
    var j := PositionOf(table, p);
    assert j <= i && table[j] == p;
  }

  lemma ScheduleKeepsTable(k: Kernel)
    requires Indexed(k)
    ensures Schedule(k).table == k.table && Schedule(k).idle == k.idle
  {
  }

  /** The process at the scheduler's position exits. The one behind it moves up to that
      position and comes last; the processor goes to the one after, and so on around. If
      the exiting process is the last of the table, the front one comes last. */
  lemma ExitInTurn(k: Kernel, c: nat)
    requires Inv(k) && Enabled(k, OpExit) && c == k.current && c < |k.table| && k.table[c] == k.running.value
    ensures c + 1 < |k.table| ==>
      HandsOver(k, Exit(k), FirstReady(k.states, None, k.table[c + 2..] + k.table[..c] + [k.table[c + 1]]))
    ensures c + 1 == |k.table| && c > 0 ==>
      HandsOver(k, Exit(k), FirstReady(k.states, None, k.table[1..c] + [k.table[0]]))
    ensures |k.table| == 1 ==> HandsOver(k, Exit(k), None)
  {
    hide Exit, FirstReady, HandsOver, Inv, Enabled, Turn;
    ExitHandsOver(k, c);
    TurnWithout(k.table, c);
    NobodyReady(k.states);
  }

  /** The order of the others when position `c` of the table has been closed. */
  lemma TurnWithout(table: seq<nat>, c: nat)
    requires c < |table|
    ensures var others := table[..c] + table[c + 1..];
      && (c + 1 < |table| ==> c < |others| && Turn(others, c) == table[c + 2..] + table[..c] + [table[c + 1]])
      && (c + 1 == |table| && c > 0 ==> |others| == c && Turn(others, 0) == table[1..c] + [table[0]])
      && (|table| == 1 ==> others == [] && Turn(others, 0) == [])
  {
    var others := table[..c] + table[c + 1..];
    if c + 1 < |table| {
      assert others[c + 1..] == table[c + 2..] && others[..c + 1] == table[..c] + [table[c + 1]];
      assert table[c + 2..] + (table[..c] + [table[c + 1]]) == table[c + 2..] + table[..c] + [table[c + 1]];
    } else if c > 0 {
      assert others[1..] == table[1..c] && others[..1] == [table[0]];
    }
  }

  lemma NobodyReady(states: seq<ProcessState>)
    ensures FirstReady(states, None, []) == None
  {
  }

  // ----- states and slices -----

  /** Whoever is switched to is RUNNING, and whoever was RUNNING is READY, as far as its
      own operation has not changed that. */
  lemma SwitchStates(k: Kernel, next: nat)
    requires Inv(k) && next < MAX_PROCESS
    ensures var k' := Switch(k, next);
      && k'.running == Some(next) && k'.states[next] == Running
      && forall p :: 0 <= p < MAX_PROCESS && p != next ==>
           k'.states[p] == if k.states[p] == Running then Ready else k.states[p]
  {
  }

  lemma ScheduledRuns(k: Kernel)
    requires Inv(k)
    ensures Schedule(k).running != k.running ==>
      Schedule(k).running.Some? && Schedule(k).running.value < MAX_PROCESS && Schedule(k).states[Schedule(k).running.value] == Running
  {
  }

  /** After every operation that changes the current process, that process is RUNNING. */
  lemma DispatchedRuns(k: Kernel, op: Op)
    requires Inv(k) && Enabled(k, op) && Do(k, op).running != k.running
    ensures var k' := Do(k, op);
      k'.running.Some? && k'.running.value < MAX_PROCESS && k'.states[k'.running.value] == Running
  {
    hide Schedule, Create, Tick, Remove;
    match op
    case OpCreate => CreateOnlyStates(k);
    case OpYield =>
      var k1 := k.(needResched := false, states := k.states[k.running.value := Ready]);
      assert Inv(k1);
      ScheduledRuns(k1);
    case OpSleep(n) =>
      var p := k.running.value;
      var k1 := k.(wakeup := k.wakeup[p := (k.ticks + n) % WORD], states := k.states[p := Blocked]);
      assert Inv(k1);
      ScheduledRuns(k1);
    case OpExit =>
      var p := k.running.value;
      RemoveKeepsInv(k, p);
      RemoveOnlyTable(k.(states := k.states[p := Exited]), p);
      ScheduledRuns(Remove(k.(states := k.states[p := Exited]), p));
    case OpTick => TickKeepsRunning(k);
    case _ =>
  }

  lemma CreateOnlyStates(k: Kernel)
    requires |k.states| == |k.wakeup|
    ensures Create(k) == k.(states := Create(k).states, wakeup := Create(k).wakeup)
  {
  }

  lemma TickKeepsRunning(k: Kernel)
    requires Indexed(k)
    ensures Tick(k).running == k.running
  {
  }

  /** process_create_kernel makes the lowest unused slot ready, and nothing else. */
  lemma CreateTakesLowest(k: Kernel, p: nat)
    requires Inv(k) && p < 16 && k.states[p] == Unused
    requires forall q :: 0 <= q < p ==> k.states[q] != Unused
    ensures Create(k).states == k.states[p := Ready] && Create(k).wakeup == k.wakeup[p := 0]
  {
  }

  /** There is always room for one more: adding appends. */
  lemma AddAppends(k: Kernel, p: nat)
    requires Inv(k) && Enabled(k, OpAdd(p))
    ensures Do(k, OpAdd(p)) == k.(table := k.table + [p])
  {
    Pigeonhole(k.table + [p], MAX_PROCESS);
  }

  /** Distinct slots are no more than there are. */
  lemma {:induction false} Pigeonhole(table: seq<nat>, n: nat)
    requires Distinct(table) && forall i :: 0 <= i < |table| ==> table[i] < n
    ensures |table| <= n
    decreases n
  {
    assert table != [] ==> table[0] < n;
    if n > 0 {
      if i :| 0 <= i < |table| && table[i] == n - 1 {
        ClosedTable(table, i);
        Pigeonhole(Closed(table, i), n - 1);
      } else {
        Pigeonhole(table, n - 1);
      }
    }
  }

  function CountTicks(ops: seq<Op>): nat {
    if ops == [] then 0 else (if ops[0].OpTick? then 1 else 0) + CountTicks(ops[1..])
  }

  /** One timer interrupt: the clock, and the slice, which is up every tenth time. */
  lemma TickSlices(k: Kernel)
    requires Inv(k) && k.sliceTicks < 10
    ensures var k' := Tick(k);
      && k'.ticks == (k.ticks + 1) % 0x1_0000_0000
      && k'.sliceTicks == (k.sliceTicks + 1) % 10
      && (k'.needResched <==>
           k.needResched || k'.sliceTicks == 0
           || exists i :: 0 <= i < |k.table| && k.states[k.table[i]] == Blocked && k'.ticks >= k.wakeup[k.table[i]])
  {
    hide WakeFirst, Inv;
    InvSize(k);
    var counted := k.(ticks := (k.ticks + 1) % WORD);
    var woken := WakeFirst(counted, |k.table|);
    SliceUp(woken);
    DueIs(k, counted);
  }

  lemma SliceUp(k: Kernel)
    requires k.sliceTicks < 10
    ensures SliceTick(k).sliceTicks == (k.sliceTicks + 1) % 10 && SliceTick(k).ticks == k.ticks
    ensures SliceTick(k).needResched <==> k.needResched || k.sliceTicks == 9
  {
  }

  lemma DueIs(k: Kernel, counted: Kernel)
    requires Indexed(k) && counted == k.(ticks := counted.ticks)
    ensures forall i :: 0 <= i < |k.table| ==>
      (Due(counted, k.table[i]) <==> k.states[k.table[i]] == Blocked && counted.ticks >= k.wakeup[k.table[i]])
  {
  }

  /** Nothing else moves the slice, and a yield clears the request: over every run the
      slice counts the timer interrupts modulo ten. */
  lemma {:induction false} SliceOverRun(k: Kernel, ops: seq<Op>)
    requires Inv(k) && Run(k, ops) && k.sliceTicks < 10
    ensures After(k, ops).sliceTicks == (k.sliceTicks + CountTicks(ops)) % 10
    decreases |ops|
  {
    hide Inv, Enabled, Do;
    if ops != [] {
      DoKeepsInv(k, ops[0]);
      SliceStep(k, ops[0]);
      ModSum(k.sliceTicks + (if ops[0].OpTick? then 1 else 0), CountTicks(ops[1..]));
      SliceOverRun(Do(k, ops[0]), ops[1..]);
    }
  }

  lemma ModSum(a: int, b: int)
    ensures (a % 10 + b) % 10 == (a + b) % 10
  {
  }

  lemma SliceStep(k: Kernel, op: Op)
    requires Inv(k) && Enabled(k, op) && k.sliceTicks < 10
    ensures Do(k, op).sliceTicks == if op.OpTick? then (k.sliceTicks + 1) % 10 else k.sliceTicks
  {
    hide Tick, Schedule;
    match op
    case OpTick => TickSlices(k);
    case OpYield =>
      if k.running.Some? {
        ScheduleKeepsSlice(k.(needResched := false, states := k.states[k.running.value := Ready]));
      }
    case OpSleep(n) =>
      var p := k.running.value;
      ScheduleKeepsSlice(k.(wakeup := k.wakeup[p := (k.ticks + n) % WORD], states := k.states[p := Blocked]));
    case OpExit =>
      var p := k.running.value;
      RemoveKeepsInv(k, p);
      ScheduleKeepsSlice(Remove(k.(states := k.states[p := Exited]), p));
    case _ =>
  }

  lemma ScheduleKeepsSlice(k: Kernel)
    requires Indexed(k)
    ensures Schedule(k).sliceTicks == k.sliceTicks && Schedule(k).needResched == k.needResched
  {
  }

  lemma YieldClearsRequest(k: Kernel)
    requires Inv(k) && Enabled(k, OpYield) && k.running.Some?
    ensures !Yield(k).needResched
  {
    hide Schedule;
    ScheduleKeepsSlice(k.(needResched := false, states := k.states[k.running.value := Ready]));
  }

  // ----- bounded bypass -----

  /** Operations that leave the process table as it is. */
  predicate KeepsTable(op: Op) {
    op.OpYield? || op.OpSleep? || op.OpTick? || op.OpCreate?
  }

  /** Operations that call scheduler_schedule. */
  predicate Schedules(op: Op) {
    op.OpYield? || op.OpSleep?
  }

  function CountSchedules(ops: seq<Op>): nat {
    if ops == [] then 0 else (if Schedules(ops[0]) then 1 else 0) + CountSchedules(ops[1..])
  }

  /** Waiting: a ready member of the table that is not the current process. */
  predicate Waiting(k: Kernel, t: nat) {
    t < |k.table| && Eligible(k, k.table[t])
  }

  /** One scheduling call either dispatches the waiting process or brings it strictly
      closer. */
  lemma ScheduleMakesProgress(k: Kernel, t: nat)
    requires Inv(k) && Waiting(k, t)
    ensures Schedule(k).running.Some?
    ensures var k' := Schedule(k);
      || k'.running == Some(k.table[t])
      || (k'.table == k.table && Waiting(k', t) && k'.current < |k.table| && Distance(k', t) < Distance(k, t))
  {
    var n, s := |k.table|, Scan(k, 0);
    CyclicOfDistance(k, t);
    assert s <= Distance(k, t);
    var next := Cyclic(k, s);
    DistanceOfCyclic(k, s);
    if next != t {
      assert k.table[next] != k.table[t];
    }
  }

  /** One step of a run that leaves the table alone, seen by the waiting process. */
  ghost predicate Progress(k: Kernel, k': Kernel, t: nat, calls: nat)
    requires t < |k.table| && k.current < |k.table|
  {
    || k'.running == Some(k.table[t])
    || (k'.table == k.table && Waiting(k', t) && k'.current < |k.table| && k'.running.Some?
        && Distance(k', t) + calls <= Distance(k, t))
  }

  lemma YieldMakesProgress(k: Kernel, t: nat)
    requires Inv(k) && Enabled(k, OpYield) && k.running.Some? && Waiting(k, t)
    ensures Progress(k, Yield(k), t, 1)
  {
    hide Schedule, Distance;
    var k1 := k.(needResched := false, states := k.states[k.running.value := Ready]);
    assert Inv(k1) && Waiting(k1, t);
    SameDistance(k, k1, t);
    ScheduleMakesProgress(k1, t);
  }

  lemma SleepMakesProgress(k: Kernel, n: u32, t: nat)
    requires Inv(k) && Enabled(k, OpSleep(n)) && Waiting(k, t)
    ensures Progress(k, Sleep(k, n), t, 1)
  {
    hide Schedule, Distance;
    var p := k.running.value;
    var k1 := k.(wakeup := k.wakeup[p := (k.ticks + n) % WORD], states := k.states[p := Blocked]);
    assert Inv(k1) && Waiting(k1, t);
    SameDistance(k, k1, t);
    ScheduleMakesProgress(k1, t);
  }

  lemma SameDistance(k: Kernel, k': Kernel, t: nat)
    requires k.current < |k.table| && t < |k.table| && k'.table == k.table && k'.current == k.current
    ensures Distance(k', t) == Distance(k, t)
  {
  }

  lemma TickMakesProgress(k: Kernel, t: nat)
    requires Inv(k) && k.running.Some? && Waiting(k, t)
    ensures Progress(k, Tick(k), t, 0)
  {
  }

  lemma CreateMakesProgress(k: Kernel, t: nat)
    requires Inv(k) && k.running.Some? && Waiting(k, t)
    ensures Progress(k, Create(k), t, 0)
  {
  }

  lemma StepMakesProgress(k: Kernel, op: Op, t: nat)
    requires Inv(k) && Enabled(k, op) && KeepsTable(op) && k.running.Some? && Waiting(k, t)
    ensures Progress(k, Do(k, op), t, if Schedules(op) then 1 else 0)
  {
    hide Progress, Yield, Sleep, Tick, Create;
    match op
    case OpYield => YieldMakesProgress(k, t);
    case OpSleep(n) => SleepMakesProgress(k, n, t);
    case OpTick => TickMakesProgress(k, t);
    case OpCreate => CreateMakesProgress(k, t);
  }

  /** Bounded bypass: along every run that leaves the table alone, a waiting process is
      dispatched before as many scheduling calls are made as the table has members. */
  lemma {:induction false} BoundedBypass(k: Kernel, ops: seq<Op>, t: nat) returns (i: nat)
    requires Inv(k) && Run(k, ops) && k.running.Some? && Waiting(k, t)
    requires forall op :: op in ops ==> KeepsTable(op)
    requires CountSchedules(ops) > Distance(k, t)
    ensures i <= |ops| && Run(k, ops[..i]) && After(k, ops[..i]).running == Some(k.table[t])
    ensures CountSchedules(ops[..i]) <= Distance(k, t) + 1 <= |k.table|
    decreases |ops|
  {
    hide Inv, Enabled, Do, Eligible, Distance;
    var op := ops[0];
    var k' := Do(k, op);
    DoKeepsInv(k, op);
    StepMakesProgress(k, op, t);
    if k'.running == Some(k.table[t]) {
      i := 1;
      assert ops[..1] == [op] && ops[..1][1..] == [];
    } else {
      i := BoundedBypass(k', ops[1..], t);
      i := i + 1;
      assert ops[..i][1..] == ops[1..][..i - 1];
    }
  }
}
