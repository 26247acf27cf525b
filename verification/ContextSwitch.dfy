/** process_switch_asm as machine steps over the memory that holds the process table,
    and the proof that a context switch is transparent to every process over any run.

    Addresses count 32-bit words. Slots 0..15 are process_table; slot 16 stands for the
    boot code's stack, whose saved pointer is dummy_context. */
module ContextSwitch {
  import opened Bytes
  import SchedulerSpec

  const SLOTS := 17
  const STACK_WORDS := 1024
  // pid, state, type, context, wakeup_tick, then the stack
  const PROCESS_WORDS := 1029
  const MEMORY_WORDS := 17493

  type Memory = m: seq<u32> | |m| == MEMORY_WORDS witness seq(MEMORY_WORDS, i => 0)

  function ContextCell(i: nat): nat { PROCESS_WORDS * i + 3 }

  function StackBase(i: nat): nat { PROCESS_WORDS * i + 5 }

  function StackTop(i: nat): nat { PROCESS_WORDS * i + 5 + STACK_WORDS }

  datatype Registers = Registers(edi: u32, esi: u32, ebx: u32, ebp: u32, esp: nat, eip: u32)

  /** The stack pointer of the call, with both arguments pushed, can take the return
      address and four registers. */
  predicate RoomToSwitch(i: nat, esp: nat) {
    StackBase(i) + 7 <= esp <= StackTop(i)
  }

  // ----- what a slot's memory says about a suspended process -----

  predicate HasFrame(m: Memory, i: nat)
    requires i < SLOTS
  {
    StackBase(i) <= m[ContextCell(i)] && m[ContextCell(i)] + 5 <= StackTop(i)
  }

  /** The registers that a switch to slot `i` loads. */
  function Frame(m: Memory, i: nat): Registers
    requires i < SLOTS && HasFrame(m, i)
  {
    var c: int := m[ContextCell(i)];
    Registers(m[c], m[c + 1], m[c + 2], m[c + 3], c + 5, m[c + 4])
  }

  /** The memories agree on the stack and the saved pointer of slot `i`. */
  ghost predicate SameSlot(m: Memory, m': Memory, i: nat)
    requires i < SLOTS
  {
    && m'[ContextCell(i)] == m[ContextCell(i)]
    && forall a :: StackBase(i) <= a < StackTop(i) ==> m'[a] == m[a]
  }

  lemma FrameDependsOnSlot(m: Memory, m': Memory, i: nat)
    requires i < SLOTS && HasFrame(m, i) && SameSlot(m, m', i)
    ensures HasFrame(m', i) && Frame(m', i) == Frame(m, i)
  {
  }

  lemma SlotsApart(i: nat, j: nat)
    requires i < j < SLOTS
    ensures StackTop(i) <= PROCESS_WORDS * j < ContextCell(j) < StackBase(j)
    ensures StackTop(j) <= MEMORY_WORDS
  {
  }

  // ----- the machine code -----

  class Cpu {
    const mem: array<u32>
    var eax: nat
    var edx: nat
    var edi: u32
    var esi: u32
    var ebx: u32
    var ebp: u32
    var esp: nat
    var eip: u32

    constructor (mem: array<u32>, regs: Registers)
      ensures this.mem == mem && Regs() == regs
    {
      this.mem := mem;
      eax, edx := 0, 0;
      edi, esi, ebx, ebp, esp, eip := regs.edi, regs.esi, regs.ebx, regs.ebp, regs.esp, regs.eip;
    }

    function Regs(): Registers
      reads this
    {
      Registers(edi, esi, ebx, ebp, esp, eip)
    }

    method Push(v: u32)
      requires 0 < esp <= mem.Length
      modifies this`esp, mem
      ensures esp == old(esp) - 1 && mem[..] == old(mem[..])[esp := v]
    {
      esp := esp - 1;
      mem[esp] := v;
    }

    method Pop() returns (v: u32)
      requires esp < mem.Length
      modifies this`esp
      ensures v == mem[old(esp)] && esp == old(esp) + 1
    {
      v := mem[esp];
      esp := esp + 1;
    }

    /** process_switch_asm, entered by a call: the return address and the arguments
        `old` and `new` are on top of the stack. */
    method SwitchAsm()
      requires mem.Length == MEMORY_WORDS && 4 <= esp && esp + 3 <= MEMORY_WORDS
      requires mem[esp + 1] < MEMORY_WORDS
      requires mem[esp + 2] + 5 <= MEMORY_WORDS
      modifies this, mem
      ensures mem[..] == StoredFrame(old(mem[..]), old(Regs()))
      ensures var c := old(mem[esp + 2]);
        Regs() == Registers(mem[c], mem[c + 1], mem[c + 2], mem[c + 3], c + 5, mem[c + 4])
    {
      ghost var m, r := mem[..], Regs();
      eax := mem[esp + 1];
      edx := mem[esp + 2];
      PushRegisters();
      mem[eax] := esp;
      assert mem[..] == StoredFrame(m, r);
      esp := edx;
      PopRegisters();
    }

    method PushRegisters()
      requires 4 <= esp <= mem.Length
      modifies this`esp, mem
      ensures esp == old(esp) - 4
      ensures mem[..] == old(mem[..])[old(esp) - 1 := ebp][old(esp) - 2 := ebx][old(esp) - 3 := esi][old(esp) - 4 := edi]
    {
      Push(ebp);
      Push(ebx);
      Push(esi);
      Push(edi);
    }

    /** The pops and the return at the end of the routine. */
    method PopRegisters()
      requires esp + 5 <= mem.Length
      modifies this`edi, this`esi, this`ebx, this`ebp, this`esp, this`eip
      ensures var c := old(esp);
        Regs() == Registers(mem[c], mem[c + 1], mem[c + 2], mem[c + 3], c + 5, mem[c + 4])
    {
      edi := Pop();
      esi := Pop();
      ebx := Pop();
      ebp := Pop();
      eip := Pop();
    }

    /** The call in process_switch: the arguments, the return address, then the code. */
    method CallSwitch(oldCell: nat, newContext: nat, ret: u32)
      requires mem.Length == MEMORY_WORDS && 7 <= esp <= MEMORY_WORDS
      requires oldCell < MEMORY_WORDS && newContext + 5 <= MEMORY_WORDS
      modifies this, mem
      ensures mem[..] == AfterCall(old(mem[..]), old(Regs()), oldCell, newContext, ret)
      ensures var c := newContext;
        Regs() == Registers(mem[c], mem[c + 1], mem[c + 2], mem[c + 3], c + 5, mem[c + 4])
    {
      Push(newContext);
      Push(oldCell);
      Push(ret);
      SwitchAsm();
    }

    /** The stack switch of process_switch from slot `prev` to slot `next`. */
    method ProcessSwitch(prev: nat, next: nat, ret: u32)
      requires mem.Length == MEMORY_WORDS && prev < SLOTS && next < SchedulerSpec.MAX_PROCESS && next != prev
      requires RoomToSwitch(prev, esp) && HasFrame(mem[..], next)
      modifies this, mem
      ensures (mem[..], Regs()) == Switched(old(mem[..]), old(Regs()), prev, next, ret)
    {
      hide AfterCall, HasFrame;
      ghost var m, r := mem[..], Regs();
      CellsInside(prev);
      FrameInside(m, next);
      SwitchLoads(m, r, prev, next, ret);
      CallSwitch(ContextCell(prev), mem[ContextCell(next)], ret);
    }

    method ClearSlot(proc: nat)
      requires proc + PROCESS_WORDS <= mem.Length
      modifies mem
      ensures forall b :: 0 <= b < mem.Length ==>
        mem[b] == if proc <= b < proc + PROCESS_WORDS then 0 else old(mem[b])
    {
      for a := 0 to PROCESS_WORDS
        invariant forall b :: 0 <= b < mem.Length ==>
          mem[b] == if proc <= b < proc + a then 0 else old(mem[b])
      {
        mem[proc + a] := 0;
      }
    }

    /** The stores of process_create_kernel into a slot: pid, state, type and saved pointer,
        and on the stack the entry point and four zero registers. All else becomes zero. */
    method BuildSlot(proc: nat, pid: u32, entry: u32)
      requires proc + PROCESS_WORDS <= mem.Length == MEMORY_WORDS
      modifies mem
      ensures forall a :: 0 <= a < mem.Length ==>
        mem[a] ==
          if a == proc then pid
          else if a == proc + 1 then 1
          else if a == proc + 3 then proc + 5 + STACK_WORDS - 5
          else if a == proc + 5 + STACK_WORDS - 1 then entry
          else if proc <= a < proc + PROCESS_WORDS then 0
          else old(mem[a])
    {
      ClearSlot(proc);
      mem[proc] := pid;
      mem[proc + 1] := 1;
      mem[proc + 2] := 0;
      var sp := proc + 5 + STACK_WORDS;
      sp := sp - 1;
      mem[sp] := entry;
      sp := sp - 1;
      mem[sp] := 0;
      sp := sp - 1;
      mem[sp] := 0;
      sp := sp - 1;
      mem[sp] := 0;
      sp := sp - 1;
      mem[sp] := 0;
      mem[proc + 3] := sp;
    }

    /** The part of process_create_kernel that builds slot `i`: cleared, with the entry
        point and four zero registers on its stack. */
    method CreateFrame(i: nat, pid: u32, entry: u32)
      requires mem.Length == MEMORY_WORDS && i < SchedulerSpec.MAX_PROCESS
      modifies mem
      ensures var m := mem[..];
        && HasFrame(m, i) && Frame(m, i) == Registers(0, 0, 0, 0, StackTop(i), entry)
        && forall j :: 0 <= j < SLOTS && j != i ==> SameSlot(old(mem[..]), m, j)
      ensures mem[PROCESS_WORDS * i] == pid && mem[PROCESS_WORDS * i + 1] == 1
      ensures mem[PROCESS_WORDS * i + 2] == mem[PROCESS_WORDS * i + 4] == 0
      ensures forall a :: StackBase(i) <= a < StackTop(i) ==> mem[a] == if a == StackTop(i) - 1 then entry else 0
    {
      ghost var was := mem[..];
      BuildSlot(PROCESS_WORDS * i, pid, entry);
      OtherSlotsSame(was, mem[..], i);
    }
  }

  lemma OtherSlotsSame(m: Memory, m': Memory, i: nat)
    requires i < SLOTS
    requires forall b :: 0 <= b < MEMORY_WORDS && !(PROCESS_WORDS * i <= b < PROCESS_WORDS * i + PROCESS_WORDS) ==> m'[b] == m[b]
    ensures forall j :: 0 <= j < SLOTS && j != i ==> SameSlot(m, m', j)
  {
    forall j | 0 <= j < SLOTS && j != i
      ensures SameSlot(m, m', j)
    {
      if i < j { SlotsApart(i, j); } else { SlotsApart(j, i); }
    }
  }

  /** Memory after the four pushes and the store of the stack pointer. */
  function StoredFrame(m: seq<u32>, r: Registers): (m': seq<u32>)
    requires 4 <= r.esp && r.esp + 3 <= |m| < WORD && m[r.esp + 1] < |m|
    ensures |m'| == |m|
  {
    var sp := r.esp;
    m[sp - 1 := r.ebp][sp - 2 := r.ebx][sp - 3 := r.esi][sp - 4 := r.edi][m[sp + 1] as int := sp - 4]
  }

  function AfterCall(m: seq<u32>, r: Registers, oldCell: nat, newContext: nat, ret: u32): (m': seq<u32>)
    requires 7 <= r.esp <= |m| < WORD && oldCell < |m| && newContext < |m|
    ensures |m'| == |m|
  {
    var sp := r.esp;
    StoredFrame(m[sp - 1 := newContext][sp - 2 := oldCell][sp - 3 := ret], r.(esp := sp - 3))
  }

  lemma CellsInside(i: nat)
    requires i < SLOTS
    ensures ContextCell(i) < StackBase(i) < StackTop(i) <= MEMORY_WORDS
  {
  }

  lemma FrameInside(m: Memory, i: nat)
    requires i < SLOTS && HasFrame(m, i)
    ensures ContextCell(i) < |m| && m[ContextCell(i)] + 5 <= MEMORY_WORDS
  {
  }

  // ----- a switch saves one slot and loads another -----

  /** Memory and registers after a switch; `ret` is where the suspended process will
      continue. */
  function Switched(m: Memory, r: Registers, prev: nat, next: nat, ret: u32): (Memory, Registers)
    requires prev < SLOTS && next < SLOTS && RoomToSwitch(prev, r.esp) && HasFrame(m, next)
  {
    CellsInside(prev);
    FrameInside(m, next);
    (AfterCall(m, r, ContextCell(prev), m[ContextCell(next)], ret), Frame(m, next))
  }

  /** The registers that a process suspended with registers `r` must get back: its own,
      at the return address of its call. */
  function Resumed(r: Registers, ret: u32): Registers
    requires r.esp >= 2
  {
    r.(esp := r.esp - 2, eip := ret)
  }

  /** The switch leaves a frame that holds the registers of the suspended process, and
      touches no other slot. */
  lemma SwitchSaves(m: Memory, r: Registers, prev: nat, context: nat, ret: u32)
    requires prev < SLOTS && RoomToSwitch(prev, r.esp) && context < MEMORY_WORDS
    ensures ContextCell(prev) < MEMORY_WORDS && r.esp <= MEMORY_WORDS
    ensures var m' := AfterCall(m, r, ContextCell(prev), context, ret);
      && HasFrame(m', prev) && Frame(m', prev) == Resumed(r, ret)
      && m'[ContextCell(prev)] == r.esp - 7
      && m'[r.esp - 7..r.esp - 2] == [r.edi, r.esi, r.ebx, r.ebp, ret]
      && forall j :: 0 <= j < SLOTS && j != prev ==> SameSlot(m, m', j)
  {
    CellsInside(prev);
    var m' := AfterCall(m, r, ContextCell(prev), context, ret);
    assert forall a :: 0 <= a < MEMORY_WORDS && a != ContextCell(prev) && !(StackBase(prev) <= a < StackTop(prev)) ==>
      m'[a] == m[a];
    forall j | 0 <= j < SLOTS && j != prev
      ensures SameSlot(m, m', j)
    {
      if j < prev { SlotsApart(j, prev); } else { SlotsApart(prev, j); }
    }
  }

  /** What the pops of the new stack deliver is the frame of the next slot. */
  lemma SwitchLoads(m: Memory, r: Registers, prev: nat, next: nat, ret: u32)
    requires prev < SLOTS && next < SLOTS && next != prev
    requires RoomToSwitch(prev, r.esp) && HasFrame(m, next)
    ensures ContextCell(prev) < MEMORY_WORDS && ContextCell(next) < |m| && r.esp <= MEMORY_WORDS
    ensures var c: int := m[ContextCell(next)];
      && 0 <= c && c + 5 <= MEMORY_WORDS
      && var m' := AfterCall(m, r, ContextCell(prev), c, ret);
      Frame(m, next) == Registers(m'[c], m'[c + 1], m'[c + 2], m'[c + 3], c + 5, m'[c + 4])
  {
    hide AfterCall;
    CellsInside(prev);
    FrameInside(m, next);
    SwitchSaves(m, r, prev, m[ContextCell(next)], ret);
    FrameDependsOnSlot(m, AfterCall(m, r, ContextCell(prev), m[ContextCell(next)], ret), next);
  }

  // ----- runs -----

  /** The machine, the slot whose process runs, and, as a specification, the registers
      with which each other process must continue. */
  datatype System = System(mem: Memory, regs: Registers, running: nat, saved: map<nat, Registers>)

  datatype Step =
    | Work(mem: Memory, regs: Registers)
    | Create(i: nat, entry: u32, mem: Memory)
    | SwitchTo(next: nat, ret: u32)

  /** Every suspended process has its registers in its own slot. */
  ghost predicate Inv(s: System) {
    && s.running < SLOTS
    && forall i :: i in s.saved && i != s.running ==>
         i < SLOTS && HasFrame(s.mem, i) && Frame(s.mem, i) == s.saved[i]
  }

  /** Work changes the running process's own stack, and words that are neither stack nor
      saved pointer; creation builds an unused slot; a switch needs a target that was
      created and room on the stack. */
  ghost predicate Allowed(s: System, step: Step) {
    && s.running < SLOTS
    && match step
       case Work(m, _) =>
         && m[ContextCell(s.running)] == s.mem[ContextCell(s.running)]
         && forall j :: 0 <= j < SLOTS && j != s.running ==> SameSlot(s.mem, m, j)
       case Create(i, entry, m) =>
         && i < SchedulerSpec.MAX_PROCESS && i !in s.saved && i != s.running
         && HasFrame(m, i) && Frame(m, i) == Registers(0, 0, 0, 0, StackTop(i), entry)
         && forall j :: 0 <= j < SLOTS && j != i ==> SameSlot(s.mem, m, j)
       case SwitchTo(next, _) =>
         && next in s.saved && next < SchedulerSpec.MAX_PROCESS && next != s.running
         && RoomToSwitch(s.running, s.regs.esp)
  }

  ghost function Take(s: System, step: Step): System
    requires Inv(s) && Allowed(s, step)
  {
    match step
    case Work(m, r) => s.(mem := m, regs := r)
    case Create(i, entry, m) => s.(mem := m, saved := s.saved[i := Registers(0, 0, 0, 0, StackTop(i), entry)])
    case SwitchTo(next, ret) =>
      var (m, r) := Switched(s.mem, s.regs, s.running, next, ret);
      System(m, r, next, s.saved[s.running := Resumed(s.regs, ret)])
  }

  /** Every step keeps the invariant, and a switch delivers to the next process exactly
      the registers recorded for it. */
  lemma TakeKeepsInv(s: System, step: Step)
    requires Inv(s) && Allowed(s, step)
    ensures Inv(Take(s, step))
    ensures step.SwitchTo? ==> Take(s, step).regs == s.saved[step.next]
  {
    hide SameSlot, Frame, HasFrame, AfterCall;
    var s' := Take(s, step);
    if step.SwitchTo? {
      FrameInside(s.mem, step.next);
      SwitchSaves(s.mem, s.regs, s.running, s.mem[ContextCell(step.next)], step.ret);
    }
    forall i | i in s'.saved && i != s'.running
      ensures i < SLOTS && HasFrame(s'.mem, i) && Frame(s'.mem, i) == s'.saved[i]
    {
      if i in s.saved && i != s.running {
        FrameDependsOnSlot(s.mem, s'.mem, i);
      }
    }
  }

  /** The system after a step; every saved frame survives it. */
  ghost function TakeInv(s: System, step: Step): (s': System)
    requires Inv(s) && Allowed(s, step)
    ensures Inv(s') && s' == Take(s, step)
  {
    TakeKeepsInv(s, step);
    Take(s, step)
  }

  /** A run: every step is allowed when its turn comes. */
  ghost predicate Run(s: System, steps: seq<Step>)
    requires Inv(s)
    decreases |steps|
  {
    steps != [] ==> Allowed(s, steps[0]) && Run(TakeInv(s, steps[0]), steps[1..])
  }

  ghost function After(s: System, steps: seq<Step>): (s': System)
    requires Inv(s) && Run(s, steps)
    ensures Inv(s')
    decreases |steps|
  {
    if steps == [] then s else After(TakeInv(s, steps[0]), steps[1..])
  }

  /** Nothing that others do changes what a suspended process will get back. */
  lemma {:induction false} SavedStays(s: System, steps: seq<Step>, i: nat)
    requires Inv(s) && Run(s, steps) && i in s.saved && i != s.running
    requires forall step :: step in steps ==> !(step.SwitchTo? && step.next == i)
    ensures var s' := After(s, steps);
      i in s'.saved && i != s'.running && s'.saved[i] == s.saved[i]
    decreases |steps|
  {
    hide Inv, Switched, SameSlot, HasFrame, Frame;
    if steps != [] {
      SavedStays(TakeInv(s, steps[0]), steps[1..], i);
    }
  }

  /** Transparency: a process that is switched away and, after any run of the others,
      switched back to gets its own edi, esi, ebx, ebp and stack pointer, and continues
      at the return address of its own call. */
  lemma SwitchIsTransparent(s: System, away: Step, steps: seq<Step>, back: Step)
    requires Inv(s) && away.SwitchTo? && Allowed(s, away)
    requires Run(TakeInv(s, away), steps) && back.SwitchTo? && back.next == s.running
    requires forall step :: step in steps ==> !(step.SwitchTo? && step.next == s.running)
    requires Allowed(After(TakeInv(s, away), steps), back)
    ensures Take(After(TakeInv(s, away), steps), back).regs == Resumed(s.regs, away.ret)
  {
    hide Inv, Run, After, SameSlot, HasFrame, Frame, AfterCall;
    var s1 := TakeInv(s, away);
    SavedStays(s1, steps, s.running);
    TakeKeepsInv(After(s1, steps), back);
  }

  /** A new process starts at its entry point, with empty stack and zero registers. */
  lemma FirstSwitchStartsAtEntry(s: System, create: Step, steps: seq<Step>, start: Step)
    requires Inv(s) && create.Create? && Allowed(s, create)
    requires Run(TakeInv(s, create), steps) && start.SwitchTo? && start.next == create.i
    requires forall step :: step in steps ==> !(step.SwitchTo? && step.next == create.i)
    requires Allowed(After(TakeInv(s, create), steps), start)
    ensures Take(After(TakeInv(s, create), steps), start).regs
         == Registers(0, 0, 0, 0, StackTop(create.i), create.entry)
  {
    hide Inv, Run, After, SameSlot, HasFrame, Frame, AfterCall;
    var s1 := TakeInv(s, create);
    SavedStays(s1, steps, create.i);
    TakeKeepsInv(After(s1, steps), start);
  }
}
