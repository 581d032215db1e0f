/**
  The context switch (`arch/context.S`, `arch/context.rs`): a small machine, the switch as it
  runs on it, and the frame a new thread starts from.

  Memory is addressed in aligned eight-byte slots; a slot never written reads as zero.
  */
module Contexts {
  import opened Wrappers

  type Memory = map<nat, nat>

  function Read(mem: Memory, addr: nat): nat {
    if addr in mem then mem[addr] else 0
  }

  datatype Registers = Registers(
    rsp: nat, rbp: nat, rbx: nat, r12: nat, r13: nat, r14: nat, r15: nat,
    rax: nat, rcx: nat, rdi: nat, rsi: nat, cr3: nat)

  datatype Machine = Machine(regs: Registers, mem: Memory, rip: nat, interrupts: bool)

  const CTX_RSP: nat := 0
  const CTX_CR3: nat := 8
  const CTX_SSP: nat := 16
  const SAVED_REGISTER_COUNT: nat := 6
  const BOOTSTRAP_FRAME_SLOTS: nat := SAVED_REGISTER_COUNT + 2
  const MIN_KERNEL_STACK_BYTES: nat := 16 * 1024

  datatype Context = Context(rsp: nat, cr3: nat, ssp: nat) {
    predicate EntryStackIsAligned() { (rsp + (SAVED_REGISTER_COUNT + 1) * 8) % 16 == 8 }
  }

  datatype ContextError =
    | MisalignedStack(top: nat)
    | StackTooSmall(bytes: nat, required: nat)
    | NullEntry

  // ----- what the code does, as functions ------------------------------------------------

  /** Memory once the six callee-saved registers are pushed. */
  function Pushed(mem: Memory, r: Registers): Memory
    requires r.rsp >= 48
  {
    mem[r.rsp - 8 := r.rbp][r.rsp - 16 := r.rbx][r.rsp - 24 := r.r12][r.rsp - 32 := r.r13]
       [r.rsp - 40 := r.r14][r.rsp - 48 := r.r15]
  }

  /** And once the outgoing thread's stack pointer is parked. */
  function Parked(m: Machine): Memory
    requires m.regs.rsp >= 48
  {
    Pushed(m.mem, m.regs)[m.regs.rdi + CTX_RSP := m.regs.rsp - 48]
  }

  /** Registers with the six callee-saved ones read back from the slots at `sp`. */
  function RestoredFrom(mem: Memory, sp: nat, r: Registers): Registers {
    r.(r15 := Read(mem, sp), r14 := Read(mem, sp + 8), r13 := Read(mem, sp + 16), r12 := Read(mem, sp + 24),
       rbx := Read(mem, sp + 32), rbp := Read(mem, sp + 40), rsp := sp + 48)
  }

  /** `spectre_context_switch`, from `rdi` to `rsi`, up to and including its `ret`. */
  function Switched(m: Machine): Machine
    requires m.regs.rsp >= 48
  {
    var mem := Parked(m);
    var cr3, sp := Read(mem, m.regs.rsi + CTX_CR3), Read(mem, m.regs.rsi + CTX_RSP);
    var regs := RestoredFrom(mem, sp, m.regs.(cr3 := cr3, rax := cr3, rcx := m.regs.cr3));
    Machine(regs.(rsp := sp + 56), mem, Read(mem, sp + 48), m.interrupts)
  }

  /** The trampoline up to its first `call`, which pushes `next`. */
  function Trampolined(m: Machine, next: nat): Machine
    requires m.regs.rsp >= 8
  {
    Machine(m.regs.(rdi := m.regs.r13, rsp := m.regs.rsp - 8), m.mem[m.regs.rsp - 8 := next], m.regs.r12, true)
  }

  /** A request that passes the checks has room below its top for the frame, so that no address goes below zero. */
  predicate FrameHasRoom(top: nat, bytes: nat, entry: nat) {
    top % 16 == 0 && entry != 0 && bytes >= MIN_KERNEL_STACK_BYTES ==> top >= BOOTSTRAP_FRAME_SLOTS * 8
  }

  /** `Context::bootstrap`: whether a thread can be made, and the context if so. */
  function Bootstrap(top: nat, bytes: nat, entry: nat, cr3: nat): Result<Context, ContextError>
    requires FrameHasRoom(top, bytes, entry)
  {
    if top % 16 != 0 then Err(MisalignedStack(top))
    else if entry == 0 then Err(NullEntry)
    else if bytes < MIN_KERNEL_STACK_BYTES then Err(StackTooSmall(bytes, MIN_KERNEL_STACK_BYTES))
    else Ok(Context(top - BOOTSTRAP_FRAME_SLOTS * 8, cr3, 0))
  }

  /** The forged frame: what the switch pops, from the lowest slot up. */
  function ForgedFrame(entry: nat, arg: nat, trampoline: nat): seq<nat> {
    [0, 0, arg, entry, 0, 0, trampoline, 0]
  }

  /** `after` is `before` with the slots from `addr` up replaced by `frame`. */
  ghost predicate HasWritten(before: Memory, after: Memory, addr: nat, frame: seq<nat>) {
    && (forall k | 0 <= k < |frame| :: Read(after, addr + 8 * k) == frame[k])
    && (forall a: nat | a < addr || addr + 8 * |frame| <= a :: Read(after, a) == Read(before, a))
  }

  // ----- the machine ---------------------------------------------------------------------

  class Cpu {
    var regs: Registers
    var mem: Memory
    var rip: nat
    var interrupts: bool

    constructor (m: Machine)
      ensures State() == m
    {
      regs, mem, rip, interrupts := m.regs, m.mem, m.rip, m.interrupts;
    }

    function State(): Machine
      reads this
    {
      Machine(regs, mem, rip, interrupts)
    }

    method Push(v: nat)
      requires regs.rsp >= 8
      modifies this`regs, this`mem
      ensures regs == old(regs).(rsp := old(regs.rsp) - 8) && mem == old(mem)[old(regs.rsp) - 8 := v]
    {
      regs := regs.(rsp := regs.rsp - 8);
      mem := mem[regs.rsp := v];
    }

    method Pop() returns (v: nat)
      modifies this`regs
      ensures v == Read(mem, old(regs.rsp)) && regs == old(regs).(rsp := old(regs.rsp) + 8)
    {
      v := Read(mem, regs.rsp);
      regs := regs.(rsp := regs.rsp + 8);
    }

    /** `spectre_context_switch`: park the outgoing thread, resume the incoming one, return into it. */
    method ContextSwitch()
      requires regs.rsp >= 48
      modifies this
      ensures State() == Switched(old(State()))
    {
      hide Read, Pushed;
      SaveRegisters();
      mem := mem[regs.rdi + CTX_RSP := regs.rsp];
      regs := regs.(rax := Read(mem, regs.rsi + CTX_CR3));
      regs := regs.(rcx := regs.cr3);
      if regs.rax != regs.rcx {
        regs := regs.(cr3 := regs.rax);
      }
      regs := regs.(rsp := Read(mem, regs.rsi + CTX_RSP));
      RestoreRegisters();
      var target := Pop();
      rip := target;
    }

    method SaveRegisters()
      requires regs.rsp >= 48
      modifies this`regs, this`mem
      ensures regs == old(regs).(rsp := old(regs.rsp) - 48)
      ensures mem == Pushed(old(mem), old(regs))
    {
      Push(regs.rbp);
      Push(regs.rbx);
      Push(regs.r12);
      Push(regs.r13);
      Push(regs.r14);
      Push(regs.r15);
    }

    method RestoreRegisters()
      modifies this`regs
      ensures regs == RestoredFrom(mem, old(regs.rsp), old(regs))
    {
      hide Read;
      var v := Pop();
      regs := regs.(r15 := v);
      v := Pop();
      regs := regs.(r14 := v);
      v := Pop();
      regs := regs.(r13 := v);
      v := Pop();
      regs := regs.(r12 := v);
      v := Pop();
      regs := regs.(rbx := v);
      v := Pop();
      regs := regs.(rbp := v);
    }

    /** `spectre_thread_trampoline` up to the entry point; `next` is the address after its `call`. */
    method ThreadTrampoline(next: nat)
      requires regs.rsp >= 8
      modifies this
      ensures State() == Trampolined(old(State()), next)
    {
      interrupts := true;
      regs := regs.(rdi := regs.r13);
      Push(next);
      rip := regs.r12;
    }

    /** `Context::bootstrap`, storing through the machine's memory. */
    method BootstrapContext(top: nat, bytes: nat, entry: nat, arg: nat, cr3: nat, trampoline: nat)
        returns (r: Result<Context, ContextError>)
      requires FrameHasRoom(top, bytes, entry)
      modifies this`mem
      ensures r == Bootstrap(top, bytes, entry, cr3)
      ensures r.Err? ==> mem == old(mem)
      ensures r.Ok? ==> HasWritten(old(mem), mem, r.value.rsp, ForgedFrame(entry, arg, trampoline))
    {
      if top % 16 != 0 { return Err(MisalignedStack(top)); }
      if entry == 0 { return Err(NullEntry); }
      var required := BOOTSTRAP_FRAME_SLOTS * 8;
      required := if required < MIN_KERNEL_STACK_BYTES then MIN_KERNEL_STACK_BYTES else required;
      if bytes < required { return Err(StackTooSmall(bytes, required)); }

      hide HasWritten;
      ghost var before := mem;
      var sp := top;
      sp := sp - 8;
      mem := mem[sp := 0];
      sp := sp - 8;
      mem := mem[sp := trampoline];
      sp := sp - 8;
      mem := mem[sp := 0];
      sp := sp - 8;
      mem := mem[sp := 0];
      sp := sp - 8;
      mem := mem[sp := entry];
      sp := sp - 8;
      mem := mem[sp := arg];
      sp := sp - 8;
      mem := mem[sp := 0];
      sp := sp - 8;
      mem := mem[sp := 0];

      ForgedFrameSlots(before, sp, entry, arg, trampoline);
      r := Ok(Context(sp, cr3, 0));
    }
  }

  lemma ForgedFrameSlots(mem: Memory, sp: nat, entry: nat, arg: nat, trampoline: nat)
    ensures HasWritten(
              mem,
              mem[sp + 56 := 0][sp + 48 := trampoline][sp + 40 := 0][sp + 32 := 0]
                 [sp + 24 := entry][sp + 16 := arg][sp + 8 := 0][sp := 0],
              sp, ForgedFrame(entry, arg, trampoline))
  {
  }
}
