/**
  Runs of context switches among kernel threads with disjoint stacks: a thread that is resumed
  cannot tell that it was ever away, and a new thread resumes like any other.
  */
module ContextRuns {
  import opened Contexts

  /** A kernel thread: its stack, and where its `Context` lies. */
  datatype Thread = Thread(low: nat, top: nat, ctx: nat) {
    predicate InStack(a: nat) { low <= a < top }
    predicate Owns(a: nat) { InStack(a) || ctx <= a < ctx + 24 }
  }

  /** Stacks and contexts are disjoint. */
  ghost predicate Separate(threads: seq<Thread>) {
    && (forall i, a: nat | 0 <= i < |threads| :: !(threads[i].InStack(a) && threads[i].ctx <= a < threads[i].ctx + 24))
    && (forall i, j, a: nat | 0 <= i < |threads| && 0 <= j < |threads| && i != j ::
          !(threads[i].Owns(a) && threads[j].Owns(a)))
  }

  datatype Event =
    | Compute
    | SwitchTo(to: nat)
    | Spawn(thread: nat, entry: nat, arg: nat, cr3: nat, trampoline: nat)

  /** Everything threads own reads the same afterwards, but for the stack of `cur`. */
  ghost predicate TouchesOnlyStackOf(threads: seq<Thread>, cur: nat, before: Memory, after: Memory)
    requires cur < |threads|
  {
    forall i, a: nat | 0 <= i < |threads| && threads[i].Owns(a) && !(i == cur && threads[i].InStack(a)) ::
      Read(after, a) == Read(before, a)
  }

  /** A switch is called from the running thread's own stack, with room for what it pushes. */
  ghost predicate CallsSwitch(threads: seq<Thread>, cur: nat, to: nat, m: Machine)
    requires cur < |threads| && to < |threads|
  {
    && threads[cur].low + 48 <= m.regs.rsp && m.regs.rsp + 8 <= threads[cur].top
    && m.regs.rdi == threads[cur].ctx && m.regs.rsi == threads[to].ctx
  }

  /**
    `bootstrap` has succeeded for `t`, and its result is stored as the thread's context: the stack
    pointer first, the address space 8 bytes on, and the shadow stack 16.
    */
  ghost predicate Spawned(t: Thread, e: Event, before: Memory, after: Memory)
    requires e.Spawn? && t.low <= t.top
  {
    var made := Bootstrap(t.top, t.top - t.low, e.entry, e.cr3);
    && made.Ok?
    && (forall k | 0 <= k < BOOTSTRAP_FRAME_SLOTS ::
          Read(after, made.value.rsp + 8 * k) == ForgedFrame(e.entry, e.arg, e.trampoline)[k])
    && Read(after, t.ctx) == made.value.rsp
    && Read(after, t.ctx + 8) == made.value.cr3
    && Read(after, t.ctx + 16) == made.value.ssp
    && (forall a: nat | !t.Owns(a) :: Read(after, a) == Read(before, a))
  }

  /** What one event does while `cur` runs. Only a switch changes the address space. */
  ghost predicate Step(threads: seq<Thread>, cur: nat, m: Machine, e: Event, m': Machine) {
    && cur < |threads|
    && match e
       case Compute =>
         m'.regs.cr3 == m.regs.cr3 && TouchesOnlyStackOf(threads, cur, m.mem, m'.mem)
       case SwitchTo(to) =>
         to < |threads| && CallsSwitch(threads, cur, to, m) && m' == Switched(m)
       case Spawn(t, entry, arg, cr3, trampoline) =>
         && t < |threads| && t != cur && threads[t].low <= threads[t].top
         && m'.regs.cr3 == m.regs.cr3 && Spawned(threads[t], e, m.mem, m'.mem)
  }

  function RunningAt(first: nat, events: seq<Event>, i: nat): nat
    requires i <= |events|
  {
    if i == 0 then first
    else if events[i - 1].SwitchTo? then events[i - 1].to
    else RunningAt(first, events, i - 1)
  }

  /** A run that starts with thread `first` in its own address space. */
  ghost predicate IsRun(threads: seq<Thread>, first: nat, states: seq<Machine>, events: seq<Event>) {
    && Separate(threads) && |states| == |events| + 1
    && first < |threads| && Read(states[0].mem, threads[first].ctx + 8) == states[0].regs.cr3
    && forall i | 0 <= i < |events| :: Step(threads, RunningAt(first, events, i), states[i], events[i], states[i + 1])
  }

  lemma StepAt(threads: seq<Thread>, first: nat, states: seq<Machine>, events: seq<Event>, i: nat)
    requires IsRun(threads, first, states, events) && i < |events|
    ensures Separate(threads) && |states| == |events| + 1
    ensures Step(threads, RunningAt(first, events, i), states[i], events[i], states[i + 1])
  {
    hide Step, Separate, RunningAt;
  }

  // ----- a suspended thread --------------------------------------------------------------

  /** Thread `t` lies suspended in `mem` as it was in `s`, just before it called the switch. */
  ghost predicate Suspended(t: Thread, s: Machine, mem: Memory) {
    var sp := s.regs.rsp - 48;
    && t.low + 48 <= s.regs.rsp && s.regs.rsp + 8 <= t.top
    && Read(mem, t.ctx) == sp && Read(mem, t.ctx + 8) == s.regs.cr3
    && SavedAt(mem, sp, s.regs)
    && forall a: nat | t.InStack(a) && !(sp <= a < s.regs.rsp) :: Read(mem, a) == Read(s.mem, a)
  }

  ghost predicate SavedAt(mem: Memory, sp: nat, r: Registers) {
    && Read(mem, sp) == r.r15 && Read(mem, sp + 8) == r.r14 && Read(mem, sp + 16) == r.r13
    && Read(mem, sp + 24) == r.r12 && Read(mem, sp + 32) == r.rbx && Read(mem, sp + 40) == r.rbp
  }

  /** The switch has returned into the thread that called it in `s`. */
  ghost predicate ResumesAs(t: Thread, s: Machine, m: Machine) {
    && m.regs.rbp == s.regs.rbp && m.regs.rbx == s.regs.rbx && m.regs.r12 == s.regs.r12
    && m.regs.r13 == s.regs.r13 && m.regs.r14 == s.regs.r14 && m.regs.r15 == s.regs.r15
    && m.regs.rsp == s.regs.rsp + 8 && m.rip == Read(s.mem, s.regs.rsp) && m.regs.cr3 == s.regs.cr3
    && forall a: nat | t.InStack(a) && s.regs.rsp <= a :: Read(m.mem, a) == Read(s.mem, a)
  }

  /** What the switch itself stores: the caller's frame below its return address, and its parked pointer. */
  lemma ParkedSuspends(threads: seq<Thread>, cur: nat, to: nat, m: Machine)
    requires Separate(threads) && cur < |threads| && to < |threads| && CallsSwitch(threads, cur, to, m)
    requires Read(m.mem, threads[cur].ctx + 8) == m.regs.cr3
    ensures Suspended(threads[cur], m, Parked(m))
  {
    hide Parked, Read, Separate;
    ContextOffStack(threads, cur);
    ParkedReads(m);
  }

  /** Neither slot of its own context lies on a thread's stack. */
  lemma ContextOffStack(threads: seq<Thread>, cur: nat)
    requires Separate(threads) && cur < |threads|
    ensures !threads[cur].InStack(threads[cur].ctx) && !threads[cur].InStack(threads[cur].ctx + 8)
  {
  }

  lemma PushedReads(mem: Memory, r: Registers)
    requires r.rsp >= 48
    ensures SavedAt(Pushed(mem, r), r.rsp - 48, r)
    ensures forall a: nat | !(r.rsp - 48 <= a < r.rsp) :: Read(Pushed(mem, r), a) == Read(mem, a)
  {
  }

  lemma ParkedReads(m: Machine)
    requires m.regs.rsp >= 48
    ensures Read(Parked(m), m.regs.rdi) == m.regs.rsp - 48
    ensures forall a: nat | a != m.regs.rdi && !(m.regs.rsp - 48 <= a < m.regs.rsp) ::
            Read(Parked(m), a) == Read(m.mem, a)
    ensures !(m.regs.rsp - 48 <= m.regs.rdi < m.regs.rsp) ==> SavedAt(Parked(m), m.regs.rsp - 48, m.regs)
  {
    PushedReads(m.mem, m.regs);
    hide Pushed;
  }

  /** Reading a suspended thread back in resumes it. */
  lemma SuspendedResumes(t: Thread, s: Machine, m: Machine)
    requires m.regs.rsp >= 48 && Suspended(t, s, Parked(m)) && m.regs.rsi == t.ctx
    ensures ResumesAs(t, s, Switched(m))
  {
    hide Read;
  }

  /** Nothing another thread does touches a suspended one. */
  lemma StaysSuspended(threads: seq<Thread>, cur: nat, m: Machine, e: Event, m': Machine, t: nat, s: Machine)
    requires Separate(threads) && Step(threads, cur, m, e, m')
    requires t < |threads| && t != cur && Suspended(threads[t], s, m.mem)
    requires !(e.Spawn? && e.thread == t)
    ensures Suspended(threads[t], s, if e.SwitchTo? then Parked(m) else m'.mem)
  {
    hide *;
    UntouchedByStep(threads, cur, m, e, m', t);
    SuspendedReadsTheSame(threads[t], s, m.mem, if e.SwitchTo? then Parked(m) else m'.mem);
  }

  lemma SuspendedReadsTheSame(t: Thread, s: Machine, mem: Memory, mem': Memory)
    requires Suspended(t, s, mem)
    requires forall a: nat | t.Owns(a) :: Read(mem', a) == Read(mem, a)
    ensures Suspended(t, s, mem')
  {
    hide Read;
    var sp := s.regs.rsp - 48;
    assert t.Owns(t.ctx) && t.Owns(t.ctx + 8);
    assert t.Owns(sp) && t.Owns(sp + 8) && t.Owns(sp + 16) && t.Owns(sp + 24) && t.Owns(sp + 32) && t.Owns(sp + 40);
    forall a: nat | t.InStack(a) && !(sp <= a < s.regs.rsp)
      ensures Read(mem', a) == Read(s.mem, a)
    {
      assert t.Owns(a);
    }
  }

  lemma UntouchedByStep(threads: seq<Thread>, cur: nat, m: Machine, e: Event, m': Machine, t: nat)
    requires Separate(threads) && Step(threads, cur, m, e, m')
    requires t < |threads| && t != cur && !(e.Spawn? && e.thread == t)
    ensures e.SwitchTo? ==> m.regs.rsp >= 48
    ensures forall a: nat | threads[t].Owns(a) ::
              Read(if e.SwitchTo? then Parked(m) else m'.mem, a) == Read(m.mem, a)
  {
    if e.SwitchTo? {
      var c := threads[cur];
      assert forall k: nat | k < 6 :: c.InStack(m.regs.rsp - 48 + 8 * k);
      assert c.Owns(c.ctx);
      forall a: nat | threads[t].Owns(a)
        ensures Read(Parked(m), a) == Read(m.mem, a)
      {
        assert !c.Owns(a);
      }
    }
  }

  // ----- runs ----------------------------------------------------------------------------

  /** The running thread's context always names the address space it runs in. */
  lemma {:induction false} ContextNamesAddressSpace(threads: seq<Thread>, first: nat, states: seq<Machine>,
                                                    events: seq<Event>, i: nat)
    requires IsRun(threads, first, states, events) && i <= |events|
    ensures var cur := RunningAt(first, events, i);
            cur < |threads| && Read(states[i].mem, threads[cur].ctx + 8) == states[i].regs.cr3
  {
    hide Step, Separate, Read;
    if i > 0 {
      ContextNamesAddressSpace(threads, first, states, events, i - 1);
      AddressSpaceStep(threads, RunningAt(first, events, i - 1), states[i - 1], events[i - 1], states[i]);
    }
  }

  lemma AddressSpaceStep(threads: seq<Thread>, cur: nat, m: Machine, e: Event, m': Machine)
    requires Separate(threads) && Step(threads, cur, m, e, m')
    requires Read(m.mem, threads[cur].ctx + 8) == m.regs.cr3
    ensures var next := if e.SwitchTo? then e.to else cur;
            next < |threads| && Read(m'.mem, threads[next].ctx + 8) == m'.regs.cr3
  {
    hide Parked;
    var c := threads[cur];
    assert c.Owns(c.ctx + 8);
    if e.Compute? { assert !c.InStack(c.ctx + 8); }
  }

  /** Thread `t` does not run, and is not made anew, between events `i` and `j`. */
  ghost predicate AwayBetween(first: nat, events: seq<Event>, t: nat, i: nat, j: nat)
    requires j <= |events|
  {
    forall k | i < k < j :: RunningAt(first, events, k) != t && !(events[k].Spawn? && events[k].thread == t)
  }

  /** From the moment a thread lies suspended until the switch that resumes it, it stays as it is. */
  lemma {:induction false} SuspendedUntilResumed(
      threads: seq<Thread>, first: nat, states: seq<Machine>, events: seq<Event>, t: nat, i: nat, j: nat, s: Machine)
    requires IsRun(threads, first, states, events) && i < j < |events| && t < |threads|
    requires Suspended(threads[t], s, states[i + 1].mem)
    requires AwayBetween(first, events, t, i, j) && RunningAt(first, events, j) != t && events[j] == SwitchTo(t)
    ensures Suspended(threads[t], s, states[j].mem) && states[j].regs.rsp >= 48
    ensures Suspended(threads[t], s, Parked(states[j]))
    decreases j - i
  {
    SuspendedAt(threads, first, states, events, t, i, j, s);
    StaysSuspended(threads, RunningAt(first, events, j), states[j], events[j], states[j + 1], t, s);
  }

  lemma {:induction false} SuspendedAt(
      threads: seq<Thread>, first: nat, states: seq<Machine>, events: seq<Event>, t: nat, i: nat, j: nat, s: Machine)
    requires IsRun(threads, first, states, events) && i < j <= |events| && t < |threads|
    requires Suspended(threads[t], s, states[i + 1].mem) && AwayBetween(first, events, t, i, j)
    ensures Suspended(threads[t], s, states[j].mem)
    decreases j
  {
    hide Suspended, Separate;
    if i + 1 < j {
      SuspendedAt(threads, first, states, events, t, i, j - 1, s);
      StaysSuspended(threads, RunningAt(first, events, j - 1), states[j - 1], events[j - 1], states[j], t, s);
    }
  }

  /**
    Transparency: a thread that calls the switch at event `i` and next runs when event `j`
    switches back to it (the same event, if it switches to itself) finds its callee-saved
    registers, stack pointer, return address, address space and every stack slot from the
    return address up just as it left them.
    */
  lemma ResumeIsTransparent(threads: seq<Thread>, first: nat, states: seq<Machine>, events: seq<Event>, i: nat, j: nat)
    requires IsRun(threads, first, states, events) && i <= j < |events| && events[i].SwitchTo?
    requires var t := RunningAt(first, events, i);
             && events[j] == SwitchTo(t) && AwayBetween(first, events, t, i, j)
             && (i < j ==> RunningAt(first, events, j) != t)
    ensures var t := RunningAt(first, events, i);
            t < |threads| && ResumesAs(threads[t], states[i], states[j + 1])
  {
    hide *;
    var t := RunningAt(first, events, i);
    ContextNamesAddressSpace(threads, first, states, events, i);
    StepAt(threads, first, states, events, i);
    SwitchSuspends(threads, t, events[i].to, states[i], states[i + 1]);
    if i < j {
      SuspendedUntilResumed(threads, first, states, events, t, i, j, states[i]);
    }
    StepAt(threads, first, states, events, j);
    SwitchResumes(threads, RunningAt(first, events, j), t, states[i], states[j], states[j + 1]);
  }

  lemma SwitchSuspends(threads: seq<Thread>, cur: nat, to: nat, m: Machine, m': Machine)
    requires Separate(threads) && Step(threads, cur, m, SwitchTo(to), m')
    requires Read(m.mem, threads[cur].ctx + 8) == m.regs.cr3
    ensures m.regs.rsp >= 48 && m' == Switched(m)
    ensures Suspended(threads[cur], m, m'.mem) && Suspended(threads[cur], m, Parked(m))
  {
    ParkedSuspends(threads, cur, to, m);
    hide Suspended, Parked;
  }

  lemma SwitchResumes(threads: seq<Thread>, cur: nat, t: nat, s: Machine, m: Machine, m': Machine)
    requires m.regs.rsp >= 48 && Step(threads, cur, m, SwitchTo(t), m')
    requires t < |threads| && Suspended(threads[t], s, Parked(m))
    ensures ResumesAs(threads[t], s, m')
  {
    SuspendedResumes(threads[t], s, m);
  }

  /** A new thread, as if it had called the switch from the trampoline's first instruction. */
  function NewThread(t: Thread, e: Event, mem: Memory): Machine
    requires e.Spawn? && t.top >= 16
  {
    Machine(Registers(t.top - 16, 0, 0, e.entry, e.arg, 0, 0, 0, 0, 0, 0, e.cr3), mem, e.trampoline, false)
  }

  /** What `bootstrap` lays out is a suspended thread. */
  lemma SpawnedIsSuspended(t: Thread, e: Event, before: Memory, after: Memory)
    requires e.Spawn? && t.low <= t.top && Spawned(t, e, before, after)
    ensures t.top >= 64 && Suspended(t, NewThread(t, e, after), after)
    ensures Read(after, t.top - 16) == e.trampoline && Read(after, t.top - 8) == 0
  {
    hide Read;
    var sp := t.top - 64;
    var frame := ForgedFrame(e.entry, e.arg, e.trampoline);
    assert Read(after, sp + 8 * 0) == frame[0];
    assert Read(after, sp + 8 * 1) == frame[1];
    assert Read(after, sp + 8 * 2) == frame[2];
    assert Read(after, sp + 8 * 3) == frame[3];
    assert Read(after, sp + 8 * 4) == frame[4];
    assert Read(after, sp + 8 * 5) == frame[5];
    assert Read(after, sp + 8 * 6) == frame[6];
    assert Read(after, sp + 8 * 7) == frame[7];
  }

  lemma SpawnStep(threads: seq<Thread>, cur: nat, m: Machine, e: Event, m': Machine)
    requires Step(threads, cur, m, e, m') && e.Spawn?
    ensures e.thread < |threads|
    ensures var t := threads[e.thread];
            && t.low + 64 <= t.top && t.top % 16 == 0 && Suspended(t, NewThread(t, e, m'.mem), m'.mem)
            && Read(m'.mem, t.top - 16) == e.trampoline && Read(m'.mem, t.top - 8) == 0
  {
    SpawnedIsSuspended(threads[e.thread], e, m.mem, m'.mem);
    hide Suspended, Read;
  }

  /**
    The first resume of a thread made at event `i` lands in the trampoline with the entry point
    in `r12` and the argument in `r13`, at the zero that ends its stack; the trampoline then
    enters the thread with its argument, interrupts on, and `rsp` a multiple of 16.
    */
  lemma FirstResumeEntersThread(
      threads: seq<Thread>, first: nat, states: seq<Machine>, events: seq<Event>, i: nat, j: nat, next: nat)
    requires IsRun(threads, first, states, events) && i < j < |events| && events[i].Spawn?
    requires var t := events[i].thread;
             && events[j] == SwitchTo(t) && AwayBetween(first, events, t, i, j) && RunningAt(first, events, j) != t
    ensures events[i].thread < |threads| && states[j + 1].regs.rsp >= 8
    ensures AtTrampoline(threads[events[i].thread], events[i], states[j + 1])
    ensures AtEntryPoint(events[i], next, Trampolined(states[j + 1], next))
  {
    hide *;
    StepAt(threads, first, states, events, i);
    var start := EnteredFrom(threads, first, states, events, i, j);
    NewThreadEnters(threads[events[i].thread], events[i], states[i + 1].mem, states[j + 1], next);
  }

  ghost predicate AtTrampoline(t: Thread, e: Event, m: Machine)
    requires e.Spawn?
  {
    && m.rip == e.trampoline && m.regs.r12 == e.entry && m.regs.r13 == e.arg && m.regs.cr3 == e.cr3
    && m.regs.rbp == 0 && m.regs.rbx == 0 && m.regs.r14 == 0 && m.regs.r15 == 0
    && m.regs.rsp == t.top - 8 && Read(m.mem, m.regs.rsp) == 0
  }

  ghost predicate AtEntryPoint(e: Event, next: nat, m: Machine)
    requires e.Spawn?
  {
    && m.rip == e.entry && m.regs.rdi == e.arg && m.interrupts
    && m.regs.rsp % 16 == 0 && Read(m.mem, m.regs.rsp) == next && Read(m.mem, m.regs.rsp + 8) == 0
  }

  lemma NewThreadEnters(t: Thread, e: Event, mem: Memory, m: Machine, next: nat)
    requires e.Spawn? && t.low + 64 <= t.top && t.top % 16 == 0
    requires Read(mem, t.top - 16) == e.trampoline && Read(mem, t.top - 8) == 0
    requires ResumesAs(t, NewThread(t, e, mem), m)
    ensures m.regs.rsp >= 8 && AtTrampoline(t, e, m) && AtEntryPoint(e, next, Trampolined(m, next))
  {
    assert t.InStack(t.top - 8);
  }

  lemma EnteredFrom(threads: seq<Thread>, first: nat, states: seq<Machine>, events: seq<Event>, i: nat, j: nat)
    returns (start: Machine)
    requires IsRun(threads, first, states, events) && i < j < |events| && events[i].Spawn?
    requires var t := events[i].thread;
             && events[j] == SwitchTo(t) && AwayBetween(first, events, t, i, j) && RunningAt(first, events, j) != t
    ensures var t, e := events[i].thread, events[i];
            && t < |threads| && threads[t].low + 64 <= threads[t].top && threads[t].top % 16 == 0
            && start == NewThread(threads[t], e, states[i + 1].mem)
            && Read(states[i + 1].mem, threads[t].top - 16) == e.trampoline
            && Read(states[i + 1].mem, threads[t].top - 8) == 0
            && ResumesAs(threads[t], start, states[j + 1])
  {
    hide *;
    var t, e := events[i].thread, events[i];
    StepAt(threads, first, states, events, i);
    SpawnStep(threads, RunningAt(first, events, i), states[i], e, states[i + 1]);
    start := NewThread(threads[t], e, states[i + 1].mem);
    SuspendedUntilResumed(threads, first, states, events, t, i, j, start);
    StepAt(threads, first, states, events, j);
    SwitchResumes(threads, RunningAt(first, events, j), t, start, states[j], states[j + 1]);
  }

  /**
    `entry_stack_is_aligned` says of any context that `rsp` is 8 off a multiple of 16 when the
    trampoline calls, hence a multiple of 16 at the entry point's first instruction; every
    context that `bootstrap` makes is such.
    */
  lemma EntryAlignment(m: Machine, c: Context, next: nat)
    requires m.regs.rsp >= 48 && c.rsp == Read(Parked(m), m.regs.rsi)
    ensures c.EntryStackIsAligned() <==> Switched(m).regs.rsp % 16 == 8
    ensures c.EntryStackIsAligned() <==> Trampolined(Switched(m), next).regs.rsp % 16 == 0
  {
    hide Parked, Read;
  }

  /** A thread can be made exactly on an aligned top, with an entry point and 16 KiB of stack. */
  lemma BootstrapsExactly(top: nat, bytes: nat, entry: nat, cr3: nat)
    requires FrameHasRoom(top, bytes, entry)
    ensures var r := Bootstrap(top, bytes, entry, cr3);
            && (r.Ok? <==> top % 16 == 0 && entry != 0 && bytes >= 16384)
            && (r.Ok? ==> r.value == Context(top - 64, cr3, 0))
            && (r.Err? && r.error.MisalignedStack? <==> top % 16 != 0)
            && (r.Err? && r.error.NullEntry? <==> top % 16 == 0 && entry == 0)
            && (r.Err? && r.error.StackTooSmall? ==> bytes < 16384 && r.error == StackTooSmall(bytes, 16384))
            && (r.Err? && r.error.MisalignedStack? ==> r.error.top == top)
  {
  }

  lemma BootstrapAligns(top: nat, bytes: nat, entry: nat, cr3: nat)
    requires FrameHasRoom(top, bytes, entry)
    ensures var r := Bootstrap(top, bytes, entry, cr3);
            r.Ok? ==> r.value.EntryStackIsAligned() && top - bytes <= r.value.rsp < top
  {
  }
}
