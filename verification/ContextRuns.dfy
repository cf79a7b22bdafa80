/** Runs of many threads on one processor: whatever the threads do on their own stacks and in
shared memory, a thread that is resumed finds everything as it was when it was switched away
(os/kernel/src/thread/thread.rs:97-103, 122-153, 182-276). */
module ContextRuns {
  import opened Ranges
  import opened Context

  /** Where a thread lives: its kernel stack, the address of its `old_rsp0` and its page tables. */
  datatype Home = Home(base: int, capacity: nat, slot: int, space: int)

  /** `saved` remembers, for every thread that has been switched away, the machine at the entry
      into `thread_switch`, when the return address is on top of the stack. It is not looked at by any step. */
  datatype World = World(machine: Machine, current: Option<nat>, homes: map<nat, Home>, saved: map<nat, Machine>)

  datatype Step =
    | Create(thread: nat, home: Home, kickoff: int)
    | Begin(thread: nat)
    | Execute(after: Machine)
    | Switch(next: nat, ret: int, noise: Noise)

  predicate OnStack(h: Home, a: int) {
    h.base <= a < h.base + h.capacity
  }

  predicate Disjoint(g: Home, h: Home) {
    && (g.base + g.capacity <= h.base || h.base + h.capacity <= g.base)
    && !OnStack(g, h.slot) && !OnStack(h, g.slot) && g.slot != h.slot
  }

  ghost predicate Apart(homes: map<nat, Home>) {
    && (forall t :: t in homes ==> !OnStack(homes[t], homes[t].slot))
    && (forall t, u :: t in homes && u in homes && t != u ==> Disjoint(homes[t], homes[u]))
  }

  /** `kernel_stack_addr`, which counts in words and not in bytes. */
  function KernelStackAddr(h: Home): int {
    h.base + (h.capacity - 1) * 8
  }

  /** The machine at the entry into `thread_switch`, called by `Thread::switch`. */
  function Entry(m: Machine, from: Home, to: Home, ret: int): Machine {
    m.(rsp := m.rsp - 1, memory := m.memory[m.rsp - 1 := ret],
       regs := m.regs.(rdi := from.slot, rsi := At(m.memory, to.slot), rdx := KernelStackAddr(to), rcx := to.space))
  }

  /** There is room on the stack for the registers, and the called function stays below them. */
  ghost predicate Room(h: Home, m: Machine, noise: Noise) {
    && h.base + 17 <= m.rsp <= h.base + h.capacity
    && forall a :: a in noise.below ==> h.base <= a < m.rsp - 17
  }

  function Span(base: int, n: nat): (r: set<int>)
    ensures forall a :: a in r <==> base <= a < base + n
  {
    if n == 0 then {} else Span(base, n - 1) + {base + n - 1}
  }

  function StackInMemory(m: Memory, base: int, stack: seq<int>): Memory {
    m + map a | a in Span(base, |stack|) :: stack[a - base]
  }

  /** Memory after a thread has been created in a fresh place. */
  function CreatedMemory(m: Memory, h: Home, kickoff: int): Memory
    requires h.capacity >= 18
  {
    StackInMemory(m, h.base, Prepared(h.capacity, kickoff))[h.slot := h.base + h.capacity - 18]
  }

  /** What a new thread is to find when it is first entered. */
  function FirstContext(m: Machine, h: Home, kickoff: int): Machine
    requires h.capacity >= 18
  {
    m.(regs := Fresh, rsp := h.base + h.capacity - 2, memory := CreatedMemory(m.memory, h, kickoff))
  }

  /** The memory of a thread that does not run stays as it is. */
  ghost predicate Untouched(h: Home, m: Memory, m1: Memory) {
    At(m1, h.slot) == At(m, h.slot) && forall a :: OnStack(h, a) ==> At(m1, a) == At(m, a)
  }

  ghost predicate CanTake(w: World, step: Step) {
    match step
    case Create(thread, home, kickoff) =>
      thread !in w.homes && thread !in w.saved && home.capacity >= 18 && Apart(w.homes[thread := home])
    case Begin(thread) => w.current.None? && thread in w.homes
    case Execute(after) =>
      forall t :: t in w.homes && w.current != Some(t) ==> Untouched(w.homes[t], w.machine.memory, after.memory)
    case Switch(next, ret, noise) =>
      && w.current.Some? && w.current.value in w.homes && next in w.homes && next != w.current.value
      && Room(w.homes[w.current.value], w.machine, noise)
  }

  ghost function After(w: World, step: Step): World
    requires CanTake(w, step)
  {
    match step
    case Create(thread, home, kickoff) =>
      World(w.machine.(memory := CreatedMemory(w.machine.memory, home, kickoff)), w.current,
            w.homes[thread := home], w.saved[thread := FirstContext(w.machine, home, kickoff)])
    case Begin(thread) =>
      w.(machine := Resumed(w.machine, At(w.machine.memory, w.homes[thread].slot)), current := Some(thread))
    case Execute(after) => w.(machine := after)
    case Switch(next, ret, noise) =>
      var c := w.current.value;
      var entry := Entry(w.machine, w.homes[c], w.homes[next], ret);
      World(Switched(entry, noise), Some(next), w.homes, w.saved[c := entry])
  }

  // --- the invariant ------------------------------------------------------------------------

  /** The stack of a thread from its return address up, as it was. */
  ghost predicate SameAbove(h: Home, m: Memory, was: Machine) {
    forall a :: was.rsp <= a < h.base + h.capacity ==> At(m, a) == At(was.memory, a)
  }

  /** Memory holds everything with which a thread is to go on. */
  ghost predicate Frozen(h: Home, m: Memory, was: Machine) {
    && h.base + 16 <= was.rsp < h.base + h.capacity
    && At(m, h.slot) == was.rsp - 16
    && Popped(m, was.rsp - 16) == was.regs
    && SameAbove(h, m, was)
  }

  ghost predicate Inv(w: World) {
    && Apart(w.homes) && (forall t :: t in w.homes ==> w.homes[t].capacity >= 18)
    && (w.current.Some? ==> w.current.value in w.homes)
    && forall t :: t in w.homes && w.current != Some(t) ==>
         t in w.saved && Frozen(w.homes[t], w.machine.memory, w.saved[t])
  }

  lemma FrozenStays(h: Home, m: Memory, m1: Memory, was: Machine)
    requires Frozen(h, m, was) && Untouched(h, m, m1)
    ensures Frozen(h, m1, was)
  {
    PoppedAgrees(m, m1, was.rsp - 16);
  }

  lemma CreatedElsewhere(m: Memory, h: Home, kickoff: int, other: Home)
    requires h.capacity >= 18 && Disjoint(h, other)
    ensures Untouched(other, m, CreatedMemory(m, h, kickoff))
  {
  }

  /** What `prepare_kernel_stack` has written is what a new thread is to find. */
  lemma CreatedFrozen(m: Machine, h: Home, kickoff: int)
    requires h.capacity >= 18 && !OnStack(h, h.slot)
    ensures Frozen(h, CreatedMemory(m.memory, h, kickoff), FirstContext(m, h, kickoff))
    ensures At(CreatedMemory(m.memory, h, kickoff), h.base + h.capacity - 2) == kickoff
    ensures At(CreatedMemory(m.memory, h, kickoff), h.base + h.capacity - 1) == DUMMY
  {
    var m1, stack := CreatedMemory(m.memory, h, kickoff), Prepared(h.capacity, kickoff);
    assert |stack| == h.capacity;
    forall a | OnStack(h, a)
      ensures At(m1, a) == stack[a - h.base]
    {
    }
  }

  lemma SwitchedMemory(m: Machine, noise: Noise, a: int)
    requires a < m.rsp - 16 || m.rsp <= a
    requires a != m.regs.rdi && a !in noise.below
    ensures At(Switched(m, noise).memory, a) == At(m.memory, a)
  {
    PushedElsewhere(m.memory, m.rsp, m.regs, a);
  }

  /** The switch leaves the memory of every other thread alone. */
  lemma SwitchElsewhere(w: World, step: Step, t: nat)
    requires Inv(w) && step.Switch? && CanTake(w, step) && t in w.homes && w.current != Some(t)
    ensures Untouched(w.homes[t], w.machine.memory, After(w, step).machine.memory)
  {
    var h, c := w.homes[t], w.current.value;
    var entry := Entry(w.machine, w.homes[c], w.homes[step.next], step.ret);
    assert Disjoint(h, w.homes[c]);
    hide Switched;
    forall a | OnStack(h, a) || a == h.slot
      ensures At(After(w, step).machine.memory, a) == At(w.machine.memory, a)
    {
      SwitchedMemory(entry, step.noise, a);
    }
  }

  lemma SwitchedPops(m: Machine, noise: Noise)
    requires m.regs.rdi < m.rsp - 16 || m.rsp <= m.regs.rdi
    requires forall a :: a in noise.below ==> a < m.rsp - 16
    ensures Popped(Switched(m, noise).memory, m.rsp - 16) == m.regs
  {
    var m1 := Pushed(m.memory, m.rsp, m.regs);
    PushedPopped(m.memory, m.rsp, m.regs);
    hide Pushed, Popped;
    assert Switched(m, noise).memory == m1[m.regs.rdi := m.rsp - 16] + noise.below;
    PoppedAgrees(m1, Switched(m, noise).memory, m.rsp - 16);
  }

  lemma SavedPointer(m: Machine, noise: Noise)
    requires m.regs.rdi !in noise.below
    ensures At(Switched(m, noise).memory, m.regs.rdi) == m.rsp - 16
  {
    hide Pushed, Popped;
  }

  /** The thread that is switched away is frozen as it was at the entry. */
  lemma SwitchFreezes(m: Machine, h: Home, noise: Noise)
    requires h.base + 16 <= m.rsp < h.base + h.capacity
    requires forall a :: a in noise.below ==> h.base <= a < m.rsp - 16
    requires m.regs.rdi == h.slot && !OnStack(h, h.slot)
    ensures Frozen(h, Switched(m, noise).memory, m)
  {
    var m1 := Switched(m, noise).memory;
    hide Pushed, Popped, Switched;
    SavedPointer(m, noise);
    SwitchedPops(m, noise);
    forall a | m.rsp <= a < h.base + h.capacity
      ensures At(m1, a) == At(m.memory, a)
    {
      SwitchedMemory(m, noise, a);
    }
  }

  /** Thread `t`, if it is not the current one, can go on from what memory holds. */
  ghost predicate Ready(w: World, t: nat) {
    t in w.homes && w.current != Some(t) ==> t in w.saved && Frozen(w.homes[t], w.machine.memory, w.saved[t])
  }

  lemma CreateReady(w: World, step: Step, t: nat)
    requires Inv(w) && step.Create? && CanTake(w, step)
    ensures Ready(After(w, step), t)
  {
    var homes := w.homes[step.thread := step.home];
    if t == step.thread {
      assert !OnStack(homes[t], homes[t].slot);
      CreatedFrozen(w.machine, step.home, step.kickoff);
    } else if t in w.homes && w.current != Some(t) {
      assert Disjoint(homes[step.thread], homes[t]);
      CreatedElsewhere(w.machine.memory, step.home, step.kickoff, w.homes[t]);
      hide CreatedMemory, FirstContext;
      FrozenStays(w.homes[t], w.machine.memory, After(w, step).machine.memory, w.saved[t]);
    }
  }

  lemma SwitchReady(w: World, step: Step, t: nat)
    requires Inv(w) && step.Switch? && CanTake(w, step)
    ensures Ready(After(w, step), t)
  {
    hide Switched;
    if w.current == Some(t) {
      var h := w.homes[t];
      assert !OnStack(h, h.slot);
      SwitchFreezes(Entry(w.machine, h, w.homes[step.next], step.ret), h, step.noise);
    } else if t in w.homes {
      SwitchElsewhere(w, step, t);
      FrozenStays(w.homes[t], w.machine.memory, After(w, step).machine.memory, w.saved[t]);
    }
  }

  lemma OtherReady(w: World, step: Step, t: nat)
    requires Inv(w) && (step.Begin? || step.Execute?) && CanTake(w, step)
    ensures Ready(After(w, step), t)
  {
    hide Popped, Apart;
    if step.Execute? && t in w.homes && w.current != Some(t) {
      FrozenStays(w.homes[t], w.machine.memory, step.after.memory, w.saved[t]);
    }
  }

  lemma HomesKept(w: World, step: Step)
    requires Inv(w) && CanTake(w, step)
    ensures var w1 := After(w, step);
      && Apart(w1.homes) && (forall t :: t in w1.homes ==> w1.homes[t].capacity >= 18)
      && (w1.current.Some? ==> w1.current.value in w1.homes)
  {
    hide CreatedMemory, FirstContext, Switched, Resumed, Frozen, Room;
  }

  lemma StepKeeps(w: World, step: Step)
    requires Inv(w) && CanTake(w, step)
    ensures Inv(After(w, step))
  {
    hide CanTake, After, Frozen, Apart;
    HomesKept(w, step);
    var w1 := After(w, step);
    forall t | t in w1.homes && w1.current != Some(t)
      ensures t in w1.saved && Frozen(w1.homes[t], w1.machine.memory, w1.saved[t])
    {
      match step
      case Create(_, _, _) => CreateReady(w, step, t);
      case Switch(_, _, _) => SwitchReady(w, step, t);
      case _ => OtherReady(w, step, t);
    }
  }

  // --- resuming -------------------------------------------------------------------------------

  /** A thread goes on where it was: its registers and flags, its return address, and its stack
      with everything above the return address. */
  ghost predicate GoesOn(h: Home, m: Machine, was: Machine) {
    m.regs == was.regs && m.rip == At(was.memory, was.rsp) && m.rsp == was.rsp + 1 && SameAbove(h, m.memory, was)
  }

  predicate Enters(step: Step, t: nat) {
    step == Begin(t) || (step.Switch? && step.next == t)
  }

  lemma EntryResumes(w: World, step: Step, t: nat)
    requires Inv(w) && CanTake(w, step) && Enters(step, t)
    ensures t in w.saved && GoesOn(w.homes[t], After(w, step).machine, w.saved[t])
    ensures step.Switch? ==> After(w, step).machine.cr3 == w.homes[t].space
    ensures step.Switch? ==> After(w, step).machine.tss == KernelStackAddr(w.homes[t])
  {
    var h, m1 := w.homes[t], After(w, step).machine;
    var was := w.saved[t];
    assert Frozen(h, w.machine.memory, was);
    hide Pushed, Popped;
    if step.Switch? {
      SwitchElsewhere(w, step, t);
      FrozenStays(h, w.machine.memory, m1.memory, was);
      assert Disjoint(w.homes[w.current.value], h);
      SwitchLands(Entry(w.machine, w.homes[w.current.value], h, step.ret), step.noise);
    }
  }

  /** The address that `kernel_stack_addr` returns lies on the stack only if that has a single word. */
  lemma StackAddrInsideExactlyWhen(h: Home)
    requires h.capacity >= 1
    ensures OnStack(h, KernelStackAddr(h)) <==> h.capacity == 1
  {
  }

  /** So no switch ever loads an address into the task state segment that lies on the stack of
      the thread that is entered: it lies at least 118 words behind its end. */
  lemma SwitchLoadsAddrOutside(w: World, step: Step)
    requires Inv(w) && CanTake(w, step) && step.Switch?
    ensures var h := w.homes[step.next];
      !OnStack(h, After(w, step).machine.tss) && After(w, step).machine.tss >= h.base + h.capacity + 118
  {
    EntryResumes(w, step, step.next);
    StackAddrInsideExactlyWhen(w.homes[step.next]);
  }

  ghost predicate CanRun(w: World, steps: seq<Step>)
    decreases |steps|
  {
    steps == [] || (CanTake(w, steps[0]) && CanRun(After(w, steps[0]), steps[1..]))
  }

  ghost function Run(w: World, steps: seq<Step>): World
    requires CanRun(w, steps)
    decreases |steps|
  {
    if steps == [] then w else Run(After(w, steps[0]), steps[1..])
  }

  lemma SavedByStep(w: World, step: Step, t: nat)
    requires Inv(w) && CanTake(w, step) && t in w.homes && w.current != Some(t) && !Enters(step, t)
    ensures var w1 := After(w, step);
      && t in w1.homes && w1.homes[t] == w.homes[t] && w1.current != Some(t)
      && t in w.saved && t in w1.saved && w1.saved[t] == w.saved[t]
  {
    hide CreatedMemory, Switched, Resumed, Frozen;
  }

  /** As long as a thread is not entered, nothing is forgotten about it. */
  lemma {:induction false} StaysSaved(w: World, steps: seq<Step>, t: nat)
    requires Inv(w) && CanRun(w, steps) && t in w.homes && w.current != Some(t)
    requires forall k :: 0 <= k < |steps| ==> !Enters(steps[k], t)
    ensures var w1 := Run(w, steps);
      && Inv(w1) && t in w1.homes && w1.homes[t] == w.homes[t] && w1.current != Some(t)
      && t in w.saved && t in w1.saved && w1.saved[t] == w.saved[t]
    decreases |steps|
  {
    if steps != [] {
      hide After, Inv, CanTake;
      assert !Enters(steps[0], t);
      StepKeeps(w, steps[0]);
      SavedByStep(w, steps[0], t);
      StaysSaved(After(w, steps[0]), steps[1..], t);
    }
  }

  /** Over any run of switches between distinct threads, a thread that has been switched away
      goes on, when it is next resumed, with exactly the registers, flags, return address and
      stack that it had. */
  lemma ResumedAsLeft(w: World, leave: Step, between: seq<Step>, back: Step)
    requires Inv(w) && leave.Switch? && CanTake(w, leave) && CanRun(After(w, leave), between)
    requires CanTake(Run(After(w, leave), between), back)
    requires Enters(back, w.current.value)
    requires forall k :: 0 <= k < |between| ==> !Enters(between[k], w.current.value)
    ensures var t := w.current.value;
      var was := Entry(w.machine, w.homes[t], w.homes[leave.next], leave.ret);
      GoesOn(w.homes[t], After(Run(After(w, leave), between), back).machine, was)
  {
    var t, w1 := w.current.value, After(w, leave);
    StepKeeps(w, leave);
    StaysSaved(w1, between, t);
    EntryResumes(Run(w1, between), back, t);
  }

  lemma CreateEffect(w: World, create: Step)
    requires Inv(w) && create.Create? && CanTake(w, create)
    ensures create.home.capacity >= 18 && !OnStack(create.home, create.home.slot) && w.current != Some(create.thread)
    ensures After(w, create).current == w.current && After(w, create).homes == w.homes[create.thread := create.home]
    ensures After(w, create).saved == w.saved[create.thread := FirstContext(w.machine, create.home, create.kickoff)]
  {
    hide FirstContext, CreatedMemory, Frozen, Switched, Resumed, Entry;
    var homes := w.homes[create.thread := create.home];
    assert Apart(homes) && homes[create.thread] == create.home;
  }

  lemma CreatedSaved(w: World, create: Step)
    requires Inv(w) && create.Create? && CanTake(w, create)
    ensures var w1 := After(w, create);
      Inv(w1) && create.thread in w1.homes && create.thread in w1.saved && w1.current != Some(create.thread)
    ensures var was := After(w, create).saved[create.thread];
      && was.regs == Fresh && At(was.memory, was.rsp) == create.kickoff && At(was.memory, was.rsp + 1) == DUMMY
      && was.rsp + 1 < create.home.base + create.home.capacity
    ensures After(w, create).homes[create.thread] == create.home
  {
    hide After, Inv, CanTake, CreatedMemory, Frozen, At;
    CreateEffect(w, create);
    StepKeeps(w, create);
    CreatedFrozen(w.machine, create.home, create.kickoff);
  }

  /** A new thread first enters `kickoff_kernel_thread`, with all registers zero, interrupts
      enabled and the dummy return address on top of its stack. */
  lemma FirstEntersKickoff(w: World, create: Step, between: seq<Step>, enter: Step)
    requires Inv(w) && create.Create? && CanTake(w, create) && CanRun(After(w, create), between)
    requires CanTake(Run(After(w, create), between), enter) && Enters(enter, create.thread)
    requires forall k :: 0 <= k < |between| ==> !Enters(between[k], create.thread)
    ensures var m := After(Run(After(w, create), between), enter).machine;
      && m.rip == create.kickoff && At(m.memory, m.rsp) == 0x00DEAD00
      && m.regs == Registers(0, 0, 0, 0, 0, 0, 0, 0, 0, 0, 0, 0, 0, 0, 0, 0x202)
  {
    hide After, Inv, CanTake, CanRun, Run, At;
    var t, w1 := create.thread, After(w, create);
    CreatedSaved(w, create);
    StaysSaved(w1, between, t);
    EntryResumes(Run(w1, between), enter, t);
  }

  // --- switching to oneself -------------------------------------------------------------------

  /** `Thread::switch` reads the stack pointer of the next thread before that of the current one
      is saved. Hence a thread that is switched to itself goes on as it was only if the stack
      pointer of its previous switch happens to be the same. */
  lemma SelfSwitchResumesExactlyWhen(m: Machine, h: Home, ret: int, noise: Noise)
    requires Room(h, m, noise) && !OnStack(h, h.slot)
    ensures GoesOn(h, Switched(Entry(m, h, h, ret), noise), Entry(m, h, h, ret))
      <==> At(m.memory, h.slot) == m.rsp - 17
  {
    var entry := Entry(m, h, h, ret);
    var after := Switched(entry, noise);
    SwitchFreezes(entry, h, noise);
    SwitchLands(entry, noise);
    hide Switched, Popped, At;
    assert entry.regs.rsi == At(m.memory, h.slot);
  }

  lemma SwitchLands(m: Machine, noise: Noise)
    ensures Switched(m, noise).regs == Popped(Switched(m, noise).memory, m.regs.rsi)
    ensures Switched(m, noise).rsp == m.regs.rsi + 17
    ensures Switched(m, noise).rip == At(Switched(m, noise).memory, m.regs.rsi + 16)
  {
    hide Pushed, Popped, At;
  }
}
