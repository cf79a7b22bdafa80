/** Scheduling and switching together: which thread runs next is decided by the scheduler, and
what it finds in registers and memory is up to the switch
(os/kernel/src/thread/scheduler.rs:61-210, os/kernel/src/thread/thread.rs:97-153, 182-276). */
module KernelRuns {
  import opened Ranges
  import Scheduler
  import Context
  import S = SchedulerRuns
  import C = ContextRuns

  datatype Kernel = Kernel(sched: S.World, cpu: C.World)

  /** One step of the scheduler, with the place and entry point of a thread that it creates, and
      with what a switch that it makes leaves behind; or what the current thread does with
      registers and memory meanwhile. */
  datatype Step =
    | Schedule(step: S.Step, home: C.Home, kickoff: int, ret: int, noise: Context.Noise)
    | Execute(after: Context.Machine)

  function Booted(machine: Context.Machine): Kernel {
    Kernel(S.Boot, C.World(machine, None, map[], map[]))
  }

  /** The thread that a step dispatches, if it is another than the current one. */
  function SwitchesTo(k: Kernel, step: Step): Option<nat> {
    if step.Schedule? && S.DispatchedBy(k.sched, step.step) != k.sched.s.current
    then S.DispatchedBy(k.sched, step.step) else None
  }

  /** What a step means for registers and memory. A thread that dequeues itself in `block` just
      goes on. */
  function ContextSteps(k: Kernel, step: Step): seq<C.Step> {
    match step
    case Execute(after) => [C.Execute(after)]
    case Schedule(step', home, kickoff, ret, noise) =>
      if step'.NewThread? then [C.Create(step'.thread, home, kickoff)]
      else if SwitchesTo(k, step).None? then []
      else if step'.Start? then [C.Begin(SwitchesTo(k, step).value)]
      else [C.Switch(SwitchesTo(k, step).value, ret, noise)]
  }

  /** What is asked of a step beyond what the scheduler sees to: no interrupt dispatches the
      current thread, a new thread gets memory of its own, a thread keeps to its own stack, and
      there is room on it for a switch. */
  ghost predicate CanTake(k: Kernel, step: Step) {
    match step
    case Execute(after) => C.CanTake(k.cpu, C.Execute(after))
    case Schedule(step', home, kickoff, ret, noise) =>
      && S.Next(k.sched, step').Some? && S.Sound(k.sched, step')
      && !(step'.Preempt? && k.sched.s.current.Some? && S.DispatchedBy(k.sched, step') == k.sched.s.current)
      && (step'.NewThread? ==> home.capacity >= 18 && C.Apart(k.cpu.homes[step'.thread := home]))
      && (!step'.Start? && SwitchesTo(k, step).Some? && k.cpu.current.Some? && k.cpu.current.value in k.cpu.homes ==>
            C.Room(k.cpu.homes[k.cpu.current.value], k.cpu.machine, noise))
  }

  ghost function CpuAfter(w: C.World, steps: seq<C.Step>): C.World {
    if C.CanRun(w, steps) then C.Run(w, steps) else w
  }

  function SchedAfter(w: S.World, step: Step): S.World {
    if step.Schedule? && S.Next(w, step.step).Some? then S.Next(w, step.step).value else w
  }

  ghost function After(k: Kernel, step: Step): Kernel {
    Kernel(SchedAfter(k.sched, step), CpuAfter(k.cpu, ContextSteps(k, step)))
  }

  /** The threads that the scheduler knows are those that have a stack, and both agree on the
      current one. */
  ghost predicate Agrees(k: Kernel) {
    && k.cpu.homes.Keys == k.sched.phase.Keys
    && k.cpu.current == k.sched.s.current
    && forall t :: t in k.cpu.saved ==> t in k.cpu.homes
  }

  ghost predicate Inv(k: Kernel) {
    S.Inv(k.sched) && C.Inv(k.cpu) && Agrees(k)
  }

  // --- the scheduler dispatches threads that can go on ------------------------------------------

  /** Whom the scheduler dispatches is a thread that it knows. */
  lemma DispatchKnown(w: S.World, step: S.Step)
    requires S.Inv(w) && S.Sound(w, step) && S.DispatchedBy(w, step).Some?
    ensures S.DispatchedBy(w, step).value in w.phase
    ensures step.Start? ==> w.s.current.None?
    ensures !step.Start? ==> w.s.current.Some? && w.s.current.value in w.phase
  {
    match step
    case Start => S.InQueue(w, Scheduler.Back(w.s.ready));
    case Block(times) =>
      S.AwaitKeeps(w, times);
      S.InQueue(S.AwaitAt(w, times), Scheduler.Back(S.AwaitAt(w, times).s.ready));
    case Preempt(checked) =>
      if checked {
        S.WakeKeeps(w, w.now);
      }
      var w1 := if checked then S.WakeAt(w, w.now) else w;
      S.InQueue(w1, Scheduler.Back(w1.s.ready));
    case _ =>
  }

  /** So every switch that the scheduler asks for is between two different threads whose contexts
      are known. */
  lemma SwitchIsPossible(k: Kernel, step: Step)
    requires Inv(k) && CanTake(k, step)
    ensures forall j :: 0 <= j < |ContextSteps(k, step)| ==> C.CanTake(k.cpu, ContextSteps(k, step)[j])
  {
    hide S.Inv, C.Inv, C.Apart, C.Room, S.Next, S.DispatchedBy;
    if step.Schedule? && SwitchesTo(k, step).Some? {
      DispatchKnown(k.sched, step.step);
    }
    if step.Schedule? && step.step.NewThread? {
      NewIsNew(k.sched, step.step.thread);
    }
  }

  lemma NewIsNew(w: S.World, thread: nat)
    requires S.Next(w, S.NewThread(thread)).Some?
    ensures thread !in w.phase
  {
  }

  // --- each step keeps the invariant ------------------------------------------------------------

  lemma OneStep(w: C.World, steps: seq<C.Step>)
    requires |steps| <= 1 && forall j :: 0 <= j < |steps| ==> C.CanTake(w, steps[j])
    ensures C.CanRun(w, steps)
    ensures C.Run(w, steps) == if steps == [] then w else C.After(w, steps[0])
  {
    hide C.CanTake, C.After;
    if steps != [] {
      assert steps[1..] == [] && C.CanRun(C.After(w, steps[0]), []);
    }
  }

  /** What a step of the scheduler means for its threads and for the current one. */
  lemma NextKnows(w: S.World, step: S.Step)
    requires S.Next(w, step).Some?
    ensures var w1 := S.Next(w, step).value;
      && w1.phase.Keys == w.phase.Keys + (if step.NewThread? then {step.thread} else {})
      && w1.s.current == if S.DispatchedBy(w, step).Some? then S.DispatchedBy(w, step) else w.s.current
  {
    hide Scheduler.PushAll, Scheduler.Expired, Scheduler.Asleep;
  }

  lemma DispatchSteps(step: S.Step, w: S.World)
    ensures S.DispatchedBy(w, step).Some? ==> step.Start? || step.Block? || step.Preempt?
  {
  }

  lemma CpuKnows(w: C.World, step: C.Step)
    requires C.CanTake(w, step)
    ensures var w1 := C.After(w, step);
      && w1.homes.Keys == w.homes.Keys + (if step.Create? then {step.thread} else {})
      && w1.current == (if step.Begin? then Some(step.thread) else if step.Switch? then Some(step.next) else w.current)
      && (step.Switch? ==> w.current.Some? && w.current.value in w.homes)
      && forall t :: t in w1.saved ==>
           t in w.saved || (step.Create? && t == step.thread) || (step.Switch? && w.current == Some(t))
  {
    hide Context.Switched, Context.Resumed, C.CreatedMemory, C.FirstContext, C.Entry, C.Room, C.Apart, C.Untouched;
  }

  lemma StepKeeps(k: Kernel, step: Step)
    requires Inv(k) && CanTake(k, step)
    ensures Inv(After(k, step)) && C.CanRun(k.cpu, ContextSteps(k, step))
  {
    hide S.Inv, C.Inv, CanTake, S.Next, S.DispatchedBy, S.Sound, C.CanTake, C.After, C.CanRun, C.Run;
    var steps := ContextSteps(k, step);
    SwitchIsPossible(k, step);
    OneStep(k.cpu, steps);
    SchedKeeps(k, step);
    if steps != [] {
      C.StepKeeps(k.cpu, steps[0]);
      CpuKnows(k.cpu, steps[0]);
    }
  }

  lemma SchedKeeps(k: Kernel, step: Step)
    requires Inv(k) && CanTake(k, step)
    ensures S.Inv(SchedAfter(k.sched, step))
    ensures var w1, creates := SchedAfter(k.sched, step), step.Schedule? && step.step.NewThread?;
      && w1.phase.Keys == k.sched.phase.Keys + (if creates then {step.step.thread} else {})
      && w1.s.current == if SwitchesTo(k, step).Some? then SwitchesTo(k, step) else k.sched.s.current
    ensures SwitchesTo(k, step).Some? ==> step.Schedule? && (step.step.Start? || step.step.Block? || step.step.Preempt?)
  {
    hide S.Inv, C.Inv, S.Next, S.DispatchedBy, S.Sound, C.CanTake, C.Room, C.Apart;
    if step.Schedule? {
      S.StepKeeps(k.sched, step.step);
      NextKnows(k.sched, step.step);
      DispatchSteps(step.step, k.sched);
    }
  }

  // --- whole runs -------------------------------------------------------------------------------

  ghost predicate CanRun(k: Kernel, steps: seq<Step>)
    decreases |steps|
  {
    steps == [] || (CanTake(k, steps[0]) && CanRun(After(k, steps[0]), steps[1..]))
  }

  ghost function Run(k: Kernel, steps: seq<Step>): Kernel
    decreases |steps|
  {
    if steps == [] then k else Run(After(k, steps[0]), steps[1..])
  }

  ghost predicate Reachable(k: Kernel) {
    exists machine, steps :: CanRun(Booted(machine), steps) && k == Run(Booted(machine), steps)
  }

  lemma {:induction false} RunKeeps(k: Kernel, steps: seq<Step>)
    requires Inv(k) && CanRun(k, steps)
    ensures Inv(Run(k, steps))
    decreases |steps|
  {
    hide Inv, CanTake, After;
    if steps != [] {
      StepKeeps(k, steps[0]);
      RunKeeps(After(k, steps[0]), steps[1..]);
    }
  }

  lemma BootHolds(machine: Context.Machine)
    ensures Inv(Booted(machine))
  {
    S.BootHolds();
    hide S.Inv;
    assert C.Inv(Booted(machine).cpu);
  }

  lemma ReachableInv(k: Kernel)
    requires Reachable(k)
    ensures Inv(k)
  {
    var machine, steps :| CanRun(Booted(machine), steps) && k == Run(Booted(machine), steps);
    BootHolds(machine);
    hide CanRun, Run, Inv;
    RunKeeps(Booted(machine), steps);
  }

  /** In every reachable state, the scheduler asks for a switch only between two different threads
      whose contexts are known. */
  lemma SwitchesAreKnown(k: Kernel, step: Step)
    requires Reachable(k) && CanTake(k, step) && SwitchesTo(k, step).Some?
    ensures SwitchesTo(k, step).value in k.cpu.homes && k.cpu.current != SwitchesTo(k, step)
    ensures !step.step.Start? ==> k.cpu.current.Some? && k.cpu.current.value in k.cpu.homes
  {
    ReachableInv(k);
    hide S.Inv, C.Inv, S.Next, S.DispatchedBy, C.CanTake, C.Room, C.Apart;
    DispatchKnown(k.sched, step.step);
  }

  /** What a run means for registers and memory. */
  ghost function AllContextSteps(k: Kernel, steps: seq<Step>): seq<C.Step>
    decreases |steps|
  {
    if steps == [] then [] else ContextSteps(k, steps[0]) + AllContextSteps(After(k, steps[0]), steps[1..])
  }

  ghost predicate NeverDispatched(k: Kernel, steps: seq<Step>, t: nat)
    decreases |steps|
  {
    steps == [] || (SwitchesTo(k, steps[0]) != Some(t) && NeverDispatched(After(k, steps[0]), steps[1..], t))
  }

  lemma JoinContext(w: C.World, first: seq<C.Step>, rest: seq<C.Step>)
    requires |first| <= 1 && C.CanRun(w, first) && C.CanRun(C.Run(w, first), rest)
    ensures C.CanRun(w, first + rest) && C.Run(w, first + rest) == C.Run(C.Run(w, first), rest)
  {
    hide C.CanTake, C.After;
    if first == [] {
      assert first + rest == rest;
    } else {
      assert first[1..] == [] && (first + rest)[1..] == rest && (first + rest)[0] == first[0];
    }
  }

  /** Seen from registers and memory, a run is one of `ContextRuns`. */
  lemma {:induction false} RunProjects(k: Kernel, steps: seq<Step>)
    requires Inv(k) && CanRun(k, steps)
    ensures C.CanRun(k.cpu, AllContextSteps(k, steps))
    ensures C.Run(k.cpu, AllContextSteps(k, steps)) == Run(k, steps).cpu
    decreases |steps|
  {
    if steps != [] {
      hide Inv, CanTake, ContextSteps;
      StepKeeps(k, steps[0]);
      RunProjects(After(k, steps[0]), steps[1..]);
      FewSteps(k, steps[0]);
      hide C.CanRun, C.Run;
      JoinContext(k.cpu, ContextSteps(k, steps[0]), AllContextSteps(After(k, steps[0]), steps[1..]));
    }
  }

  lemma FewSteps(k: Kernel, step: Step)
    ensures |ContextSteps(k, step)| <= 1
  {
  }

  lemma {:induction false} NeverEntered(k: Kernel, steps: seq<Step>, t: nat)
    requires NeverDispatched(k, steps, t)
    ensures forall j :: 0 <= j < |AllContextSteps(k, steps)| ==> !C.Enters(AllContextSteps(k, steps)[j], t)
    decreases |steps|
  {
    if steps != [] {
      hide After, S.DispatchedBy;
      NeverEntered(After(k, steps[0]), steps[1..], t);
    }
  }

  // --- a thread goes on as it left --------------------------------------------------------------

  /** The current thread `t` is switched away by `leave`, and `back` is the next step that
      dispatches it. */
  ghost predicate AwayAndBack(k: Kernel, leave: Step, between: seq<Step>, back: Step, t: nat) {
    && CanTake(k, leave) && k.sched.s.current == Some(t) && SwitchesTo(k, leave).Some?
    && CanRun(After(k, leave), between) && NeverDispatched(After(k, leave), between, t)
    && CanTake(Run(After(k, leave), between), back) && SwitchesTo(Run(After(k, leave), between), back) == Some(t)
  }

  ghost function Finally(k: Kernel, leave: Step, between: seq<Step>, back: Step): Kernel {
    After(Run(After(k, leave), between), back)
  }

  lemma LeaveIsSwitch(k: Kernel, leave: Step, t: nat)
    requires Inv(k) && CanTake(k, leave) && k.sched.s.current == Some(t) && SwitchesTo(k, leave).Some?
    ensures k.cpu.current == Some(t) && t in k.cpu.homes && SwitchesTo(k, leave).value in k.cpu.homes && leave.Schedule?
    ensures var switch := C.Switch(SwitchesTo(k, leave).value, leave.ret, leave.noise);
      C.CanTake(k.cpu, switch) && After(k, leave).cpu == C.After(k.cpu, switch)
  {
    DispatchKnown(k.sched, leave.step);
    SwitchIsPossible(k, leave);
    DispatchSteps(leave.step, k.sched);
    hide S.Inv, C.Inv, S.Next, S.DispatchedBy, C.CanTake, C.After, C.Room, C.CanRun, C.Run, S.Sound, C.Apart;
    assert ContextSteps(k, leave) == [C.Switch(SwitchesTo(k, leave).value, leave.ret, leave.noise)];
    assert C.CanTake(k.cpu, ContextSteps(k, leave)[0]);
    OneStep(k.cpu, ContextSteps(k, leave));
  }

  lemma BackEnters(k: Kernel, back: Step, t: nat)
    requires Inv(k) && CanTake(k, back) && SwitchesTo(k, back) == Some(t)
    ensures exists enter :: C.Enters(enter, t) && C.CanTake(k.cpu, enter) && After(k, back).cpu == C.After(k.cpu, enter)
  {
    SwitchIsPossible(k, back);
    DispatchSteps(back.step, k.sched);
    hide S.Inv, C.Inv, S.Next, S.DispatchedBy, C.CanTake, C.After, C.Room, C.CanRun, C.Run, S.Sound, C.Apart;
    OneStep(k.cpu, ContextSteps(k, back));
    assert C.CanTake(k.cpu, ContextSteps(k, back)[0]) && C.Enters(ContextSteps(k, back)[0], t);
  }

  /** In every run from boot in which no interrupt dispatches the current thread: whatever makes
      the scheduler switch a thread away and dispatch it again, the thread goes on with the
      registers, flags, return address and stack that it had at the entry into the switch. */
  lemma GoesOnAsLeft(k: Kernel, leave: Step, between: seq<Step>, back: Step, t: nat)
    requires Reachable(k) && AwayAndBack(k, leave, between, back, t)
    ensures t in k.cpu.homes && SwitchesTo(k, leave).value in k.cpu.homes
    ensures var homes := k.cpu.homes;
      C.GoesOn(homes[t], Finally(k, leave, between, back).cpu.machine,
               C.Entry(k.cpu.machine, homes[t], homes[SwitchesTo(k, leave).value], leave.ret))
  {
    ReachableInv(k);
    LeaveIsSwitch(k, leave, t);
    StepKeeps(k, leave);
    var k1 := After(k, leave);
    RunKeeps(k1, between);
    RunProjects(k1, between);
    NeverEntered(k1, between, t);
    var k2 := Run(k1, between);
    BackEnters(k2, back, t);
    var enter :| C.Enters(enter, t) && C.CanTake(k2.cpu, enter) && After(k2, back).cpu == C.After(k2.cpu, enter);
    assert C.Inv(k.cpu);
    hide Reachable, CanTake, CanRun, Run, After, NeverDispatched;
    hide Inv, S.Inv, C.Inv, C.CanTake, C.CanRun, C.Run, C.After;
    hide C.GoesOn, C.Entry;
    C.ResumedAsLeft(k.cpu, C.Switch(SwitchesTo(k, leave).value, leave.ret, leave.noise), AllContextSteps(k1, between),
                    enter);
  }

  predicate Suspended(phase: S.Phase) {
    phase.Blocked? || phase.Gone?
  }

  lemma LeftBlocked(w: S.World, times: seq<nat>, t: nat)
    requires S.Next(w, S.Block(times)).Some? && w.s.current == Some(t) && S.DispatchedBy(w, S.Block(times)) != Some(t)
    ensures t in w.phase && w.phase[t].Leaving? && t in S.Next(w, S.Block(times)).value.phase
    ensures S.Next(w, S.Block(times)).value.phase[t]
      == if w.phase[t].reason.Exit? then S.Gone else S.Blocked(w.phase[t].reason)
  {
  }

  /** Who is inside of `block` stays there until dispatched. */
  lemma StaysSuspended(w: S.World, step: S.Step, t: nat)
    requires S.Next(w, step).Some? && t in w.phase && Suspended(w.phase[t]) && w.s.current != Some(t)
    requires S.DispatchedBy(w, step) != Some(t)
    ensures var w1 := S.Next(w, step).value;
      t in w1.phase && w1.phase[t] == w.phase[t] && w1.s.current != Some(t)
  {
    NextKnows(w, step);
  }

  lemma StepSuspended(k: Kernel, step: Step, t: nat)
    requires Inv(k) && CanTake(k, step) && t in k.sched.phase
    requires Suspended(k.sched.phase[t]) && k.sched.s.current != Some(t)
    requires SwitchesTo(k, step) != Some(t)
    ensures var w1 := After(k, step).sched;
      t in w1.phase && w1.phase[t] == k.sched.phase[t] && w1.s.current != Some(t)
  {
    hide S.Inv, C.Inv, S.Next, S.DispatchedBy, C.CanTake, C.Room, C.Apart, S.Sound, CpuAfter;
    if step.Schedule? {
      StaysSuspended(k.sched, step.step, t);
    }
  }

  lemma {:induction false} RunSuspended(k: Kernel, steps: seq<Step>, t: nat)
    requires Inv(k) && CanRun(k, steps) && NeverDispatched(k, steps, t)
    requires t in k.sched.phase && Suspended(k.sched.phase[t]) && k.sched.s.current != Some(t)
    ensures var w1 := Run(k, steps).sched;
      t in w1.phase && w1.phase[t] == k.sched.phase[t] && w1.s.current != Some(t)
    decreases |steps|
  {
    if steps != [] {
      hide Inv, CanTake, After;
      StepKeeps(k, steps[0]);
      StepSuspended(k, steps[0], t);
      RunSuspended(After(k, steps[0]), steps[1..], t);
    }
  }

  lemma DispatchReturns(w: S.World, step: S.Step, t: nat)
    requires S.Inv(w) && S.Sound(w, step) && S.DispatchedBy(w, step) == Some(t)
    requires t in w.phase && Suspended(w.phase[t]) && w.s.current != Some(t)
    ensures w.phase[t].Blocked? && S.Returns(w, step) == Some((t, w.phase[t].reason))
  {
    match step
    case Block(times) =>
      S.AwaitKeeps(w, times);
      S.InQueue(S.AwaitAt(w, times), t);
    case Preempt(checked) =>
      if checked {
        S.WakeKeeps(w, w.now);
      }
      S.InQueue(if checked then S.WakeAt(w, w.now) else w, t);
    case _ =>
  }

  lemma LeaveSuspends(k: Kernel, leave: Step, t: nat)
    requires CanTake(k, leave) && k.sched.s.current == Some(t) && SwitchesTo(k, leave).Some?
    requires leave.Schedule? && leave.step.Block?
    ensures t in k.sched.phase && k.sched.phase[t].Leaving?
    ensures var w1, reason := After(k, leave).sched, k.sched.phase[t].reason;
      t in w1.phase && w1.phase[t] == (if reason.Exit? then S.Gone else S.Blocked(reason)) && w1.s.current != Some(t)
  {
    hide S.Next, S.DispatchedBy, C.Room, C.Apart, CpuAfter, S.Sound;
    LeftBlocked(k.sched, leave.step.times, t);
    NextKnows(k.sched, leave.step);
  }

  lemma BackReturns(k: Kernel, back: Step, t: nat)
    requires Inv(k) && CanTake(k, back) && SwitchesTo(k, back) == Some(t)
    requires t in k.sched.phase && Suspended(k.sched.phase[t]) && k.sched.s.current != Some(t)
    ensures k.sched.phase[t].Blocked?
    ensures var w := After(k, back).sched;
      t in w.phase && w.phase[t] == S.Running && S.Over(w, k.sched.phase[t].reason)
  {
    hide S.Inv, C.Inv, S.Next, S.DispatchedBy, C.Room, C.Apart, CpuAfter, S.Sound, S.Over, S.Returns;
    NextKnows(k.sched, back.step);
    DispatchReturns(k.sched, back.step, t);
    S.ReturnsOver(k.sched, back.step);
  }

  /** And if it left in `block`, it was not to exit, it returns, and what it was to wait for has
      happened: a `sleep` comes back with everything as it was, and not before its time. */
  lemma ComesBackWhenOver(k: Kernel, leave: Step, between: seq<Step>, back: Step, t: nat)
    requires Reachable(k) && AwayAndBack(k, leave, between, back, t) && leave.Schedule? && leave.step.Block?
    ensures t in k.sched.phase && k.sched.phase[t].Leaving? && !k.sched.phase[t].reason.Exit?
    ensures var w := Finally(k, leave, between, back).sched;
      t in w.phase && w.phase[t] == S.Running && S.Over(w, k.sched.phase[t].reason)
  {
    hide Reachable, Inv, CanTake, After, SwitchesTo, CanRun, Run, NeverDispatched, S.Over;
    ReachableInv(k);
    StepKeeps(k, leave);
    LeaveSuspends(k, leave, t);
    RunKeeps(After(k, leave), between);
    RunSuspended(After(k, leave), between, t);
    BackReturns(Run(After(k, leave), between), back, t);
  }

  /** A thread that has been created begins in `kickoff_kernel_thread` when it is first dispatched,
      with all registers zero. */
  lemma BeginsInKickoff(k: Kernel, create: Step, between: seq<Step>, first: Step, t: nat)
    requires Reachable(k) && CanTake(k, create) && create.Schedule? && create.step == S.NewThread(t)
    requires CanRun(After(k, create), between) && NeverDispatched(After(k, create), between, t)
    requires CanTake(Run(After(k, create), between), first)
    requires SwitchesTo(Run(After(k, create), between), first) == Some(t)
    ensures var m := Finally(k, create, between, first).cpu.machine;
      && m.rip == create.kickoff && Context.At(m.memory, m.rsp) == 0x00DEAD00
      && m.regs == Context.Registers(0, 0, 0, 0, 0, 0, 0, 0, 0, 0, 0, 0, 0, 0, 0, 0x202)
  {
    ReachableInv(k);
    CreateIsCreate(k, create, t);
    StepKeeps(k, create);
    var k1 := After(k, create);
    RunKeeps(k1, between);
    RunProjects(k1, between);
    NeverEntered(k1, between, t);
    var k2 := Run(k1, between);
    BackEnters(k2, first, t);
    var enter :| C.Enters(enter, t) && C.CanTake(k2.cpu, enter) && After(k2, first).cpu == C.After(k2.cpu, enter);
    assert C.Inv(k.cpu);
    hide *;
    C.FirstEntersKickoff(k.cpu, C.Create(t, create.home, create.kickoff), AllContextSteps(k1, between), enter);
    assert Finally(k, create, between, first) == After(k2, first) by { FinallyIs(k, create, between, first); }
  }

  lemma FinallyIs(k: Kernel, leave: Step, between: seq<Step>, back: Step)
    ensures Finally(k, leave, between, back) == After(Run(After(k, leave), between), back)
  {
  }

  lemma CreateIsCreate(k: Kernel, create: Step, t: nat)
    requires Inv(k) && CanTake(k, create) && create.Schedule? && create.step == S.NewThread(t)
    ensures var step := C.Create(t, create.home, create.kickoff);
      C.CanTake(k.cpu, step) && After(k, create).cpu == C.After(k.cpu, step)
  {
    SwitchIsPossible(k, create);
    hide S.Inv, C.Inv, S.Next, S.DispatchedBy, C.CanTake, C.After, C.Room, C.CanRun, C.Run, S.Sound, C.Apart;
    assert ContextSteps(k, create) == [C.Create(t, create.home, create.kickoff)];
    assert C.CanTake(k.cpu, ContextSteps(k, create)[0]);
    OneStep(k.cpu, ContextSteps(k, create));
  }
}
