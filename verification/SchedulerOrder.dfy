/** The order in which threads are dispatched: whoever joins the queue is dispatched after all that
are in it, and before all that join later (os/kernel/src/thread/scheduler.rs:61-210). */
module SchedulerOrder {
  import opened Ranges
  import opened Scheduler
  import opened SchedulerRuns

  /** The threads of the queue in the order of their turns: from back to front. */
  function InTurn(queue: seq<nat>): (r: seq<nat>)
    ensures |r| == |queue| && forall i :: 0 <= i < |queue| ==> r[i] == queue[|queue| - 1 - i]
  {
    seq(|queue|, i requires 0 <= i < |queue| => queue[|queue| - 1 - i])
  }

  /** Those that the wait loop of `block` wakes, in the order in which they join the queue. */
  function AwaitArrivals(w: World, times: seq<nat>): seq<nat>
    decreases |times|
  {
    if w.s.ready != [] || times == [] then []
    else Expired(w.s.sleeping, times[0]) + AwaitArrivals(WakeAt(w, times[0]), times[1..])
  }

  /** The threads that join the queue during a step, in this order. */
  function Arrivals(w: World, step: Step): seq<nat> {
    if Next(w, step).None? then []
    else
      match step
      case NewThread(thread) => [thread]
      case EnterExit => w.s.joins[w.s.current.value]
      case Block(times) => AwaitArrivals(w, times)
      case Preempt(checked) =>
        if !w.s.initialized then []
        else
          var woken := if checked then WakeAt(w, w.now) else w;
          (if checked then Expired(w.s.sleeping, w.now) else [])
            + (if woken.s.ready != [] then [w.s.current.value] else [])
      case _ => []
  }

  function AllArrivals(w: World, steps: seq<Step>): seq<nat>
    decreases |steps|
  {
    if steps == [] || Next(w, steps[0]).None? then []
    else Arrivals(w, steps[0]) + AllArrivals(Next(w, steps[0]).value, steps[1..])
  }

  // --- the law of the queue -------------------------------------------------------------------

  lemma TurnPush(thread: nat, queue: seq<nat>)
    ensures InTurn([thread] + queue) == InTurn(queue) + [thread]
  {
  }

  /** Threads pushed to the front one after the other take their turns in this order, after all others. */
  lemma {:induction false} TurnPushAll(threads: seq<nat>, queue: seq<nat>)
    ensures InTurn(PushAll(threads, queue)) == InTurn(queue) + threads
  {
    if threads != [] {
      TurnPushAll(threads[1..], [threads[0]] + queue);
      TurnPush(threads[0], queue);
      assert InTurn(queue) + [threads[0]] + threads[1..] == InTurn(queue) + threads;
    } else {
      assert InTurn(queue) + [] == InTurn(queue);
    }
  }

  lemma TurnPop(queue: seq<nat>)
    requires queue != []
    ensures InTurn(queue) == [Back(queue)] + InTurn(PopBack(queue))
  {
  }

  function Dispatched(w: World, step: Step): seq<nat> {
    if DispatchedBy(w, step).Some? then [DispatchedBy(w, step).value] else []
  }

  lemma {:induction false} AwaitLaw(w: World, times: seq<nat>)
    ensures InTurn(AwaitAt(w, times).s.ready) == InTurn(w.s.ready) + AwaitArrivals(w, times)
    decreases |times|
  {
    if w.s.ready == [] && times != [] {
      hide PushAll, Expired, Asleep;
      TurnPushAll(Expired(w.s.sleeping, times[0]), w.s.ready);
      AwaitLaw(WakeAt(w, times[0]), times[1..]);
      Regroup(InTurn(w.s.ready), Expired(w.s.sleeping, times[0]), AwaitArrivals(WakeAt(w, times[0]), times[1..]));
    } else {
      assert InTurn(w.s.ready) + [] == InTurn(w.s.ready);
    }
  }

  lemma Regroup<T>(a: seq<T>, b: seq<T>, c: seq<T>)
    ensures a + b + c == a + (b + c)
  {
  }

  lemma PreemptLaw(w: World, checked: bool)
    requires Next(w, Preempt(checked)).Some? && w.s.initialized
    ensures Dispatched(w, Preempt(checked)) + InTurn(Next(w, Preempt(checked)).value.s.ready)
      == InTurn(w.s.ready) + Arrivals(w, Preempt(checked))
  {
    hide PushAll, Expired, Asleep;
    var woken := if checked then WakeAt(w, w.now) else w;
    var arrived := if checked then Expired(w.s.sleeping, w.now) else [];
    if checked {
      TurnPushAll(arrived, w.s.ready);
    }
    assert InTurn(woken.s.ready) == InTurn(w.s.ready) + arrived;
    if woken.s.ready != [] {
      TurnPop(woken.s.ready);
      TurnPush(w.s.current.value, PopBack(woken.s.ready));
      Regroup([Back(woken.s.ready)], InTurn(PopBack(woken.s.ready)), [w.s.current.value]);
      Regroup(InTurn(w.s.ready), arrived, [w.s.current.value]);
    } else {
      assert arrived + [] == arrived;
    }
  }

  lemma BlockLaw(w: World, times: seq<nat>)
    requires Next(w, Block(times)).Some?
    ensures Dispatched(w, Block(times)) + InTurn(Next(w, Block(times)).value.s.ready)
      == InTurn(w.s.ready) + Arrivals(w, Block(times))
  {
    AwaitLaw(w, times);
    TurnPop(AwaitAt(w, times).s.ready);
  }

  /** One step: the thread dispatched and then those in the queue are those that were in the queue
      and then those that have joined it. */
  lemma StepLaw(w: World, step: Step)
    requires Next(w, step).Some?
    ensures Dispatched(w, step) + InTurn(Next(w, step).value.s.ready) == InTurn(w.s.ready) + Arrivals(w, step)
  {
    match step
    case Preempt(checked) =>
      if w.s.initialized {
        PreemptLaw(w, checked);
      }
    case Block(times) => BlockLaw(w, times);
    case Start => TurnPop(w.s.ready);
    case NewThread(thread) => TurnPush(thread, w.s.ready);
    case EnterExit => TurnPushAll(w.s.joins[w.s.current.value], w.s.ready);
    case _ =>
  }

  /** First in, first out, for all threads of a run: those dispatched, and then those still in the
      queue, are those in the queue at its beginning and then all that join it, in this order. */
  lemma {:induction false} QueueLaw(w: World, steps: seq<Step>)
    requires Run(w, steps).Some?
    ensures Dispatches(w, steps) + InTurn(Run(w, steps).value.s.ready) == InTurn(w.s.ready) + AllArrivals(w, steps)
    decreases |steps|
  {
    if steps != [] {
      var w1 := Next(w, steps[0]).value;
      StepLaw(w, steps[0]);
      QueueLaw(w1, steps[1..]);
      hide Next, DispatchedBy, InTurn, Arrivals;
      JoinLaw(Dispatched(w, steps[0]), Dispatches(w1, steps[1..]), InTurn(Run(w, steps).value.s.ready),
              InTurn(w1.s.ready), InTurn(w.s.ready), Arrivals(w, steps[0]), AllArrivals(w1, steps[1..]));
      assert Dispatches(w, steps) == Dispatched(w, steps[0]) + Dispatches(w1, steps[1..]);
    } else {
      assert InTurn(w.s.ready) + [] == InTurn(w.s.ready);
    }
  }

  lemma JoinLaw(d: seq<nat>, ds: seq<nat>, last: seq<nat>, middle: seq<nat>, first: seq<nat>, a: seq<nat>, b: seq<nat>)
    requires d + middle == first + a && ds + last == middle + b
    ensures d + ds + last == first + (a + b)
  {
    assert d + ds + last == d + (ds + last) == d + middle + b == first + (a + b);
  }

  // --- who joined a thread, and who went to sleep ---------------------------------------------

  function Joiner(w: World, step: Step, k: nat): seq<nat> {
    if step == EnterJoin(k) && w.s.current.Some? then [w.s.current.value] else []
  }

  /** The threads that join thread `k` during a run, in the order in which they do. */
  function JoinLog(w: World, steps: seq<Step>, k: nat): seq<nat>
    decreases |steps|
  {
    if steps == [] || Next(w, steps[0]).None? then []
    else Joiner(w, steps[0], k) + JoinLog(Next(w, steps[0]).value, steps[1..], k)
  }

  function JoinedSoFar(s: State, k: nat): seq<nat> {
    if k in s.joins then s.joins[k] else []
  }

  /** Thread `k` has been created and has exited again. */
  predicate HasExited(w: World, k: nat) {
    k in w.phase && k !in w.s.joins
  }

  lemma StepJoins(w: World, step: Step, k: nat)
    requires Inv(w) && Next(w, step).Some?
    ensures var w1 := Next(w, step).value;
      && (HasExited(w, k) ==> HasExited(w1, k))
      && (HasExited(w1, k) || JoinedSoFar(w1.s, k) == JoinedSoFar(w.s, k) + Joiner(w, step, k))
  {
    hide TokensBalance, WaitsMatch, CurrentMatches, PushAll, Expired, Asleep, Places, Arrive;
    assert ListsMatch(w);
    NextKeeps(w, step);
    assert k in w.s.joins ==> k in Live(w.phase);
    assert JoinedSoFar(w.s, k) + [] == JoinedSoFar(w.s, k);
  }

  /** Waking and dispatching change no join list, and no thread is forgotten. */
  lemma NextKeeps(w: World, step: Step)
    requires Next(w, step).Some?
    ensures forall t :: t in w.phase ==> t in Next(w, step).value.phase
    ensures step.Block? ==> AwaitAt(w, step.times).s.joins == w.s.joins
  {
    if step.Block? {
      AwaitKeepsJoins(w, step.times);
    }
  }

  lemma {:induction false} AwaitKeepsJoins(w: World, times: seq<nat>)
    ensures AwaitAt(w, times).s.joins == w.s.joins
    decreases |times|
  {
    if w.s.ready == [] && times != [] {
      AwaitKeepsJoins(WakeAt(w, times[0]), times[1..]);
    }
  }

  lemma {:induction false} RunJoins(w: World, steps: seq<Step>, k: nat)
    requires Inv(w) && SoundRun(w, steps) && Run(w, steps).Some?
    ensures var w1 := Run(w, steps).value;
      && (HasExited(w, k) ==> HasExited(w1, k))
      && (HasExited(w1, k) || JoinedSoFar(w1.s, k) == JoinedSoFar(w.s, k) + JoinLog(w, steps, k))
    decreases |steps|
  {
    hide Inv, Next, Sound;
    if steps != [] {
      var next := Next(w, steps[0]).value;
      StepJoins(w, steps[0], k);
      StepKeeps(w, steps[0]);
      RunJoins(next, steps[1..], k);
      Regroup(JoinedSoFar(w.s, k), Joiner(w, steps[0], k), JoinLog(next, steps[1..], k));
    } else {
      assert JoinedSoFar(w.s, k) + [] == JoinedSoFar(w.s, k);
    }
  }

  /** In every run from boot, the list of those who wait for a thread holds them in the order in which
      they have called `join`. */
  lemma JoinListInOrder(steps: seq<Step>, k: nat)
    requires SoundRun(Boot, steps) && Run(Boot, steps).Some? && k in Run(Boot, steps).value.s.joins
    ensures Run(Boot, steps).value.s.joins[k] == JoinLog(Boot, steps, k)
  {
    BootHolds();
    hide Inv, SoundRun, Run;
    RunJoins(Boot, steps, k);
    assert [] + JoinLog(Boot, steps, k) == JoinLog(Boot, steps, k);
  }

  /** All calls of `sleep` during a run, in order. */
  function SleepLog(w: World, steps: seq<Step>): seq<Sleeper>
    decreases |steps|
  {
    if steps == [] || Next(w, steps[0]).None? then []
    else
      (if steps[0].EnterSleep? then [Sleeper(w.s.current.value, steps[0].wakeup)] else [])
        + SleepLog(Next(w, steps[0]).value, steps[1..])
  }

  /** `part` is what is left of `whole` when some elements are left out. */
  predicate Thinned<T(==)>(part: seq<T>, whole: seq<T>) {
    if whole == [] then part == []
    else (part != [] && part[0] == whole[0] && Thinned(part[1..], whole[1..])) || Thinned(part, whole[1..])
  }

  lemma {:induction false} ThinnedSame<T>(a: seq<T>)
    ensures Thinned(a, a)
  {
    if a != [] {
      ThinnedSame(a[1..]);
    }
  }

  lemma {:induction false} ThinnedTrans<T>(a: seq<T>, b: seq<T>, c: seq<T>)
    requires Thinned(a, b) && Thinned(b, c)
    ensures Thinned(a, c)
  {
    if c != [] {
      if b != [] && b[0] == c[0] && Thinned(b[1..], c[1..]) {
        if a != [] && a[0] == b[0] && Thinned(a[1..], b[1..]) {
          ThinnedTrans(a[1..], b[1..], c[1..]);
        } else {
          ThinnedTrans(a, b[1..], c[1..]);
        }
      } else {
        ThinnedTrans(a, b, c[1..]);
      }
    }
  }

  lemma {:induction false} ThinnedJoin<T>(a: seq<T>, b: seq<T>, rest: seq<T>)
    requires Thinned(a, b)
    ensures Thinned(a + rest, b + rest)
  {
    if b == [] {
      assert a + rest == rest && b + rest == rest;
      ThinnedSame(rest);
    } else {
      assert (b + rest)[1..] == b[1..] + rest && (b + rest)[0] == b[0];
      if a != [] && a[0] == b[0] && Thinned(a[1..], b[1..]) {
        assert (a + rest)[1..] == a[1..] + rest;
        ThinnedJoin(a[1..], b[1..], rest);
      } else {
        ThinnedJoin(a, b[1..], rest);
      }
    }
  }

  lemma {:induction false} AsleepThinned(sleeping: seq<Sleeper>, time: nat)
    ensures Thinned(Asleep(sleeping, time), sleeping)
  {
    if sleeping != [] {
      AsleepThinned(sleeping[1..], time);
      var head := [sleeping[0]];
      assert (head + Asleep(sleeping[1..], time))[1..] == Asleep(sleeping[1..], time);
      assert [] + Asleep(sleeping[1..], time) == Asleep(sleeping[1..], time);
    }
  }

  lemma {:induction false} AwaitThinned(w: World, times: seq<nat>)
    ensures Thinned(AwaitAt(w, times).s.sleeping, w.s.sleeping)
    decreases |times|
  {
    if w.s.ready == [] && times != [] {
      AsleepThinned(w.s.sleeping, times[0]);
      AwaitThinned(WakeAt(w, times[0]), times[1..]);
      ThinnedTrans(AwaitAt(w, times).s.sleeping, Asleep(w.s.sleeping, times[0]), w.s.sleeping);
    } else {
      ThinnedSame(w.s.sleeping);
    }
  }

  lemma StepSleeps(w: World, step: Step)
    requires Next(w, step).Some?
    ensures Thinned(Next(w, step).value.s.sleeping,
                    w.s.sleeping + (if step.EnterSleep? then [Sleeper(w.s.current.value, step.wakeup)] else []))
  {
    assert w.s.sleeping + [] == w.s.sleeping;
    ThinnedSame(w.s.sleeping);
    match step
    case Block(times) => AwaitThinned(w, times);
    case Preempt(checked) => AsleepThinned(w.s.sleeping, w.now);
    case EnterSleep(wakeup) => ThinnedSame(w.s.sleeping + [Sleeper(w.s.current.value, wakeup)]);
    case _ =>
  }

  lemma {:induction false} RunSleeps(w: World, steps: seq<Step>)
    requires Run(w, steps).Some?
    ensures Thinned(Run(w, steps).value.s.sleeping, w.s.sleeping + SleepLog(w, steps))
    decreases |steps|
  {
    if steps != [] {
      var next := Next(w, steps[0]).value;
      var called := if steps[0].EnterSleep? then [Sleeper(w.s.current.value, steps[0].wakeup)] else [];
      StepSleeps(w, steps[0]);
      RunSleeps(next, steps[1..]);
      hide Next, Thinned;
      var rest := SleepLog(next, steps[1..]);
      ThinnedJoin(next.s.sleeping, w.s.sleeping + called, rest);
      ThinnedTrans(Run(w, steps).value.s.sleeping, next.s.sleeping + rest, w.s.sleeping + called + rest);
      Regroup(w.s.sleeping, called, rest);
    } else {
      assert w.s.sleeping + [] == w.s.sleeping;
      ThinnedSame(w.s.sleeping);
    }
  }

  /** In every run from boot, the sleep list holds those who sleep in the order in which they have
      called `sleep`. */
  lemma SleepListInOrder(steps: seq<Step>)
    requires Run(Boot, steps).Some?
    ensures Thinned(Run(Boot, steps).value.s.sleeping, SleepLog(Boot, steps))
  {
    hide Run, Thinned;
    RunSleeps(Boot, steps);
    assert [] + SleepLog(Boot, steps) == SleepLog(Boot, steps);
  }

  lemma {:induction false} ExpiredInOrder(a: seq<Sleeper>, e: Sleeper, time: nat)
    ensures Expired(a + [e], time) == Expired(a, time) + (if e.wakeup <= time then [e.thread] else [])
  {
    if a == [] {
      assert [e][1..] == [] && a + [e] == [e];
    } else {
      var first := if time >= a[0].wakeup then [a[0].thread] else [];
      assert (a + [e])[1..] == a[1..] + [e];
      ExpiredInOrder(a[1..], e, time);
      Regroup(first, Expired(a[1..], time), if e.wakeup <= time then [e.thread] else []);
    }
  }

  lemma {:induction false} AsleepInOrder(a: seq<Sleeper>, e: Sleeper, time: nat)
    ensures Asleep(a + [e], time) == Asleep(a, time) + (if e.wakeup <= time then [] else [e])
  {
    if a == [] {
      assert [e][1..] == [] && a + [e] == [e];
    } else {
      var first := if time >= a[0].wakeup then [] else [a[0]];
      assert (a + [e])[1..] == a[1..] + [e];
      AsleepInOrder(a[1..], e, time);
      Regroup(first, Asleep(a[1..], time), if e.wakeup <= time then [] else [e]);
    }
  }

  /** A check of the sleep list goes through it from its beginning to its end: an entry behind all
      others wakes behind all others, or stays behind all others. */
  lemma CheckedInOrder(a: seq<Sleeper>, e: Sleeper, time: nat)
    ensures Expired([], time) == [] && Asleep([], time) == []
    ensures Expired(a + [e], time) == Expired(a, time) + (if e.wakeup <= time then [e.thread] else [])
    ensures Asleep(a + [e], time) == Asleep(a, time) + (if e.wakeup <= time then [] else [e])
  {
    ExpiredInOrder(a, e, time);
    AsleepInOrder(a, e, time);
  }

  // --- who is dispatched after an exit and after a check ----------------------------------------

  /** The first threads dispatched in a run are `order`, as far as it gets. */
  ghost predicate DispatchesFirst(w: World, steps: seq<Step>, order: seq<nat>) {
    forall d :: 0 <= d < |Dispatches(w, steps)| && d < |order| ==> Dispatches(w, steps)[d] == order[d]
  }

  lemma QueueFirst(w: World, steps: seq<Step>)
    requires Run(w, steps).Some?
    ensures DispatchesFirst(w, steps, InTurn(w.s.ready))
  {
    QueueLaw(w, steps);
    var d, q := Dispatches(w, steps), InTurn(w.s.ready);
    forall i | 0 <= i < |d| && i < |q|
      ensures d[i] == q[i]
    {
      assert (d + InTurn(Run(w, steps).value.s.ready))[i] == (q + AllArrivals(w, steps))[i];
    }
  }

  /** After a thread has exited: first all that were in the queue, from back to front, and then those
      who joined the thread, in the order in which they did. */
  lemma JoinersComeInOrder(before: seq<Step>, steps: seq<Step>)
    requires SoundRun(Boot, before) && Run(Boot, before).Some?
    requires Next(Run(Boot, before).value, EnterExit).Some?
    requires Run(Next(Run(Boot, before).value, EnterExit).value, steps).Some?
    ensures var w := Run(Boot, before).value;
      && w.s.current.Some?
      && DispatchesFirst(Next(w, EnterExit).value, steps, InTurn(w.s.ready) + JoinLog(Boot, before, w.s.current.value))
  {
    var w := Run(Boot, before).value;
    JoinListInOrder(before, w.s.current.value);
    StepLaw(w, EnterExit);
    QueueFirst(Next(w, EnterExit).value, steps);
    assert [] + InTurn(Next(w, EnterExit).value.s.ready) == InTurn(Next(w, EnterExit).value.s.ready);
  }

  /** After a check of the sleep list: first all that were in the queue, and then those whose time has
      come, in the order of the list. */
  lemma SleepersComeInOrder(w: World, time: nat, steps: seq<Step>)
    requires Run(WakeAt(w, time), steps).Some?
    ensures DispatchesFirst(WakeAt(w, time), steps, InTurn(w.s.ready) + Expired(w.s.sleeping, time))
  {
    QueueFirst(WakeAt(w, time), steps);
    TurnPushAll(Expired(w.s.sleeping, time), w.s.ready);
  }

  /** The scheduler stays initialised. */
  lemma StaysInitialised(w: World, step: Step)
    requires Next(w, step).Some?
    ensures Next(w, step).value.s.initialized <==> w.s.initialized || step.SetInit?
  {
    hide PushAll, Expired, Asleep;
    if step.Block? {
      AwaitInitialised(w, step.times);
    }
  }

  lemma {:induction false} AwaitInitialised(w: World, times: seq<nat>)
    ensures AwaitAt(w, times).s.initialized == w.s.initialized
    decreases |times|
  {
    if w.s.ready == [] && times != [] {
      AwaitInitialised(WakeAt(w, times[0]), times[1..]);
    }
  }
}
