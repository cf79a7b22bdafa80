/** Runs of the scheduler under arbitrary preemption: threads are followed through the steps in
which they wait, and every place that holds a thread is counted
(os/kernel/src/thread/scheduler.rs:61-210). */
module SchedulerRuns {
  import opened Ranges
  import opened Scheduler

  // --- the world ----------------------------------------------------------------------------

  datatype Reason = Sleep(wakeup: nat) | Join(target: nat) | Exit

  /** Where a thread stands in its program: executing (or preempted while executing), on its way
      into `block` after it has enqueued itself or marked itself as exited, inside of `block`,
      or gone for good. */
  datatype Phase = Running | Leaving(reason: Reason) | Blocked(reason: Reason) | Gone

  datatype World = World(s: State, now: nat, phase: map<nat, Phase>)

  datatype Step =
    | SetInit
    | Start
    | NewThread(thread: nat)
    | EnterSleep(wakeup: nat)
    | EnterJoin(target: nat)
    | EnterExit
    | Block(times: seq<nat>)
    | Preempt(checked: bool)
    | Tick(delta: nat)

  const Boot := World(Empty, 0, map[])

  predicate CurrentIs(w: World, phase: Phase) {
    w.s.current.Some? && w.s.current.value in w.phase && w.phase[w.s.current.value] == phase
  }

  function WithPhase(w: World, thread: nat, phase: Phase): World {
    w.(phase := w.phase[thread := phase])
  }

  /** The phase of a thread that has been dispatched: if it was inside of `block`, it returns. */
  function Arrive(phase: map<nat, Phase>, thread: nat): map<nat, Phase> {
    if thread in phase && phase[thread].Blocked? then phase[thread := Running] else phase
  }

  /** The phase of a thread that goes through `block` while `next` is dispatched. */
  function Depart(reason: Reason, thread: nat, next: nat): Phase {
    if next == thread then Running else if reason.Exit? then Gone else Blocked(reason)
  }

  function WakeAt(w: World, time: nat): World {
    w.(s := Wake(w.s, time), now := if time < w.now then w.now else time)
  }

  /** `block` once the queue holds a thread. */
  function BlockNow(w: World): World
    requires w.s.ready != [] && w.s.current.Some? && w.s.current.value in w.phase
    requires w.phase[w.s.current.value].Leaving?
  {
    var c, next := w.s.current.value, Back(w.s.ready);
    World(Dispatch(w.s), w.now, Arrive(w.phase[c := Depart(w.phase[c].reason, c, next)], next))
  }

  /** `switch_thread` once the sleep list has been looked at. */
  function RotateNow(w: World): World
    requires w.s.ready != [] && w.s.current.Some?
  {
    World(Rotate(w.s), w.now, Arrive(w.phase, Back(w.s.ready)))
  }

  function AwaitAt(w: World, times: seq<nat>): (r: World)
    ensures r.phase == w.phase && r.s.current == w.s.current && r.now >= w.now
    decreases |times|
  {
    if w.s.ready != [] || times == [] then w else AwaitAt(WakeAt(w, times[0]), times[1..])
  }

  /** One step, or `None` if the step cannot be taken: the current thread is not where the step
      begins, the kernel stops, or `block` goes on waiting. */
  function Next(w: World, step: Step): Option<World> {
    match step
    case SetInit => Some(w.(s := w.s.(initialized := true)))
    case Start =>
      if w.s.current.Some? || w.s.ready == [] then None
      else Some(World(Dispatch(w.s), w.now, Arrive(w.phase, Back(w.s.ready))))
    case NewThread(thread) =>
      if thread in w.phase || (w.s.current.Some? && !CurrentIs(w, Running)) then None
      else Some(WithPhase(w.(s := WithReady(w.s, thread)), thread, Running))
    case EnterSleep(wakeup) =>
      if !CurrentIs(w, Running) then None
      else Some(WithPhase(w.(s := WithSleeper(w.s, wakeup)), w.s.current.value, Leaving(Sleep(wakeup))))
    case EnterJoin(target) =>
      if !CurrentIs(w, Running) || target !in w.s.joins then None
      else Some(WithPhase(w.(s := WithJoiner(w.s, target)), w.s.current.value, Leaving(Join(target))))
    case EnterExit =>
      if !CurrentIs(w, Running) || w.s.current.value !in w.s.joins then None
      else Some(WithPhase(w.(s := WithoutExited(w.s)), w.s.current.value, Leaving(Exit)))
    case Block(times) =>
      if w.s.current.None? || w.s.current.value !in w.phase || !w.phase[w.s.current.value].Leaving? then None
      else if AwaitAt(w, times).s.ready == [] then None
      else Some(BlockNow(AwaitAt(w, times)))
    case Preempt(checked) =>
      var woken := if checked then WakeAt(w, w.now) else w;
      if !w.s.initialized then Some(w)
      else if w.s.current.None? then None
      else if woken.s.ready == [] then Some(woken)
      else Some(RotateNow(woken))
    case Tick(delta) => Some(w.(now := w.now + delta))
  }

  function Run(w: World, steps: seq<Step>): Option<World>
    decreases |steps|
  {
    if steps == [] then Some(w)
    else
      var next := Next(w, steps[0]);
      if next.None? then None else Run(next.value, steps[1..])
  }

  // --- the steps are those of the scheduler -------------------------------------------------

  lemma {:induction false} AwaitAtIsAwait(w: World, times: seq<nat>)
    ensures AwaitAt(w, times).s == Await(w.s, times)
    decreases |times|
  {
    if w.s.ready == [] && times != [] {
      AwaitAtIsAwait(WakeAt(w, times[0]), times[1..]);
    }
  }

  // --- counting the places that hold a thread -----------------------------------------------

  function SleepThreads(sleeping: seq<Sleeper>): seq<nat> {
    if sleeping == [] then [] else [sleeping[0].thread] + SleepThreads(sleeping[1..])
  }

  /** All threads in join lists, with multiplicity. */
  ghost function JoinTokens(joins: map<nat, seq<nat>>): multiset<nat> {
    if joins == map[] then multiset{}
    else
      var k :| k in joins;
      multiset(joins[k]) + JoinTokens(joins - {k})
  }

  /** The places that hold thread `t`: the current thread, the ready queue, the sleep list and
      the join lists. */
  ghost function Places(s: State, t: nat): nat {
    (if s.current == Some(t) then 1 else 0)
      + multiset(s.ready)[t] + multiset(SleepThreads(s.sleeping))[t] + JoinTokens(s.joins)[t]
  }

  lemma {:induction false} JoinTokensAt(joins: map<nat, seq<nat>>, k: nat)
    requires k in joins
    ensures JoinTokens(joins) == multiset(joins[k]) + JoinTokens(joins - {k})
  {
    var j :| j in joins && JoinTokens(joins) == multiset(joins[j]) + JoinTokens(joins - {j});
    if j != k {
      JoinTokensAt(joins - {j}, k);
      JoinTokensAt(joins - {k}, j);
      assert joins - {j} - {k} == joins - {k} - {j};
    }
  }

  lemma JoinTokensSet(joins: map<nat, seq<nat>>, k: nat, list: seq<nat>)
    ensures JoinTokens(joins[k := list]) == multiset(list) + JoinTokens(joins - {k})
  {
    JoinTokensAt(joins[k := list], k);
    assert joins[k := list] - {k} == joins - {k};
  }

  lemma JoinTokensMember(joins: map<nat, seq<nat>>, k: nat, t: nat)
    requires k in joins && t in joins[k]
    ensures JoinTokens(joins)[t] > 0
  {
    JoinTokensAt(joins, k);
  }

  lemma {:induction false} SleepThreadsAppend(sleeping: seq<Sleeper>, e: Sleeper)
    ensures SleepThreads(sleeping + [e]) == SleepThreads(sleeping) + [e.thread]
  {
    if sleeping == [] {
      assert [e][1..] == [];
    } else {
      assert (sleeping + [e])[1..] == sleeping[1..] + [e];
      SleepThreadsAppend(sleeping[1..], e);
    }
  }

  lemma {:induction false} SleepThreadsMember(sleeping: seq<Sleeper>, e: Sleeper)
    requires e in sleeping
    ensures e.thread in SleepThreads(sleeping)
  {
    if e != sleeping[0] {
      SleepThreadsMember(sleeping[1..], e);
    }
  }

  lemma {:induction false} PushAllTokens(threads: seq<nat>, queue: seq<nat>)
    ensures multiset(PushAll(threads, queue)) == multiset(threads) + multiset(queue)
  {
    if threads != [] {
      PushAllTokens(threads[1..], [threads[0]] + queue);
      assert threads == [threads[0]] + threads[1..];
    }
  }

  lemma {:induction false} WakeSplits(sleeping: seq<Sleeper>, time: nat)
    ensures multiset(Expired(sleeping, time)) + multiset(SleepThreads(Asleep(sleeping, time)))
      == multiset(SleepThreads(sleeping))
  {
    if sleeping != [] {
      var head, rest := sleeping[0], sleeping[1..];
      WakeSplits(rest, time);
      assert multiset(SleepThreads(sleeping)) == multiset{head.thread} + multiset(SleepThreads(rest));
      if time >= head.wakeup {
        assert Expired(sleeping, time) == [head.thread] + Expired(rest, time);
        assert Asleep(sleeping, time) == Asleep(rest, time);
      } else {
        assert Expired(sleeping, time) == Expired(rest, time);
        assert Asleep(sleeping, time) == [head] + Asleep(rest, time);
        assert SleepThreads([head] + Asleep(rest, time)) == [head.thread] + SleepThreads(Asleep(rest, time));
      }
    }
  }

  lemma {:induction false} AsleepMembers(sleeping: seq<Sleeper>, time: nat, e: Sleeper)
    ensures e in Asleep(sleeping, time) <==> e in sleeping && time < e.wakeup
  {
    if sleeping != [] {
      AsleepMembers(sleeping[1..], time, e);
      assert sleeping == [sleeping[0]] + sleeping[1..];
    }
  }

  lemma WakeTokens(s: State, time: nat)
    ensures forall t :: Places(Wake(s, time), t) == Places(s, t)
  {
    PushAllTokens(Expired(s.sleeping, time), s.ready);
    WakeSplits(s.sleeping, time);
    forall t
      ensures Places(Wake(s, time), t) == Places(s, t)
    {
      assert (multiset(Expired(s.sleeping, time)) + multiset(SleepThreads(Asleep(s.sleeping, time))))[t]
        == multiset(SleepThreads(s.sleeping))[t];
    }
  }

  lemma BackTokens(queue: seq<nat>)
    requires queue != []
    ensures multiset(queue) == multiset(PopBack(queue)) + multiset{Back(queue)}
  {
    assert queue == PopBack(queue) + [Back(queue)];
  }

  // --- the invariant ------------------------------------------------------------------------

  predicate IsLive(phase: Phase) {
    phase != Gone && phase != Leaving(Exit)
  }

  /** The threads that have not exited. */
  function Live(phase: map<nat, Phase>): set<nat> {
    set t | t in phase && IsLive(phase[t])
  }

  /** Thread `t` waits for `reason`, on its way into `block` or inside of it. */
  predicate Waits(phase: map<nat, Phase>, t: nat, reason: Reason) {
    t in phase && (phase[t] == Leaving(reason) || phase[t] == Blocked(reason))
  }

  /** One place for a thread that has not exited, and one more on its way into `block`. */
  function Due(phase: map<nat, Phase>, t: nat): nat {
    (if t in phase && IsLive(phase[t]) then 1 else 0) + (if t in phase && phase[t].Leaving? then 1 else 0)
  }

  /** Token conservation: every thread is held in as many places as are due to it. */
  ghost predicate TokensBalance(w: World) {
    forall t: nat :: Places(w.s, t) == Due(w.phase, t)
  }

  ghost predicate ListsMatch(w: World) {
    && (forall e :: e in w.s.sleeping ==> Waits(w.phase, e.thread, Sleep(e.wakeup)))
    && (forall k, t :: k in w.s.joins && t in w.s.joins[k] ==> Waits(w.phase, t, Join(k)))
    && w.s.joins.Keys == Live(w.phase)
  }

  /** Whoever waits is in the list for it, or what it waits for has happened. */
  ghost predicate WaitsMatch(w: World) {
    && (forall t, wakeup: nat :: Waits(w.phase, t, Sleep(wakeup)) ==>
          Sleeper(t, wakeup) in w.s.sleeping || wakeup <= w.now)
    && (forall t, k: nat :: Waits(w.phase, t, Join(k)) ==> k in w.phase && (k in w.s.joins ==> t in w.s.joins[k]))
    && (forall t :: t in w.phase ==> w.phase[t] != Blocked(Exit))
  }

  /** The current thread is not inside of `block`, and before there is one, no thread waits. */
  ghost predicate CurrentMatches(w: World) {
    match w.s.current
    case Some(c) => c in w.phase && (w.phase[c].Running? || w.phase[c].Leaving?)
    case None => forall t :: t in w.phase ==> w.phase[t] == Running
  }

  ghost predicate Inv(w: World) {
    TokensBalance(w) && ListsMatch(w) && WaitsMatch(w) && CurrentMatches(w)
  }

  /** What a thread waits for has happened. */
  predicate Over(w: World, reason: Reason) {
    match reason
    case Sleep(wakeup) => wakeup <= w.now
    case Join(target) => target in w.phase && !IsLive(w.phase[target])
    case Exit => false
  }

  // --- each step keeps the invariant --------------------------------------------------------

  lemma WakeKeeps(w: World, time: nat)
    requires Inv(w) && time >= w.now
    ensures Inv(WakeAt(w, time))
  {
    var w1 := WakeAt(w, time);
    WakeTokens(w.s, time);
    forall e
      ensures e in w1.s.sleeping <==> e in w.s.sleeping && time < e.wakeup
    {
      AsleepMembers(w.s.sleeping, time, e);
    }
  }

  /** What the counts say about a thread in the ready queue: it has not gone, and if it is inside
      of `block`, what it waits for has happened. If it is the current thread as well, it is on
      its way into `block`, and what it waits for has happened too. */
  lemma InQueue(w: World, t: nat)
    requires Inv(w) && t in w.s.ready
    ensures t in w.phase && w.phase[t] != Gone
    ensures w.phase[t].Blocked? ==> Over(w, w.phase[t].reason)
    ensures w.s.current == Some(t) ==> w.phase[t].Leaving? && Over(w, w.phase[t].reason)
  {
    assert Places(w.s, t) == Due(w.phase, t) && multiset(w.s.ready)[t] > 0;
    var phase := w.phase[t];
    if phase.Blocked? || (w.s.current == Some(t) && phase.Leaving?) {
      match phase.reason {
        case Sleep(wakeup) =>
          assert Waits(w.phase, t, Sleep(wakeup));
          if Sleeper(t, wakeup) in w.s.sleeping {
            SleepThreadsMember(w.s.sleeping, Sleeper(t, wakeup));
          }
        case Join(k) =>
          assert Waits(w.phase, t, Join(k));
          if k in w.s.joins {
            JoinTokensMember(w.s.joins, k, t);
          }
        case Exit =>
      }
    }
  }

  ghost predicate InNoList(s: State, t: nat) {
    && (forall e :: e in s.sleeping ==> e.thread != t)
    && (forall k :: k in s.joins ==> t !in s.joins[k])
  }

  /** A thread all of whose tokens are in the ready queue or with the current thread is in no
      other list. */
  lemma InNoListByCount(s: State, t: nat)
    requires Places(s, t) <= (if s.current == Some(t) then 1 else 0) + multiset(s.ready)[t]
    ensures InNoList(s, t)
  {
    forall e | e in s.sleeping
      ensures e.thread != t
    {
      SleepThreadsMember(s.sleeping, e);
      assert multiset(SleepThreads(s.sleeping))[e.thread] > 0;
    }
    forall k | k in s.joins
      ensures t !in s.joins[k]
    {
      if t in s.joins[k] {
        JoinTokensMember(s.joins, k, t);
      }
    }
  }

  /** A thread that is in no list stops waiting. */
  lemma StopsWaiting(w: World, w1: World, t: nat, phase: Phase)
    requires ListsMatch(w) && WaitsMatch(w) && t in w.phase && InNoList(w.s, t)
    requires w1.s.sleeping == w.s.sleeping && w1.s.joins == w.s.joins && w1.now == w.now
    requires w1.phase == w.phase[t := phase] && (phase == Running || phase == Gone)
    requires IsLive(phase) == IsLive(w.phase[t])
    ensures ListsMatch(w1) && WaitsMatch(w1)
  {
    assert Live(w1.phase) == Live(w.phase);
    forall r, wakeup: nat | Waits(w1.phase, r, Sleep(wakeup))
      ensures Sleeper(r, wakeup) in w1.s.sleeping || wakeup <= w1.now
    {
      assert Waits(w.phase, r, Sleep(wakeup));
    }
    forall r, k: nat | Waits(w1.phase, r, Join(k))
      ensures k in w1.phase && (k in w1.s.joins ==> r in w1.s.joins[k])
    {
      assert Waits(w.phase, r, Join(k));
    }
  }

  /** A thread on its way into `block` goes on waiting inside of it. */
  lemma GoesOnWaiting(w: World, w1: World, t: nat, reason: Reason)
    requires ListsMatch(w) && WaitsMatch(w) && t in w.phase && w.phase[t] == Leaving(reason) && !reason.Exit?
    requires w1.s.sleeping == w.s.sleeping && w1.s.joins == w.s.joins && w1.now == w.now
    requires w1.phase == w.phase[t := Blocked(reason)]
    ensures ListsMatch(w1) && WaitsMatch(w1)
  {
    assert Live(w1.phase) == Live(w.phase);
    forall r, x ensures Waits(w1.phase, r, x) == Waits(w.phase, r, x) {}
  }

  /** A dispatched thread that was inside of `block` returns. */
  lemma Arrives(w: World, w1: World, t: nat)
    requires ListsMatch(w) && WaitsMatch(w) && t in w.phase && (w.phase[t].Blocked? ==> InNoList(w.s, t))
    requires w1.s.sleeping == w.s.sleeping && w1.s.joins == w.s.joins && w1.now == w.now
    requires w1.phase == Arrive(w.phase, t)
    ensures ListsMatch(w1) && WaitsMatch(w1)
    ensures forall r :: Due(w1.phase, r) == Due(w.phase, r)
  {
    if w.phase[t].Blocked? {
      StopsWaiting(w, w1, t, Running);
    }
  }

  /** A thread that has been found in the queue and returns is in no list any more. */
  lemma ReturnsFromNoList(w: World, t: nat)
    requires Inv(w) && t in w.s.ready && t in w.phase
    requires w.phase[t].Blocked? || w.s.current == Some(t)
    ensures InNoList(w.s, t)
  {
    InQueue(w, t);
    assert Places(w.s, t) == Due(w.phase, t) && multiset(w.s.ready)[t] > 0;
    InNoListByCount(w.s, t);
  }

  lemma RotateTokens(s: State, t: nat)
    requires s.ready != [] && s.current.Some?
    ensures Places(Rotate(s), t) == Places(s, t)
  {
    BackTokens(s.ready);
    assert multiset([s.current.value] + PopBack(s.ready)) == multiset{s.current.value} + multiset(PopBack(s.ready));
  }

  lemma DispatchTokens(s: State, t: nat)
    requires s.ready != []
    ensures Places(Dispatch(s), t) + (if s.current == Some(t) then 1 else 0) == Places(s, t)
  {
    BackTokens(s.ready);
  }

  lemma RotateKeeps(w: World)
    requires Inv(w) && w.s.ready != [] && w.s.current.Some?
    ensures Inv(RotateNow(w))
  {
    var next, w1 := Back(w.s.ready), RotateNow(w);
    InQueue(w, next);
    if w.phase[next].Blocked? {
      ReturnsFromNoList(w, next);
    }
    forall t {
      RotateTokens(w.s, t);
    }
    Arrives(w, w1, next);
  }

  lemma StartKeeps(w: World)
    requires Inv(w) && w.s.ready != [] && w.s.current.None?
    ensures Inv(Next(w, Start).value)
  {
    var next, w1 := Back(w.s.ready), Next(w, Start).value;
    InQueue(w, next);
    if w.phase[next].Blocked? {
      ReturnsFromNoList(w, next);
    }
    forall t {
      DispatchTokens(w.s, t);
    }
    Arrives(w, w1, next);
  }

  /** The current thread leaves through `block`. */
  lemma Departs(w: World, c: nat, next: nat)
    requires Inv(w) && w.s.current == Some(c) && w.phase[c].Leaving? && next in w.s.ready
    ensures var w1 := w.(phase := w.phase[c := Depart(w.phase[c].reason, c, next)]);
      && ListsMatch(w1) && WaitsMatch(w1)
      && forall t :: Due(w1.phase, t) == Due(w.phase, t) - (if t == c then 1 else 0)
  {
    var reason := w.phase[c].reason;
    var w1 := w.(phase := w.phase[c := Depart(reason, c, next)]);
    if next == c {
      InQueue(w, c);
      ReturnsFromNoList(w, c);
      StopsWaiting(w, w1, c, Running);
    } else if reason.Exit? {
      assert Places(w.s, c) == Due(w.phase, c);
      InNoListByCount(w.s, c);
      StopsWaiting(w, w1, c, Gone);
    } else {
      GoesOnWaiting(w, w1, c, reason);
    }
  }

  lemma BlockKeeps(w: World)
    requires Inv(w) && w.s.ready != [] && w.s.current.Some? && w.phase[w.s.current.value].Leaving?
    ensures Inv(BlockNow(w))
  {
    var c, next := w.s.current.value, Back(w.s.ready);
    var w1 := w.(phase := w.phase[c := Depart(w.phase[c].reason, c, next)]);
    var w2 := BlockNow(w);
    InQueue(w, next);
    Departs(w, c, next);
    if w.phase[next].Blocked? {
      ReturnsFromNoList(w, next);
    }
    Arrives(w1, w2, next);
    forall t {
      DispatchTokens(w.s, t);
    }
    assert w2.s.joins == w.s.joins;
  }

  /** A thread gets one more place and is due one more. */
  lemma OneMorePlace(w: World, w1: World, c: nat)
    requires TokensBalance(w)
    requires forall t :: Places(w1.s, t) == Places(w.s, t) + (if t == c then 1 else 0)
    requires forall t :: Due(w1.phase, t) == Due(w.phase, t) + (if t == c then 1 else 0)
    ensures TokensBalance(w1)
  {
    hide Places, Due;
  }

  lemma EnterDue(phase: map<nat, Phase>, c: nat, reason: Reason)
    requires c in phase && phase[c] == Running && reason != Exit
    ensures forall t :: Due(phase[c := Leaving(reason)], t) == Due(phase, t) + (if t == c then 1 else 0)
  {
  }

  lemma NewThreadKeeps(w: World, thread: nat)
    requires Inv(w) && thread !in w.phase
    ensures Inv(WithPhase(w.(s := WithReady(w.s, thread)), thread, Running))
  {
    var w1 := WithPhase(w.(s := WithReady(w.s, thread)), thread, Running);
    assert thread !in w.s.joins;
    NewThreadDue(w.phase, thread);
    NewThreadLists(w, w1, thread);
    hide Places, ListsMatch, WaitsMatch, Due, TokensBalance;
    forall t {
      NewThreadTokens(w.s, thread, t);
    }
    OneMorePlace(w, w1, thread);
  }

  lemma NewThreadDue(phase: map<nat, Phase>, thread: nat)
    requires thread !in phase
    ensures forall t :: Due(phase[thread := Running], t) == Due(phase, t) + (if t == thread then 1 else 0)
  {
  }

  lemma NewThreadTokens(s: State, thread: nat, t: nat)
    requires thread !in s.joins
    ensures Places(WithReady(s, thread), t) == Places(s, t) + (if t == thread then 1 else 0)
  {
    assert s.joins - {thread} == s.joins;
    JoinTokensSet(s.joins, thread, []);
    assert multiset([thread] + s.ready) == multiset{thread} + multiset(s.ready);
  }

  lemma NewThreadLists(w: World, w1: World, thread: nat)
    requires Inv(w) && thread !in w.phase
    requires w1 == WithPhase(w.(s := WithReady(w.s, thread)), thread, Running)
    ensures ListsMatch(w1) && WaitsMatch(w1)
  {
    assert Live(w1.phase) == Live(w.phase) + {thread};
    forall t, x ensures Waits(w1.phase, t, x) == Waits(w.phase, t, x) {}
  }

  lemma EnterSleepKeeps(w: World, wakeup: nat)
    requires Inv(w) && CurrentIs(w, Running)
    ensures Inv(Next(w, EnterSleep(wakeup)).value)
  {
    var c := w.s.current.value;
    hide Places, ListsMatch, WaitsMatch, Due, TokensBalance;
    forall t {
      SleeperTokens(w.s, wakeup, t);
    }
    EnterDue(w.phase, c, Sleep(wakeup));
    OneMorePlace(w, Next(w, EnterSleep(wakeup)).value, c);
    EnterSleepLists(w, wakeup);
  }

  lemma SleeperTokens(s: State, wakeup: nat, t: nat)
    requires s.current.Some?
    ensures Places(WithSleeper(s, wakeup), t) == Places(s, t) + (if s.current == Some(t) then 1 else 0)
  {
    SleepThreadsAppend(s.sleeping, Sleeper(s.current.value, wakeup));
  }

  lemma EnterSleepLists(w: World, wakeup: nat)
    requires Inv(w) && CurrentIs(w, Running)
    ensures ListsMatch(Next(w, EnterSleep(wakeup)).value) && WaitsMatch(Next(w, EnterSleep(wakeup)).value)
  {
    var c := w.s.current.value;
    var w1 := Next(w, EnterSleep(wakeup)).value;
    assert Live(w1.phase) == Live(w.phase);
    forall t, x: Reason
      ensures Waits(w1.phase, t, x) <==> Waits(w.phase, t, x) || (t == c && x == Sleep(wakeup))
    {
    }
  }

  lemma EnterJoinKeeps(w: World, target: nat)
    requires Inv(w) && CurrentIs(w, Running) && target in w.s.joins
    ensures Inv(Next(w, EnterJoin(target)).value)
  {
    var c := w.s.current.value;
    hide Places, ListsMatch, WaitsMatch, Due, TokensBalance;
    forall t {
      JoinerTokens(w.s, target, t);
    }
    EnterDue(w.phase, c, Join(target));
    OneMorePlace(w, Next(w, EnterJoin(target)).value, c);
    EnterJoinLists(w, target);
  }

  lemma JoinerTokens(s: State, target: nat, t: nat)
    requires s.current.Some? && target in s.joins
    ensures Places(WithJoiner(s, target), t) == Places(s, t) + (if s.current == Some(t) then 1 else 0)
  {
    JoinTokensAt(s.joins, target);
    JoinTokensSet(s.joins, target, s.joins[target] + [s.current.value]);
  }

  lemma EnterJoinLists(w: World, target: nat)
    requires Inv(w) && CurrentIs(w, Running) && target in w.s.joins
    ensures ListsMatch(Next(w, EnterJoin(target)).value) && WaitsMatch(Next(w, EnterJoin(target)).value)
  {
    var c := w.s.current.value;
    var w1 := Next(w, EnterJoin(target)).value;
    assert Live(w1.phase) == Live(w.phase);
    forall t, x: Reason
      ensures Waits(w1.phase, t, x) <==> Waits(w.phase, t, x) || (t == c && x == Join(target))
    {
    }
    assert w1.s.joins.Keys == w.s.joins.Keys;
  }

  lemma EnterExitKeeps(w: World)
    requires Inv(w) && CurrentIs(w, Running) && w.s.current.value in w.s.joins
    ensures Inv(Next(w, EnterExit).value)
  {
    var c := w.s.current.value;
    var w1 := Next(w, EnterExit).value;
    hide Places, ListsMatch, WaitsMatch, Due;
    forall t
      ensures Places(w1.s, t) == Due(w1.phase, t)
    {
      ExitTokens(w.s, t);
      ExitDue(w.phase, c, t);
      assert Places(w.s, t) == Due(w.phase, t);
    }
    EnterExitLists(w);
  }

  lemma ExitDue(phase: map<nat, Phase>, c: nat, t: nat)
    requires c in phase && phase[c] == Running
    ensures Due(phase[c := Leaving(Exit)], t) == Due(phase, t)
  {
  }

  lemma ExitTokens(s: State, t: nat)
    requires s.current.Some? && s.current.value in s.joins
    ensures Places(WithoutExited(s), t) == Places(s, t)
  {
    JoinTokensAt(s.joins, s.current.value);
    PushAllTokens(s.joins[s.current.value], s.ready);
  }

  lemma EnterExitLists(w: World)
    requires Inv(w) && CurrentIs(w, Running) && w.s.current.value in w.s.joins
    ensures ListsMatch(Next(w, EnterExit).value) && WaitsMatch(Next(w, EnterExit).value)
  {
    var c := w.s.current.value;
    var w1 := Next(w, EnterExit).value;
    assert Live(w1.phase) == Live(w.phase) - {c};
    forall t, x: Reason
      ensures Waits(w1.phase, t, x) <==> Waits(w.phase, t, x) || (t == c && x == Exit)
    {
    }
  }

  lemma {:induction false} AwaitKeeps(w: World, times: seq<nat>)
    requires Inv(w) && Rising(w.now, times)
    ensures Inv(AwaitAt(w, times))
    decreases |times|
  {
    if w.s.ready == [] && times != [] {
      WakeKeeps(w, times[0]);
      AwaitKeeps(WakeAt(w, times[0]), times[1..]);
    }
  }

  /** A clock that does not run backwards. */
  predicate Rising(now: nat, times: seq<nat>)
    decreases |times|
  {
    times == [] || (now <= times[0] && Rising(times[0], times[1..]))
  }

  /** The clock is the only thing a step takes from outside. */
  predicate Sound(w: World, step: Step) {
    step.Block? ==> Rising(w.now, step.times)
  }

  lemma StepKeeps(w: World, step: Step)
    requires Inv(w) && Sound(w, step) && Next(w, step).Some?
    ensures Inv(Next(w, step).value)
  {
    hide Places, ListsMatch, WaitsMatch, Due, CurrentMatches;
    match step
    case SetInit => SameListsKeep(w, Next(w, SetInit).value);
    case Start => StartKeeps(w);
    case NewThread(thread) => NewThreadKeeps(w, thread);
    case EnterSleep(wakeup) => EnterSleepKeeps(w, wakeup);
    case EnterJoin(target) => EnterJoinKeeps(w, target);
    case EnterExit => EnterExitKeeps(w);
    case Block(times) =>
      AwaitKeeps(w, times);
      BlockKeeps(AwaitAt(w, times));
    case Preempt(checked) =>
      var woken := if checked then WakeAt(w, w.now) else w;
      if checked {
        WakeKeeps(w, w.now);
      }
      if w.s.current.Some? && w.s.initialized && woken.s.ready != [] {
        RotateKeeps(woken);
      }
    case Tick(delta) => SameListsKeep(w, Next(w, Tick(delta)).value);
  }

  /** Initialising and the passing of time move no thread. */
  lemma SameListsKeep(w: World, w1: World)
    requires Inv(w) && w1.phase == w.phase && w1.now >= w.now
    requires w1.s.current == w.s.current && w1.s.ready == w.s.ready
    requires w1.s.sleeping == w.s.sleeping && w1.s.joins == w.s.joins
    ensures Inv(w1)
  {
    forall t ensures Places(w1.s, t) == Places(w.s, t) {}
    forall t, x ensures Waits(w1.phase, t, x) == Waits(w.phase, t, x) {}
  }

  ghost predicate SoundRun(w: World, steps: seq<Step>)
    decreases |steps|
  {
    steps == [] || (Sound(w, steps[0]) && (Next(w, steps[0]).Some? ==> SoundRun(Next(w, steps[0]).value, steps[1..])))
  }

  lemma {:induction false} RunKeeps(w: World, steps: seq<Step>)
    requires Inv(w) && SoundRun(w, steps) && Run(w, steps).Some?
    ensures Inv(Run(w, steps).value)
    decreases |steps|
  {
    if steps != [] {
      StepKeeps(w, steps[0]);
      RunKeeps(Next(w, steps[0]).value, steps[1..]);
    }
  }

  lemma BootHolds()
    ensures Inv(Boot)
  {
    assert SleepThreads([]) == [] && JoinTokens(map[]) == multiset{};
    assert Live(map[]) == {};
  }

  // --- what holds in every run from boot ------------------------------------------------------

  ghost predicate Reachable(w: World) {
    exists steps :: SoundRun(Boot, steps) && Run(Boot, steps) == Some(w)
  }

  lemma ReachableInv(w: World)
    requires Reachable(w)
    ensures Inv(w)
  {
    var steps :| SoundRun(Boot, steps) && Run(Boot, steps) == Some(w);
    BootHolds();
    RunKeeps(Boot, steps);
  }

  /** Token conservation under arbitrary preemption: the number of places that hold a thread is
      one if it has not exited, plus one if it has enqueued itself or exited but not yet reached
      `block`. */
  lemma TokenConservation(w: World, t: nat)
    requires Reachable(w)
    ensures Places(w.s, t) == (if t in w.phase && IsLive(w.phase[t]) then 1 else 0)
                            + (if t in w.phase && w.phase[t].Leaving? then 1 else 0)
  {
    ReachableInv(w);
  }

  /** The thread that a step makes return from `block`, and what it waited for. */
  function Returns(w: World, step: Step): Option<(nat, Reason)> {
    if Next(w, step).None? then None
    else
      match step
      case Block(times) =>
        var w1 := AwaitAt(w, times);
        var c, next := w1.s.current.value, Back(w1.s.ready);
        if next == c then Some((c, w1.phase[c].reason))
        else if next in w1.phase && w1.phase[next].Blocked? then Some((next, w1.phase[next].reason))
        else None
      case Preempt(checked) =>
        var w1 := if checked then WakeAt(w, w.now) else w;
        if w.s.initialized && w1.s.ready != [] && Back(w1.s.ready) in w1.phase && w1.phase[Back(w1.s.ready)].Blocked?
        then Some((Back(w1.s.ready), w1.phase[Back(w1.s.ready)].reason))
        else None
      case _ => None
  }

  lemma ReturnsOver(w: World, step: Step)
    requires Inv(w) && Sound(w, step) && Returns(w, step).Some?
    ensures Over(Next(w, step).value, Returns(w, step).value.1)
    ensures Next(w, step).value.phase[Returns(w, step).value.0] == Running
  {
    match step
    case Block(times) =>
      AwaitKeeps(w, times);
      var w1 := AwaitAt(w, times);
      InQueue(w1, Back(w1.s.ready));
    case Preempt(checked) =>
      if checked {
        WakeKeeps(w, w.now);
      }
      var w1 := if checked then WakeAt(w, w.now) else w;
      InQueue(w1, Back(w1.s.ready));
    case _ =>
  }

  /** In every interleaving: `sleep` returns only when its wakeup time has come, `join` only when
      the thread has exited, and `exit` never. This includes a thread that is woken while it is
      still on its way into `block` and there dequeues itself. */
  lemma ReturnsOnlyWhenOver(w: World, step: Step)
    requires Reachable(w) && Sound(w, step) && Returns(w, step).Some?
    ensures Over(Next(w, step).value, Returns(w, step).value.1)
    ensures Next(w, step).value.phase[Returns(w, step).value.0] == Running
  {
    ReachableInv(w);
    ReturnsOver(w, step);
  }

  /** No step makes a thread stop waiting that does not return. */
  lemma WaitingEndsByReturn(w: World, step: Step, t: nat, reason: Reason)
    requires Inv(w) && Sound(w, step) && Next(w, step).Some? && Waits(w.phase, t, reason)
    ensures Waits(Next(w, step).value.phase, t, reason) || Returns(w, step) == Some((t, reason))
      || (reason.Exit? && Next(w, step).value.phase[t] == Gone)
  {
  }

  // --- bounded waiting ------------------------------------------------------------------------

  /** The thread that a step dispatches. */
  function DispatchedBy(w: World, step: Step): Option<nat> {
    if Next(w, step).None? then None
    else
      match step
      case Start => Some(Back(w.s.ready))
      case Block(times) => Some(Back(AwaitAt(w, times).s.ready))
      case Preempt(checked) =>
        var w1 := if checked then WakeAt(w, w.now) else w;
        if w.s.initialized && w1.s.ready != [] then Some(Back(w1.s.ready)) else None
      case _ => None
  }

  /** All threads dispatched in a run, in order. */
  function Dispatches(w: World, steps: seq<Step>): seq<nat>
    decreases |steps|
  {
    if steps == [] || Next(w, steps[0]).None? then []
    else
      var rest := Dispatches(Next(w, steps[0]).value, steps[1..]);
      if DispatchedBy(w, steps[0]).Some? then [DispatchedBy(w, steps[0]).value] + rest else rest
  }

  predicate EndsWith(queue: seq<nat>, tail: seq<nat>) {
    |tail| <= |queue| && queue[|queue| - |tail|..] == tail
  }

  lemma {:induction false} PushAllEndsWith(threads: seq<nat>, queue: seq<nat>, tail: seq<nat>)
    requires EndsWith(queue, tail)
    ensures EndsWith(PushAll(threads, queue), tail)
  {
    if threads != [] {
      PushAllEndsWith(threads[1..], [threads[0]] + queue, tail);
    }
  }

  lemma PushEndsWith(thread: nat, queue: seq<nat>, tail: seq<nat>)
    requires EndsWith(queue, tail)
    ensures EndsWith([thread] + queue, tail)
  {
  }

  lemma PopEndsWith(queue: seq<nat>, tail: seq<nat>)
    requires EndsWith(queue, tail) && tail != []
    ensures Back(queue) == Back(tail) && EndsWith(PopBack(queue), PopBack(tail))
  {
    var n, k := |queue|, |tail|;
    assert queue[n - k..][k - 1] == queue[n - 1];
    assert PopBack(queue)[n - k..] == queue[n - k..][..k - 1];
  }

  /** The tail of the queue stays as it is, or loses its last thread to the dispatch. */
  ghost predicate KeepsOrder(after: seq<nat>, dispatched: Option<nat>, tail: seq<nat>)
    requires tail != []
  {
    if dispatched.Some? then dispatched.value == Back(tail) && EndsWith(after, PopBack(tail))
    else EndsWith(after, tail)
  }

  lemma RotateOrder(w: World, tail: seq<nat>)
    requires EndsWith(w.s.ready, tail) && tail != [] && w.s.current.Some?
    ensures KeepsOrder(RotateNow(w).s.ready, Some(Back(w.s.ready)), tail)
  {
    PopEndsWith(w.s.ready, tail);
    PushEndsWith(w.s.current.value, PopBack(w.s.ready), PopBack(tail));
  }

  lemma WakeOrder(w: World, tail: seq<nat>)
    requires EndsWith(w.s.ready, tail)
    ensures EndsWith(WakeAt(w, w.now).s.ready, tail)
  {
    PushAllEndsWith(Expired(w.s.sleeping, w.now), w.s.ready, tail);
  }

  lemma PreemptOrder(w: World, checked: bool, tail: seq<nat>)
    requires Next(w, Preempt(checked)).Some? && EndsWith(w.s.ready, tail) && tail != []
    ensures KeepsOrder(Next(w, Preempt(checked)).value.s.ready, DispatchedBy(w, Preempt(checked)), tail)
  {
    var woken := if checked then WakeAt(w, w.now) else w;
    WakeOrder(w, tail);
    if w.s.initialized && woken.s.ready != [] {
      assert woken.s.current == w.s.current;
      RotateOrder(woken, tail);
    }
  }

  lemma BlockOrder(w: World, times: seq<nat>, tail: seq<nat>)
    requires Next(w, Block(times)).Some? && EndsWith(w.s.ready, tail) && tail != []
    ensures KeepsOrder(Next(w, Block(times)).value.s.ready, DispatchedBy(w, Block(times)), tail)
  {
    assert AwaitAt(w, times) == w;
    PopEndsWith(w.s.ready, tail);
  }

  /** Whatever a step does, threads join the queue at the front only, and only a dispatch takes
      one from the back. */
  lemma StepQueue(w: World, step: Step, tail: seq<nat>)
    requires Next(w, step).Some? && EndsWith(w.s.ready, tail) && tail != []
    ensures KeepsOrder(Next(w, step).value.s.ready, DispatchedBy(w, step), tail)
  {
    match step
    case Preempt(checked) => PreemptOrder(w, checked, tail);
    case Block(times) => BlockOrder(w, times, tail);
    case _ => OtherOrder(w, step, tail);
  }

  lemma OtherOrder(w: World, step: Step, tail: seq<nat>)
    requires !step.Preempt? && !step.Block?
    requires Next(w, step).Some? && EndsWith(w.s.ready, tail) && tail != []
    ensures KeepsOrder(Next(w, step).value.s.ready, DispatchedBy(w, step), tail)
  {
    hide EndsWith, PushAll, Arrive, AwaitAt;
    match step
    case EnterExit => PushAllEndsWith(w.s.joins[w.s.current.value], w.s.ready, tail);
    case NewThread(thread) => PushEndsWith(thread, w.s.ready, tail);
    case Start => PopEndsWith(w.s.ready, tail);
    case _ =>
  }

  /** First in, first out: in any run, the threads that are in the queue at its beginning are
      dispatched in the order of the queue, whatever joins behind them. A thread with d threads
      ahead of it is dispatched by the (d+1)-th dispatch. */
  lemma {:induction false} FirstInFirstOut(w: World, steps: seq<Step>, tail: seq<nat>)
    requires EndsWith(w.s.ready, tail)
    ensures forall d ::
      0 <= d < |Dispatches(w, steps)| && d < |tail| ==> Dispatches(w, steps)[d] == tail[|tail| - 1 - d]
    decreases |steps|
  {
    hide Next, DispatchedBy, EndsWith;
    if steps != [] && Next(w, steps[0]).Some? && tail != [] {
      StepQueue(w, steps[0], tail);
      var rest := if DispatchedBy(w, steps[0]).Some? then PopBack(tail) else tail;
      FirstInFirstOut(Next(w, steps[0]).value, steps[1..], rest);
    }
  }

  // --- switching to oneself -------------------------------------------------------------------

  /** `block` guards against switching to the current thread, `switch_thread` does not. It picks the
      current thread only if that is on its way into `block` and what it waits for is over. */
  lemma SelfSwitchOnlyOnTheWay(w: World, checked: bool)
    requires Reachable(w) && w.s.current.Some? && DispatchedBy(w, Preempt(checked)) == w.s.current
    ensures w.s.current.value in w.phase
    ensures w.phase[w.s.current.value].Leaving? && Over(w, w.phase[w.s.current.value].reason)
  {
    var w1 := if checked then WakeAt(w, w.now) else w;
    ReachableInv(w);
    if checked {
      WakeKeeps(w, w.now);
    }
    hide Inv;
    assert w1.phase == w.phase && w1.now == w.now && w1.s.current == w.s.current;
    InQueue(w1, w.s.current.value);
  }

  lemma {:induction false} PushAllBack(threads: seq<nat>, queue: seq<nat>)
    ensures PushAll(threads, queue) != [] <==> queue != [] || threads != []
    ensures queue != [] ==> Back(PushAll(threads, queue)) == Back(queue)
    ensures queue == [] && threads != [] ==> Back(PushAll(threads, queue)) == threads[0]
  {
    if threads != [] {
      PushAllBack(threads[1..], [threads[0]] + queue);
    }
  }

  /** It picks the current thread exactly if that is at the back of the queue already or, the
      queue being empty, is the first in the sleep list whose time has come. */
  lemma SelfSwitchExactlyWhen(w: World, checked: bool)
    requires w.s.current.Some?
    ensures DispatchedBy(w, Preempt(checked)) == w.s.current <==>
      && w.s.initialized
      && if w.s.ready != [] then Back(w.s.ready) == w.s.current.value
         else checked && var expired := Expired(w.s.sleeping, w.now); expired != [] && expired[0] == w.s.current.value
  {
    PushAllBack(Expired(w.s.sleeping, w.now), w.s.ready);
    hide Expired, PushAll;
  }

  lemma RunFirst(w: World, step: Step, steps: seq<Step>, rest: seq<Step>, w1: World)
    requires steps == [step] + rest && Next(w, step) == Some(w1)
    ensures Run(w, steps) == Run(w1, rest)
  {
    hide Next;
    assert steps[1..] == rest;
  }

  /** The world in which thread 1 runs alone. */
  const Alone := World(State(true, Some(1), [], [], map[1 := []]), 0, map[1 := Running])

  lemma AloneAfter(step: Step, w: World)
    requires Next(Alone, step) == Some(w)
    ensures Run(Boot, [SetInit, NewThread(1), Start, step]) == Some(w)
  {
    var w1, w2 := World(State(true, None, [], [], map[]), 0, map[]),
                  World(State(true, None, [1], [], map[1 := []]), 0, map[1 := Running]);
    RunToStart(w1, w2);
    hide Next;
    RunFirst(Alone, step, [step], [], w);
    RunFirst(w2, Start, [Start, step], [step], Alone);
    RunFirst(w1, NewThread(1), [NewThread(1), Start, step], [Start, step], w2);
    RunFirst(Boot, SetInit, [SetInit, NewThread(1), Start, step], [NewThread(1), Start, step], w1);
  }

  lemma RunToStart(w1: World, w2: World)
    requires w1 == World(State(true, None, [], [], map[]), 0, map[])
    requires w2 == World(State(true, None, [1], [], map[1 := []]), 0, map[1 := Running])
    ensures Next(Boot, SetInit) == Some(w1) && Next(w1, NewThread(1)) == Some(w2) && Next(w2, Start) == Some(Alone)
  {
    var none: seq<nat> := [];
    assert [1] + none == [1];
    assert map[][1 := Running] == map[1 := Running];
  }

  /** It does happen: a thread that is to sleep for no time is interrupted after it has released
      the locks. The interrupt wakes it, finds it at the back of the queue and switches from it
      to itself. */
  lemma SelfSwitchHappens()
    ensures var steps := [SetInit, NewThread(1), Start, EnterSleep(0)];
      && Run(Boot, steps).Some?
      && var w := Run(Boot, steps).value;
         && w.s.current == Some(1) && DispatchedBy(w, Preempt(true)) == Some(1)
  {
    var w := WithPhase(Alone.(s := WithSleeper(Alone.s, 0)), 1, Leaving(Sleep(0)));
    AloneAfter(EnterSleep(0), w);
    assert w.s.sleeping == [Sleeper(1, 0)] && Expired([Sleeper(1, 0)], 0) == [1];
    SelfSwitchExactlyWhen(w, true);
    hide DispatchedBy;
  }

  // --- waiting for ever -----------------------------------------------------------------------

  lemma WaitsFor(s: State, time: nat)
    requires s.ready == []
    ensures Await(s, [time]) == Wake(s, time)
  {
    assert [time][1..] == [];
    assert Await(Wake(s, time), []) == Wake(s, time);
  }

  /** A thread that enters `block` never gets out of its wait loop, whatever the clock shows, if
      and only if nobody is ready and nobody sleeps. */
  lemma BlockNeverEndsExactlyWhen(w: World)
    requires w.s.current.Some? && w.s.current.value in w.phase && w.phase[w.s.current.value].Leaving?
    ensures (forall times :: Next(w, Block(times)).None?) <==> w.s.ready == [] && w.s.sleeping == []
  {
    forall times
      ensures Next(w, Block(times)).Some? <==> Await(w.s, times).ready != []
    {
      AwaitAtIsAwait(w, times);
    }
    hide Next;
    if w.s.ready != [] {
      assert Await(w.s, []).ready != [] && Next(w, Block([])).Some?;
    } else if w.s.sleeping != [] {
      var time := Earliest(w.s.sleeping);
      WakeProgress(w.s.sleeping, time);
      WaitsFor(w.s, time);
      PushAllBack(Expired(w.s.sleeping, time), w.s.ready);
      assert Next(w, Block([time])).Some?;
    } else {
      forall times
        ensures Next(w, Block(times)).None?
      {
        NobodyWakes(w.s, times);
      }
    }
  }

  /** It does happen: the only thread exits, and the kernel waits in `block` for ever. */
  lemma LastExitNeverEnds()
    ensures var steps := [SetInit, NewThread(1), Start, EnterExit];
      && Run(Boot, steps).Some?
      && forall times :: Next(Run(Boot, steps).value, Block(times)) == None
  {
    var w := WithPhase(Alone.(s := WithoutExited(Alone.s)), 1, Leaving(Exit));
    AloneAfter(EnterExit, w);
    assert w.s.ready == [] && w.s.sleeping == [];
    BlockNeverEndsExactlyWhen(w);
    hide Next;
  }
}
