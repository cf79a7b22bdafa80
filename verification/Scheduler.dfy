/** The thread scheduler (os/kernel/src/thread/scheduler.rs). Each method holds the scheduler's
locks from beginning to end, so each is one atomic step; `sleep`, `join` and `exit` consist of
two, since they release their locks before `block` takes them again. Threads are named by
their ids. */
module Scheduler {
  import opened Ranges

  /** An entry of the sleep list. */
  datatype Sleeper = Sleeper(thread: nat, wakeup: nat)

  /** `ready` is written from front to back: threads are pushed to the front and popped from
      the back. */
  datatype State = State(initialized: bool, current: Option<nat>, ready: seq<nat>,
                         sleeping: seq<Sleeper>, joins: map<nat, seq<nat>>)

  const Empty := State(false, None, [], [], map[])

  // --- what one step does -------------------------------------------------------------------

  function Back(queue: seq<nat>): nat
    requires queue != []
  {
    queue[|queue| - 1]
  }

  function PopBack(queue: seq<nat>): seq<nat>
    requires queue != []
  {
    queue[..|queue| - 1]
  }

  /** The queue after the threads have been pushed to its front one after the other. */
  function PushAll(threads: seq<nat>, queue: seq<nat>): seq<nat> {
    if threads == [] then queue else PushAll(threads[1..], [threads[0]] + queue)
  }

  /** The threads whose time has come, in the order of the list. */
  function Expired(sleeping: seq<Sleeper>, time: nat): seq<nat> {
    if sleeping == [] then []
    else (if time >= sleeping[0].wakeup then [sleeping[0].thread] else []) + Expired(sleeping[1..], time)
  }

  function Asleep(sleeping: seq<Sleeper>, time: nat): seq<Sleeper> {
    if sleeping == [] then []
    else (if time >= sleeping[0].wakeup then [] else [sleeping[0]]) + Asleep(sleeping[1..], time)
  }

  function Wake(s: State, time: nat): State {
    s.(ready := PushAll(Expired(s.sleeping, time), s.ready), sleeping := Asleep(s.sleeping, time))
  }

  function WithReady(s: State, thread: nat): State {
    s.(ready := [thread] + s.ready, joins := s.joins[thread := []])
  }

  function WithSleeper(s: State, wakeup: nat): State
    requires s.current.Some?
  {
    s.(sleeping := s.sleeping + [Sleeper(s.current.value, wakeup)])
  }

  function WithJoiner(s: State, target: nat): State
    requires s.current.Some? && target in s.joins
  {
    s.(joins := s.joins[target := s.joins[target] + [s.current.value]])
  }

  function WithoutExited(s: State): State
    requires s.current.Some? && s.current.value in s.joins
  {
    s.(ready := PushAll(s.joins[s.current.value], s.ready), joins := s.joins - {s.current.value})
  }

  /** The thread at the back of the queue becomes the current one. */
  function Dispatch(s: State): State
    requires s.ready != []
  {
    s.(current := Some(Back(s.ready)), ready := PopBack(s.ready))
  }

  /** Dispatch with the previous thread put to the front of the queue. */
  function Rotate(s: State): State
    requires s.ready != [] && s.current.Some?
  {
    s.(current := Some(Back(s.ready)), ready := [s.current.value] + PopBack(s.ready))
  }

  /** The wait loop of `block`: the sleep list is checked at one time after the other until the
      queue holds a thread. */
  function Await(s: State, times: seq<nat>): State
    decreases |times|
  {
    if s.ready != [] || times == [] then s else Await(Wake(s, times[0]), times[1..])
  }

  /** The first `n` values that a clock shows. */
  function Readings(clock: nat -> nat, n: nat): seq<nat> {
    if n == 0 then [] else Readings(clock, n - 1) + [clock(n - 1)]
  }

  // --- the scheduler itself -----------------------------------------------------------------

  class ThreadScheduler {
    var initialized: bool
    var currentThread: Option<nat>
    var readyQueue: seq<nat>
    var sleepList: seq<Sleeper>
    var joinMap: map<nat, seq<nat>>

    ghost function Now(): State
      reads this
    {
      State(initialized, currentThread, readyQueue, sleepList, joinMap)
    }

    constructor ()
      ensures Now() == Empty
    {
      initialized := false;
      currentThread := None;
      readyQueue := [];
      sleepList := [];
      joinMap := map[];
    }

    method SetInit()
      modifies this
      ensures Now() == old(Now()).(initialized := true)
    {
      initialized := true;
    }

    /** `start`: `false` where the kernel stops because there is no thread. */
    method Start() returns (ok: bool)
      modifies this
      ensures ok <==> old(readyQueue) != []
      ensures Now() == if ok then Dispatch(old(Now())) else old(Now())
    {
      if readyQueue == [] {
        return false;
      }
      currentThread, readyQueue := Some(Back(readyQueue)), PopBack(readyQueue);
      return true;
    }

    method Ready(thread: nat)
      modifies this
      ensures Now() == WithReady(old(Now()), thread)
    {
      readyQueue := [thread] + readyQueue;
      joinMap := joinMap[thread := []];
    }

    /** First half of `sleep`, the second being `Block`. The wakeup time has been computed
        before the locks were taken. */
    method SleepEnqueue(wakeupTime: nat)
      requires currentThread.Some?
      modifies this
      ensures Now() == WithSleeper(old(Now()), wakeupTime)
    {
      sleepList := sleepList + [Sleeper(currentThread.value, wakeupTime)];
    }

    /** First half of `join`: `false` where the kernel stops because there is no such thread. */
    method JoinEnqueue(threadId: nat) returns (ok: bool)
      requires currentThread.Some?
      modifies this
      ensures ok <==> threadId in old(joinMap)
      ensures Now() == if ok then WithJoiner(old(Now()), threadId) else old(Now())
    {
      if threadId !in joinMap {
        return false;
      }
      joinMap := joinMap[threadId := joinMap[threadId] + [currentThread.value]];
      return true;
    }

    /** First half of `exit`: those who joined the thread become ready, and its entry is removed. */
    method ExitMark() returns (ok: bool)
      requires currentThread.Some?
      modifies this
      ensures ok <==> old(currentThread.value in joinMap)
      ensures Now() == if ok then WithoutExited(old(Now())) else old(Now())
    {
      if currentThread.value !in joinMap {
        return false;
      }
      var joinList := joinMap[currentThread.value];
      for i := 0 to |joinList|
        invariant initialized == old(initialized) && currentThread == old(currentThread)
        invariant sleepList == old(sleepList) && joinMap == old(joinMap)
        invariant PushAll(joinList[i..], readyQueue) == PushAll(joinList, old(readyQueue))
      {
        readyQueue := [joinList[i]] + readyQueue;
        assert joinList[i..][1..] == joinList[i + 1..];
      }
      joinMap := joinMap - {currentThread.value};
      return true;
    }

    /** Move everyone whose time has come to the ready queue, and keep the others in order. */
    method CheckSleepList(time: nat)
      modifies this
      ensures Now() == Wake(old(Now()), time)
    {
      hide PushAll, Expired, Asleep;
      var retained: seq<Sleeper> := [];
      for i := 0 to |sleepList|
        invariant initialized == old(initialized) && currentThread == old(currentThread)
        invariant sleepList == old(sleepList) && joinMap == old(joinMap)
        invariant PushAll(Expired(sleepList[i..], time), readyQueue)
          == PushAll(Expired(sleepList, time), old(readyQueue))
        invariant retained + Asleep(sleepList[i..], time) == Asleep(sleepList, time)
      {
        CheckOne(sleepList, i, time, readyQueue);
        if time >= sleepList[i].wakeup {
          readyQueue := [sleepList[i].thread] + readyQueue;
        } else {
          retained := retained + [sleepList[i]];
        }
      }
      CheckedAll(time, readyQueue);
      assert sleepList[|sleepList|..] == [] && retained + [] == retained && sleepList[0..] == sleepList;
      sleepList := retained;
    }

    /** `switch_thread`, called by the timer interrupt. `time` is `None` if the sleep list or the
        clock is locked. `switched` tells whether another thread has been dispatched. */
    method SwitchThread(time: Option<nat>) returns (switched: bool)
      requires initialized ==> currentThread.Some?
      modifies this
      ensures var woken := if time.Some? then Wake(old(Now()), time.value) else old(Now());
        && (switched <==> old(initialized) && woken.ready != [])
        && Now() == if !old(initialized) then old(Now()) else if switched then Rotate(woken) else woken
    {
      if !initialized {
        return false;
      }
      if time.Some? {
        CheckSleepList(time.value);
      }
      if readyQueue == [] {
        return false;
      }
      var next := Back(readyQueue);
      readyQueue := PopBack(readyQueue);
      var current := currentThread.value;
      currentThread := Some(next);
      readyQueue := [current] + readyQueue;
      return true;
    }

    /** `block`, with the clock as it reads in each round of the wait loop. The loop ends because
        the clock reaches the earliest wakeup time; see `WaitEndsExactlyWhen`. `switched` is
        false if the thread has dequeued itself. */
    method Block(clock: nat -> nat) returns (switched: bool, ghost rounds: nat)
      requires currentThread.Some?
      requires readyQueue == [] ==> sleepList != [] && forall i: nat :: clock(i) < clock(i + 1)
      modifies this
      ensures var waited := Await(old(Now()), Readings(clock, rounds));
        && waited.ready != [] && Now() == Dispatch(waited)
        && (switched <==> Back(waited.ready) != old(currentThread.value))
    {
      var round := 0;
      while readyQueue == []
        invariant currentThread == old(currentThread)
        invariant readyQueue == [] ==> sleepList != [] && forall i: nat :: clock(i) < clock(i + 1)
        invariant Await(old(Now()), Readings(clock, round)) == Now()
        decreases if readyQueue == [] then 1 else 0,
                  if sleepList != [] && clock(round) < Earliest(sleepList)
                  then Earliest(sleepList) - clock(round) else 0
      {
        label before:
        CheckSleepList(clock(round));
        AwaitMore(old(Now()), old@before(Now()), clock, round);
        WakeProgress(old@before(sleepList), clock(round));
        PushAllLength(Expired(old@before(sleepList), clock(round)), []);
        round := round + 1;
      }
      rounds := round;
      var current := currentThread.value;
      var next := Back(readyQueue);
      readyQueue := PopBack(readyQueue);
      currentThread := Some(next);
      switched := current != next;
    }
  }

  lemma CheckOne(sleeping: seq<Sleeper>, i: nat, time: nat, queue: seq<nat>)
    requires i < |sleeping|
    ensures PushAll(Expired(sleeping[i..], time), queue)
      == PushAll(Expired(sleeping[i + 1..], time),
                 if time >= sleeping[i].wakeup then [sleeping[i].thread] + queue else queue)
    ensures Asleep(sleeping[i..], time)
      == (if time >= sleeping[i].wakeup then [] else [sleeping[i]]) + Asleep(sleeping[i + 1..], time)
  {
    var rest := Expired(sleeping[i + 1..], time);
    assert sleeping[i..][1..] == sleeping[i + 1..];
    assert time >= sleeping[i].wakeup ==> ([sleeping[i].thread] + rest)[1..] == rest;
    assert [] + rest == rest;
  }

  lemma CheckedAll(time: nat, queue: seq<nat>)
    ensures PushAll(Expired([], time), queue) == queue && Asleep([], time) == []
  {
  }

  /** The earliest wakeup time in the list. */
  function Earliest(sleeping: seq<Sleeper>): nat
    requires sleeping != []
  {
    if |sleeping| == 1 || sleeping[0].wakeup <= Earliest(sleeping[1..]) then sleeping[0].wakeup
    else Earliest(sleeping[1..])
  }

  /** Checking the sleep list wakes somebody exactly when the earliest wakeup time is reached;
      otherwise everybody stays. */
  lemma {:induction false} WakeProgress(sleeping: seq<Sleeper>, time: nat)
    requires sleeping != []
    ensures Expired(sleeping, time) != [] <==> time >= Earliest(sleeping)
    ensures time < Earliest(sleeping) ==> Asleep(sleeping, time) == sleeping
  {
    if |sleeping| > 1 {
      WakeProgress(sleeping[1..], time);
      assert sleeping == [sleeping[0]] + sleeping[1..];
    } else {
      assert sleeping[1..] == [] && sleeping == [sleeping[0]];
    }
  }

  lemma {:induction false} PushAllLength(threads: seq<nat>, queue: seq<nat>)
    ensures |PushAll(threads, queue)| == |threads| + |queue|
  {
    if threads != [] {
      PushAllLength(threads[1..], [threads[0]] + queue);
    }
  }

  lemma {:induction false} AwaitStep(s: State, times: seq<nat>, t: nat)
    requires Await(s, times).ready == []
    ensures Await(s, times + [t]) == Wake(Await(s, times), t)
    decreases |times|
  {
    if times == [] {
      assert [t][1..] == [];
      assert Await(Wake(s, t), []) == Wake(s, t);
    } else {
      assert (times + [t])[1..] == times[1..] + [t];
      assert s.ready == [];
      AwaitStep(Wake(s, times[0]), times[1..], t);
    }
  }

  lemma AwaitMore(s: State, w: State, clock: nat -> nat, round: nat)
    requires Await(s, Readings(clock, round)) == w && w.ready == []
    ensures Await(s, Readings(clock, round + 1)) == Wake(w, clock(round))
  {
    AwaitStep(s, Readings(clock, round), clock(round));
  }

  /** If nobody sleeps, nobody wakes. */
  lemma {:induction false} NobodyWakes(s: State, times: seq<nat>)
    requires s.ready == [] && s.sleeping == []
    ensures Await(s, times) == s
    decreases |times|
  {
    if times != [] {
      assert Wake(s, times[0]) == s;
      NobodyWakes(s, times[1..]);
    }
  }

  /** While the clock is below the earliest wakeup time, the loop goes on. */
  lemma {:induction false} SomebodyWakes(s: State, clock: nat -> nat, n: nat) returns (rounds: nat)
    requires s.ready == [] && s.sleeping != [] && Await(s, Readings(clock, n)) == s
    requires forall i: nat :: clock(i) < clock(i + 1)
    ensures Await(s, Readings(clock, rounds)).ready != []
    decreases if clock(n) < Earliest(s.sleeping) then Earliest(s.sleeping) - clock(n) else 0
  {
    AwaitMore(s, s, clock, n);
    WakeProgress(s.sleeping, clock(n));
    if clock(n) < Earliest(s.sleeping) {
      rounds := SomebodyWakes(s, clock, n + 1);
    } else {
      PushAllLength(Expired(s.sleeping, clock(n)), []);
      rounds := n + 1;
    }
  }

  /** With a rising clock, the wait loop of `block` ends if and only if somebody is ready or
      somebody sleeps. */
  lemma WaitEndsExactlyWhen(s: State, clock: nat -> nat)
    requires forall i: nat :: clock(i) < clock(i + 1)
    ensures (exists n :: Await(s, Readings(clock, n)).ready != []) <==> s.ready != [] || s.sleeping != []
  {
    if s.ready != [] {
      assert Await(s, Readings(clock, 0)).ready != [];
    } else if s.sleeping != [] {
      var n := SomebodyWakes(s, clock, 0);
    } else {
      forall n
        ensures Await(s, Readings(clock, n)).ready == []
      {
        NobodyWakes(s, Readings(clock, n));
      }
    }
  }
}
