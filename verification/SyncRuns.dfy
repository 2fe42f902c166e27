/**
 What the single calls of the mutex and the condition come to, and the order
 in which waiting tasks are served, over whole runs of `Sync`.
 */
module SyncRuns {
  import opened Links
  import opened RbShape
  import opened Recency
  import opened Sync

  // ---------- Calls ----------

  /** A free mutex is taken at once, by a lock and by a try; a busy one makes the first wait and the second fail. */
  lemma LockExactly<T>(s: State<T>, a: Action<T>)
    requires Good(s) && Enabled(s, a) && (a.Lock? || a.TryLock?)
    ensures
      var s' := Next(s, a);
      && (!s.locker ==> s' == s.(locker := true, owners := {a.t}))
      && (s.locker && a.TryLock? ==> s' == s)
      && (s.locker && a.Lock? ==> s'.pc[a.t] == Locking(false, false) && s'.lockers == [a.t] + s.lockers && a.t !in s'.runnable && s'.owners == s.owners)
  {
    assert s.pc[a.t := Outside] == s.pc;
  }

  /** An unlock frees the mutex and wakes the first task queued for it, and no other. */
  lemma UnlockExactly<T>(s: State<T>, t: T)
    requires Good(s) && Enabled(s, Unlock(t))
    ensures
      var s' := Next(s, Unlock(t));
      && !s'.locker && s'.owners == {} && s'.lockers == s.lockers && s'.pc == s.pc
      && s'.runnable == s.runnable + if s.lockers == [] then {} else {s.lockers[0]}
  {
  }

  /** A wait that does not come back at once has released the mutex, is on the list and sleeps. */
  lemma WaitBegins<T>(s: State<T>, a: Action<T>)
    requires Good(s) && Enabled(s, a) && (a.Wait? || (a.TimedWait? && a.ms > 0))
    ensures
      var s' := Next(s, a);
      && s'.pc[a.t] == InWait(a.TimedWait?) && a.t !in s'.runnable && s'.sleepers == [a.t] + s.sleepers
      && !s'.locker && s'.owners == {} && (s.lockers != [] ==> s.lockers[0] in s'.runnable)
  {
  }

  /** The wait of `t` goes on to take the mutex. */
  ghost predicate LeavesWait<T>(s: State<T>, t: T) {
    t in s.pc && !s.pc[t].InWait?
  }

  /**
   A wait leaves its loop exactly when it has been signalled or, if it is
   timed, its time is up; with the mutex free it then has it.
   */
  lemma LoopEndsExactly<T>(s: State<T>, t: T, left: nat)
    requires Good(s) && Enabled(s, Resume(t, left)) && s.pc[t].InWait?
    ensures
      var s' := Next(s, Resume(t, left));
      && (LeavesWait(s', t) <==> t in s.signalled || (s.pc[t].timed && left == 0))
      && (LeavesWait(s', t) && !s.locker ==> s'.pc[t].Outside? && s'.owners == {t})
      && (LeavesWait(s', t) && s.locker ==> s'.pc[t] == Locking(true, s.pc[t].timed) && s'.lockers == [t] + s.lockers)
      && (!LeavesWait(s', t) ==> s' == s.(runnable := s.runnable - {t}))
  {
    hide CondOk, Queued, Without;
  }

  /** A timed wait that wakes up with its time gone, no signal and the mutex free returns -1 there and then. */
  lemma TimesOut<T>(s: State<T>, t: T)
    requires Good(s) && Enabled(s, Resume(t, 0)) && s.pc[t] == InWait(true) && t !in s.signalled && !s.locker
    ensures
      var s' := Next(s, Resume(t, 0));
      s'.pc[t].Outside? && s'.owners == {t} && t !in s'.sleepers && t in s'.result && s'.result[t] == -1
  {
    AcquiredAnswer(s, t, true);
  }

  /** A task queued for the mutex leaves its loop exactly when the mutex is free and it is first. */
  lemma QueueEndsExactly<T>(s: State<T>, t: T, left: nat)
    requires Good(s) && Enabled(s, Resume(t, left)) && s.pc[t].Locking?
    ensures
      var s' := Next(s, Resume(t, left));
      && (s'.pc[t].Outside? <==> !s.locker && s.lockers[0] == t)
      && (s'.pc[t].Outside? ==> s'.owners == {t} && s'.lockers == s.lockers[1..])
      && (!s'.pc[t].Outside? ==> s' == s.(runnable := s.runnable - {t}))
  {
    hide CondOk, Without;
  }

  // ---------- Order ----------

  ghost predicate IsLocking<T>(s: State<T>, t: T) {
    t in s.pc && s.pc[t].Locking?
  }

  /** The step with which `t` last joined the queue of the mutex. */
  ghost function QueuedAt<T>(ss: seq<State<T>>, n: nat, t: T): nat
    requires n < |ss|
  {
    if n == 0 then 0 else if IsLocking(ss[n], t) && !IsLocking(ss[n - 1], t) then n else QueuedAt(ss, n - 1, t)
  }

  /** The step with which the last wait of `t` began. */
  ghost function BeganAt<T>(ss: seq<State<T>>, n: nat, t: T): nat
    requires n < |ss|
  {
    if n == 0 then 0 else if Waits(ss[n], t) && !Waits(ss[n - 1], t) then n else BeganAt(ss, n - 1, t)
  }

  ghost function Queuings<T>(ss: seq<State<T>>, n: nat): map<T, nat>
    requires n < |ss|
  {
    map t | t in ss[n].pc :: QueuedAt(ss, n, t)
  }

  ghost function Beginnings<T>(ss: seq<State<T>>, n: nat): map<T, nat>
    requires n < |ss|
  {
    map t | t in ss[n].pc :: BeganAt(ss, n, t)
  }

  lemma BegunStays<T>(s: State<T>, t: T)
    requires t in s.pc
    ensures forall fromWait, timed :: LockBegun(s, t, fromWait, timed).pc.Keys == s.pc.Keys
    ensures forall timed, ms: nat :: WaitBegun(s, t, timed, ms).pc.Keys == s.pc.Keys
  {
  }

  lemma ResumedStays<T>(s: State<T>, t: T, left: nat)
    requires t in s.pc
    ensures forall fromWait, timed :: LockResumed(s, t, fromWait, timed).pc.Keys == s.pc.Keys
    ensures forall timed :: WaitResumed(s, t, timed, left).pc.Keys == s.pc.Keys
  {
  }

  lemma TasksStay<T>(s: State<T>, a: Action<T>)
    requires Good(s) && Enabled(s, a)
    ensures forall t :: t in Next(s, a).pc <==> t in s.pc
  {
    hide Without, SignalledAll, LockBegun, LockResumed, WaitResumed, WaitBegun;
    if a.Broadcast? {
      SignalledAllEach(s);
    } else if a.Resume? {
      ResumedStays(s, a.t, a.left);
    } else {
      BegunStays(s, a.t);
    }
    hide Good;
  }

  /** How the queue of the mutex can change: a task in front, or the first one leaves. */
  lemma LockersStep<T>(s: State<T>, a: Action<T>)
    requires Good(s) && Enabled(s, a)
    ensures
      var l, l' := s.lockers, Next(s, a).lockers;
      || l' == l
      || (l' == [a.t] + l && !IsLocking(s, a.t) && IsLocking(Next(s, a), a.t))
      || (l != [] && l' == l[1..])
  {
    if a.Broadcast? {
      LockersKept(s);
    }
    hide CondOk, Without, SignalledAll;
  }

  lemma {:induction false} LockersKept<T>(s: State<T>)
    ensures SignalledAll(s).lockers == s.lockers
    decreases |s.sleepers|
  {
    if s.sleepers != [] {
      LockersKept(Signalled(s));
    }
  }

  lemma BegunSleeps<T>(s: State<T>, t: T, timed: bool, ms: nat)
    requires Good(s) && Free(s, t) && t in s.owners
    ensures
      var s' := WaitBegun(s, t, timed, ms);
      || (s'.sleepers == [t] + s.sleepers && !Waits(s, t) && Waits(s', t))
      || s'.sleepers == s.sleepers
      || s'.sleepers == Without(s.sleepers, t)
  {
    WaitQueuedGood(s, t, timed);
    hide Queued, NewestFirst;
  }

  /** The same for the list of the condition, from which also any wait can go by itself, and all at once. */
  lemma SleepersStep<T>(s: State<T>, a: Action<T>)
    requires Good(s) && Enabled(s, a)
    ensures
      var l, l' := s.sleepers, Next(s, a).sleepers;
      || l' == l
      || (l' == [a.t] + l && !Waits(s, a.t) && Waits(Next(s, a), a.t))
      || (l != [] && l' == l[1..])
      || l' == Without(l, a.t)
      || l' == []
  {
    if a.Wait? || a.TimedWait? {
      BegunSleeps(s, a.t, a.TimedWait?, if a.TimedWait? then a.ms else 0);
    } else if a.Broadcast? {
      SignalledAllEach(s);
    }
    hide Queued, NewestFirst, SignalledAll, Exclusive, NoLostUnlock, Without, WaitBegun, WaitQueued;
  }

  /** In the queue of the mutex the task that joined last is first. */
  lemma {:induction false} LastCameFirst<T>(ss: seq<State<T>>, acts: seq<Action<T>>, n: nat)
    requires IsRun(ss, acts) && Initial(ss[0]) && n < |ss|
    ensures NewestFirst(ss[n].lockers, Queuings(ss, n), n + 1)
  {
    hide Next, Enabled, Good;
    if n > 0 {
      var s, a, s' := ss[n - 1], acts[n - 1], ss[n];
      LastCameFirst(ss, acts, n - 1);
      EveryRun(ss, acts);
      assert s' == ss[n - 1 + 1] == Next(s, a);
      LockersStep(s, a);
      LockersAre(s);
      LockersAre(s');
      TasksStay(s, a);
      var f, g := Queuings(ss, n - 1), Queuings(ss, n);
      Shortened(s.lockers, f, n, a.t);
      hide IsRun, Initial, NewestFirst, Without;
      if s'.lockers == s.lockers || (s.lockers != [] && s'.lockers == s.lockers[1..]) {
        Shifted(s'.lockers, f, g, n, n + 1);
      } else {
        Shifted(s.lockers, f, g, n, n);
        PutInFront(s.lockers, a.t, g, n);
      }
    }
  }

  lemma LockersAre<T>(s: State<T>)
    requires Good(s)
    ensures forall t :: t in s.lockers ==> IsLocking(s, t)
    ensures forall t :: t in s.sleepers ==> Waits(s, t)
  {
  }

  /** In the list of the condition the wait that began last is first. */
  lemma {:induction false} LastBeganFirst<T>(ss: seq<State<T>>, acts: seq<Action<T>>, n: nat)
    requires IsRun(ss, acts) && Initial(ss[0]) && n < |ss|
    ensures NewestFirst(ss[n].sleepers, Beginnings(ss, n), n + 1)
  {
    hide Next, Enabled, Good, Waits;
    if n > 0 {
      var s, a, s' := ss[n - 1], acts[n - 1], ss[n];
      LastBeganFirst(ss, acts, n - 1);
      EveryRun(ss, acts);
      assert s' == ss[n - 1 + 1] == Next(s, a);
      SleepersStep(s, a);
      LockersAre(s);
      LockersAre(s');
      TasksStay(s, a);
      var f, g := Beginnings(ss, n - 1), Beginnings(ss, n);
      Shortened(s.sleepers, f, n, a.t);
      hide IsRun, Initial, NewestFirst, Without;
      WaitsIn(s, s');
      if s'.sleepers == [a.t] + s.sleepers && !Waits(s, a.t) {
        assert forall t :: t in s.sleepers ==> t in s'.sleepers;
        Shifted(s.sleepers, f, g, n, n);
        PutInFront(s.sleepers, a.t, g, n);
      } else {
        Shifted(s'.sleepers, f, g, n, n + 1);
      }
    }
  }

  lemma WaitsIn<T>(s: State<T>, s': State<T>)
    ensures forall t :: Waits(s, t) ==> t in s.pc
    ensures forall t :: Waits(s', t) ==> t in s'.pc
  {
  }

  /** Whenever a signal is given, it releases the wait that, of those not yet signalled, began in the latest step. */
  lemma SignalLatest<T>(ss: seq<State<T>>, acts: seq<Action<T>>, n: nat, t: T)
    requires IsRun(ss, acts) && Initial(ss[0]) && n < |acts| && acts[n].Signal?
    requires t in ss[n].pc && Waits(ss[n], t) && t !in ss[n].signalled
    ensures ss[n].sleepers != [] && ss[n].sleepers[0] in ss[n + 1].signalled && ss[n].sleepers[0] in ss[n + 1].runnable
    ensures t in ss[n + 1].signalled <==> t == ss[n].sleepers[0]
    ensures t != ss[n].sleepers[0] ==> BeganAt(ss, n, t) < BeganAt(ss, n, ss[n].sleepers[0])
  {
    EveryRun(ss, acts);
    LastBeganFirst(ss, acts, n);
    assert Enabled(ss[n], acts[n]) && ss[n + 1] == Next(ss[n], acts[n]);
    assert t in ss[n].sleepers;
    SignalNewest(ss[n], acts[n].t);
    var k :| 0 <= k < |ss[n].sleepers| && ss[n].sleepers[k] == t;
    hide IsRun, Initial, BeganAt;
  }
}
