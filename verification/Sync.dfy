/**
 `hev-task-mutex.c` and `hev-task-cond.c` as one protocol: any number of tasks
 around one mutex and one condition variable. Between two yields a task runs
 alone, so a step is what one task does in one go; at any time any task may
 be woken for a reason outside the protocol.
 */
module Sync {
  import opened Links
  import opened RbShape
  import opened Recency

  /** Where a task stands: outside, in the loop of `hev_task_mutex_lock`, or in the loop of a condition wait. */
  datatype Pc = Outside | Locking(fromWait: bool, timed: bool) | InWait(timed: bool)

  /**
   `locker`, `lockers` and `sleepers` are the flag and the waiter list of the
   mutex and the waiter list of the condition, newest first; a node is named
   by the task on whose stack it lies. `signalled` holds the tasks whose
   condition node has lost its task pointer. The rest is history: `owners`
   are the tasks that have got the lock and not released it, `result` is what
   the last wait of a task returned, `since` numbers the waits by their start.
   */
  datatype State<T> = State(pc: map<T, Pc>, runnable: set<T>, locker: bool, lockers: seq<T>, sleepers: seq<T>,
                            signalled: set<T>, owners: set<T>, result: map<T, int>, since: map<T, nat>, clock: nat)

  datatype Action<T> =
    | Spurious(t: T)
    | Lock(t: T)
    | TryLock(t: T)
    | Unlock(t: T)
    | Wait(t: T)
    | TimedWait(t: T, ms: nat)
    | Signal(t: T)
    | Broadcast(t: T)
    | Resume(t: T, left: nat)

  // ---------- The pieces of the two files ----------

  /** `hev_task_mutex_unlock` */
  ghost function Unlocked<T>(s: State<T>, t: T): State<T> {
    var u := s.(locker := false, owners := s.owners - {t});
    if s.lockers == [] then u else u.(runnable := u.runnable + {s.lockers[0]})
  }

  /** The lock is taken by `t`: back to its caller, or to the end of its condition wait. */
  ghost function Acquired<T>(s: State<T>, t: T, fromWait: bool, timed: bool): State<T> {
    var u := s.(locker := true, owners := s.owners + {t}, pc := s.pc[t := Outside]);
    if !fromWait then u
    else if timed && t !in s.signalled then u.(sleepers := Without(s.sleepers, t), result := s.result[t := -1])
    else u.(signalled := s.signalled - {t}, result := s.result[t := 0])
  }

  /** `hev_task_mutex_lock` up to its first yield. */
  ghost function LockBegun<T>(s: State<T>, t: T, fromWait: bool, timed: bool): State<T> {
    if s.locker
    then s.(lockers := [t] + s.lockers, pc := s.pc[t := Locking(fromWait, timed)], runnable := s.runnable - {t})
    else Acquired(s, t, fromWait, timed)
  }

  /** `hev_task_cond_signal` */
  ghost function Signalled<T>(s: State<T>): State<T> {
    if s.sleepers == [] then s
    else
      var t := s.sleepers[0];
      s.(runnable := s.runnable + {t}, signalled := s.signalled + {t}, sleepers := s.sleepers[1..])
  }

  /** `hev_task_cond_broadcast` */
  ghost function SignalledAll<T>(s: State<T>): State<T>
    decreases |s.sleepers|
  {
    if s.sleepers == [] then s else SignalledAll(Signalled(s))
  }

  /** The node of `t` is queued and the mutex released. */
  ghost function WaitQueued<T>(s: State<T>, t: T, timed: bool): State<T> {
    Unlocked(s.(sleepers := [t] + s.sleepers, pc := s.pc[t := InWait(timed)],
                since := s.since[t := s.clock], clock := s.clock + 1), t)
  }

  /** `hev_task_cond_wait` and `timedwait` up to the first yield; with no time left the second locks at once. */
  ghost function WaitBegun<T>(s: State<T>, t: T, timed: bool, ms: nat): State<T> {
    var u := WaitQueued(s, t, timed);
    if timed && ms == 0 then LockBegun(u, t, true, true) else u.(runnable := u.runnable - {t})
  }

  /** `t` comes back from its yield in the loop of the lock. */
  ghost function LockResumed<T>(s: State<T>, t: T, fromWait: bool, timed: bool): State<T> {
    if s.locker || s.lockers == [] || s.lockers[0] != t then s.(runnable := s.runnable - {t})
    else Acquired(s.(lockers := s.lockers[1..]), t, fromWait, timed)
  }

  /** `t` comes back from its yield in the loop of the wait; `left` is what its sleep returned. */
  ghost function WaitResumed<T>(s: State<T>, t: T, timed: bool, left: nat): State<T> {
    if t !in s.signalled && (!timed || left != 0) then s.(runnable := s.runnable - {t})
    else LockBegun(s, t, true, timed)
  }

  /** Ready to make a call: running outside of the protocol. */
  ghost predicate Free<T>(s: State<T>, t: T) {
    t in s.pc && t in s.runnable && s.pc[t].Outside?
  }

  /** Callers lock only what they do not own, and release or wait only owning the mutex. */
  ghost predicate Enabled<T>(s: State<T>, a: Action<T>) {
    match a
    case Spurious(t) => t in s.pc
    case Lock(t) => Free(s, t) && t !in s.owners
    case TryLock(t) => Free(s, t)
    case Unlock(t) => Free(s, t) && t in s.owners
    case Wait(t) => Free(s, t) && t in s.owners
    case TimedWait(t, _) => Free(s, t) && t in s.owners
    case Signal(t) => Free(s, t)
    case Broadcast(t) => Free(s, t)
    case Resume(t, _) => t in s.pc && t in s.runnable && !s.pc[t].Outside?
  }

  ghost function Next<T>(s: State<T>, a: Action<T>): State<T>
    requires Enabled(s, a)
  {
    match a
    case Spurious(t) => s.(runnable := s.runnable + {t})
    case Lock(t) => LockBegun(s, t, false, false)
    case TryLock(t) => if s.locker then s else Acquired(s, t, false, false)
    case Unlock(t) => Unlocked(s, t)
    case Wait(t) => WaitBegun(s, t, false, 0)
    case TimedWait(t, ms) => WaitBegun(s, t, true, ms)
    case Signal(t) => Signalled(s)
    case Broadcast(t) => SignalledAll(s)
    case Resume(t, left) =>
      match s.pc[t]
      case Locking(fromWait, timed) => LockResumed(s, t, fromWait, timed)
      case InWait(timed) => WaitResumed(s, t, timed, left)
  }

  // ---------- The invariant ----------

  ghost predicate Waits<T>(s: State<T>, t: T) {
    t in s.pc && (s.pc[t].InWait? || (s.pc[t].Locking? && s.pc[t].fromWait))
  }

  /** The flag says whether there is an owner; an owner is alone, and outside of the protocol. */
  ghost predicate Exclusive<T>(s: State<T>) {
    && (s.locker <==> s.owners != {})
    && (forall a, b :: a in s.owners && b in s.owners ==> a == b)
    && (forall a :: a in s.owners ==> a in s.pc && s.pc[a].Outside?)
  }

  /** The list of the mutex holds exactly the tasks in the loop of the lock. */
  ghost predicate Queued<T>(s: State<T>) {
    && NoRepeat(s.lockers)
    && (forall t :: t in s.lockers ==> t in s.pc && s.pc[t].Locking?)
    && (forall t :: t in s.pc && s.pc[t].Locking? ==> t in s.lockers)
  }

  /** A free mutex with waiters has woken the first of them. */
  ghost predicate NoLostUnlock<T>(s: State<T>) {
    !s.locker && s.lockers != [] ==> s.lockers[0] in s.runnable
  }

  /** The list of the condition holds exactly the waits not yet signalled, and a signalled one is running or locking. */
  ghost predicate CondOk<T>(s: State<T>) {
    && NewestFirst(s.sleepers, s.since, s.clock)
    && (forall t :: t in s.sleepers ==> Waits(s, t) && t !in s.signalled)
    && (forall t :: t in s.pc && Waits(s, t) && t !in s.signalled ==> t in s.sleepers)
    && (forall t :: t in s.signalled ==> Waits(s, t))
    && (forall t :: t in s.signalled && s.pc[t].InWait? ==> t in s.runnable)
    && (forall t :: t in s.pc && s.pc[t].Locking? && s.pc[t].fromWait && !s.pc[t].timed ==> t in s.signalled)
  }

  ghost predicate Good<T>(s: State<T>) {
    Exclusive(s) && Queued(s) && NoLostUnlock(s) && CondOk(s)
  }

  ghost predicate Initial<T>(s: State<T>) {
    && !s.locker && s.lockers == [] && s.sleepers == [] && s.signalled == {} && s.owners == {}
    && forall t :: t in s.pc ==> s.pc[t].Outside?
  }

  // ---------- Every step keeps it ----------

  lemma UnlockedGood<T>(s: State<T>, t: T)
    requires Good(s) && t in s.owners
    ensures Good(Unlocked(s, t))
  {
  }

  /** `t` runs, in no lock list, and has all it needs to come back with the lock. */
  ghost predicate Ready<T>(s: State<T>, t: T, fromWait: bool, timed: bool) {
    && t in s.pc && t in s.runnable && t !in s.lockers && t !in s.owners
    && s.pc[t] == (if fromWait then InWait(timed) else Outside)
    && (fromWait && !timed ==> t in s.signalled)
    && Exclusive(s) && Queued(s) && CondOk(s)
  }

  lemma AcquiredGood<T>(s: State<T>, t: T, fromWait: bool, timed: bool)
    requires Ready(s, t, fromWait, timed) && !s.locker
    ensures Good(Acquired(s, t, fromWait, timed)) && Acquired(s, t, fromWait, timed).owners == {t}
    ensures t !in Acquired(s, t, fromWait, timed).sleepers
  {
    hide CondOk;
    AcquiredCond(s, t, fromWait, timed);
  }

  lemma AcquiredCond<T>(s: State<T>, t: T, fromWait: bool, timed: bool)
    requires Ready(s, t, fromWait, timed) && !s.locker
    ensures CondOk(Acquired(s, t, fromWait, timed)) && t !in Acquired(s, t, fromWait, timed).sleepers
  {
    hide Exclusive, Queued, Without;
    WithoutOne(s.sleepers, t, s.since, s.clock);
    var u := Acquired(s, t, fromWait, timed);
    assert forall v :: v != t ==> (Waits(u, v) <==> Waits(s, v));
  }

  lemma LockBegunGood<T>(s: State<T>, t: T, fromWait: bool, timed: bool)
    requires Ready(s, t, fromWait, timed) && NoLostUnlock(s)
    ensures Good(LockBegun(s, t, fromWait, timed))
  {
    if s.locker {
      Pushed(s.lockers, t);
    } else {
      AcquiredGood(s, t, fromWait, timed);
    }
  }

  lemma SignalledGood<T>(s: State<T>)
    requires Good(s)
    ensures Good(Signalled(s))
  {
    if s.sleepers != [] {
      NewestNoRepeat(s.sleepers, s.since, s.clock);
      PoppedFirst(s.sleepers);
    }
  }

  lemma {:induction false} SignalledAllGood<T>(s: State<T>)
    requires Good(s)
    ensures Good(SignalledAll(s))
    decreases |s.sleepers|
  {
    if s.sleepers != [] {
      SignalledGood(s);
      SignalledAllGood(Signalled(s));
    }
  }

  lemma WaitQueuedCond<T>(s: State<T>, t: T, timed: bool)
    requires CondOk(s) && Free(s, t)
    ensures CondOk(WaitQueued(s, t, timed))
  {
    Pushed(s.sleepers, t);
    var v := WaitQueued(s, t, timed);
    assert NewestFirst(v.sleepers, v.since, v.clock);
    assert forall u :: u != t ==> (Waits(v, u) <==> Waits(s, u));
  }

  lemma WaitQueuedGood<T>(s: State<T>, t: T, timed: bool)
    requires Good(s) && Free(s, t) && t in s.owners
    ensures Good(WaitQueued(s, t, timed)) && (timed ==> Ready(WaitQueued(s, t, timed), t, true, true))
  {
    WaitQueuedCond(s, t, timed);
    hide CondOk;
  }

  lemma WaitBegunGood<T>(s: State<T>, t: T, timed: bool, ms: nat)
    requires Good(s) && Free(s, t) && t in s.owners
    ensures Good(WaitBegun(s, t, timed, ms))
  {
    WaitQueuedGood(s, t, timed);
    if timed && ms == 0 {
      LockBegunGood(WaitQueued(s, t, timed), t, true, true);
    }
  }

  /** The head of the queue steps out of it. */
  ghost function Dequeued<T>(s: State<T>, t: T, fromWait: bool, timed: bool): State<T>
    requires s.lockers != []
  {
    s.(lockers := s.lockers[1..], pc := s.pc[t := if fromWait then InWait(timed) else Outside])
  }

  lemma DequeuedCond<T>(s: State<T>, t: T, fromWait: bool, timed: bool)
    requires CondOk(s) && t in s.pc && t in s.runnable && s.pc[t] == Locking(fromWait, timed) && s.lockers != []
    ensures CondOk(Dequeued(s, t, fromWait, timed))
  {
    var u := Dequeued(s, t, fromWait, timed);
    assert forall v :: Waits(u, v) <==> Waits(s, v);
  }

  lemma DequeuedReady<T>(s: State<T>, t: T, fromWait: bool, timed: bool)
    requires Good(s) && t in s.pc && t in s.runnable && s.pc[t] == Locking(fromWait, timed)
    requires s.lockers != [] && s.lockers[0] == t
    ensures Ready(Dequeued(s, t, fromWait, timed), t, fromWait, timed)
  {
    PoppedFirst(s.lockers);
    DequeuedCond(s, t, fromWait, timed);
  }

  lemma StepsOut<T>(s: State<T>, t: T, fromWait: bool, timed: bool)
    requires !s.locker && s.lockers != [] && s.lockers[0] == t
    ensures LockResumed(s, t, fromWait, timed) == Acquired(Dequeued(s, t, fromWait, timed), t, fromWait, timed)
  {
    assert s.pc[t := if fromWait then InWait(timed) else Outside][t := Outside] == s.pc[t := Outside];
  }

  lemma LockResumedGood<T>(s: State<T>, t: T, fromWait: bool, timed: bool)
    requires Good(s) && t in s.pc && t in s.runnable && s.pc[t] == Locking(fromWait, timed)
    ensures Good(LockResumed(s, t, fromWait, timed))
  {
    hide Acquired;
    if !s.locker && s.lockers != [] && s.lockers[0] == t {
      DequeuedReady(s, t, fromWait, timed);
      AcquiredGood(Dequeued(s, t, fromWait, timed), t, fromWait, timed);
      StepsOut(s, t, fromWait, timed);
    }
  }

  lemma WaitResumedGood<T>(s: State<T>, t: T, timed: bool, left: nat)
    requires Good(s) && t in s.pc && t in s.runnable && s.pc[t] == InWait(timed)
    ensures Good(WaitResumed(s, t, timed, left))
  {
    if t in s.signalled || (timed && left == 0) {
      LockBegunGood(s, t, true, timed);
    }
  }

  lemma StepGood<T>(s: State<T>, a: Action<T>)
    requires Good(s) && Enabled(s, a)
    ensures Good(Next(s, a))
  {
    match a
    case Spurious(t) =>
    case Lock(t) => LockBegunGood(s, t, false, false);
    case TryLock(t) =>
      if !s.locker {
        AcquiredGood(s, t, false, false);
      }
    case Unlock(t) => UnlockedGood(s, t);
    case Wait(t) => WaitBegunGood(s, t, false, 0);
    case TimedWait(t, ms) => WaitBegunGood(s, t, true, ms);
    case Signal(t) => SignalledGood(s);
    case Broadcast(t) => SignalledAllGood(s);
    case Resume(t, left) =>
      match s.pc[t] {
        case Locking(fromWait, timed) => LockResumedGood(s, t, fromWait, timed);
        case InWait(timed) => WaitResumedGood(s, t, timed, left);
      }
  }

  // ---------- Whole runs ----------

  ghost predicate IsRun<T>(ss: seq<State<T>>, acts: seq<Action<T>>) {
    && |ss| == |acts| + 1
    && forall i :: 0 <= i < |acts| ==> Enabled(ss[i], acts[i]) && ss[i + 1] == Next(ss[i], acts[i])
  }

  lemma {:induction false} RunGood<T>(ss: seq<State<T>>, acts: seq<Action<T>>, n: nat)
    requires IsRun(ss, acts) && Good(ss[0]) && n < |ss|
    ensures Good(ss[n])
  {
    if n > 0 {
      RunGood(ss, acts, n - 1);
      StepGood(ss[n - 1], acts[n - 1]);
    }
  }

  /**
   In every state of every run: at most one task has the mutex; a free mutex
   with waiters has its first waiter runnable; the waiters of the condition
   are exactly the unsignalled waits, newest first; and a signalled wait is
   runnable or already on its way to the mutex.
   */
  lemma EveryRun<T>(ss: seq<State<T>>, acts: seq<Action<T>>)
    requires IsRun(ss, acts) && Initial(ss[0])
    ensures forall i :: 0 <= i < |ss| ==> Good(ss[i])
  {
    forall i | 0 <= i < |ss|
      ensures Good(ss[i])
    {
      RunGood(ss, acts, i);
    }
  }

  /** Once the woken head of a free mutex runs, and nobody has come before it, it has the mutex. */
  lemma HeadTakes<T>(s: State<T>, left: nat)
    requires Good(s) && !s.locker && s.lockers != []
    ensures Enabled(s, Resume(s.lockers[0], left))
    ensures Next(s, Resume(s.lockers[0], left)).owners == {s.lockers[0]}
    ensures Next(s, Resume(s.lockers[0], left)).lockers == s.lockers[1..]
  {
  }

  /** A signal releases, of all waits not yet signalled, exactly the one that began last. */
  lemma SignalNewest<T>(s: State<T>, t: T)
    requires Good(s) && Enabled(s, Signal(t)) && s.sleepers != []
    ensures
      var n := s.sleepers[0];
      var s' := Next(s, Signal(t));
      && Waits(s, n) && s'.signalled == s.signalled + {n} && n !in s.signalled && n in s'.runnable
      && (forall u :: u in s.pc && Waits(s, u) && u !in s.signalled && u != n ==> s.since[u] < s.since[n] && u in s'.sleepers)
  {
    NewestNoRepeat(s.sleepers, s.since, s.clock);
    PoppedFirst(s.sleepers);
    forall u | u in s.pc && Waits(s, u) && u !in s.signalled && u != s.sleepers[0]
      ensures s.since[u] < s.since[s.sleepers[0]]
    {
      assert u in s.sleepers;
    }
  }

  lemma {:induction false} SignalledAllEach<T>(s: State<T>)
    requires Good(s)
    ensures SignalledAll(s).sleepers == [] && SignalledAll(s).pc == s.pc
    ensures forall t :: t in SignalledAll(s).signalled ==> t in s.signalled || t in s.sleepers
    ensures forall t :: t in s.signalled || t in s.sleepers ==> t in SignalledAll(s).signalled
    ensures forall t :: t in s.sleepers ==> t in SignalledAll(s).runnable
    ensures s.runnable <= SignalledAll(s).runnable
    decreases |s.sleepers|
  {
    if s.sleepers != [] {
      var u := Signalled(s);
      SignalledGood(s);
      SignalledAllEach(u);
      hide Good, NewestFirst, CondOk;
      assert s.sleepers == [s.sleepers[0]] + u.sleepers;
    }
  }

  /** A broadcast leaves no wait unsignalled. */
  lemma BroadcastAll<T>(s: State<T>, t: T)
    requires Good(s) && Enabled(s, Broadcast(t))
    ensures
      var s' := Next(s, Broadcast(t));
      && s'.sleepers == []
      && (forall u :: u in s.pc && Waits(s, u) ==> u in s'.signalled && (s.pc[u].InWait? ==> u in s'.runnable))
      && (forall u :: u in s'.signalled ==> Waits(s, u))
  {
    SignalledAllEach(s);
  }

  /** The step takes the condition node of `t` off the list on behalf of a signal. */
  ghost predicate Released<T>(s: State<T>, a: Action<T>, t: T) {
    (a.Signal? && s.sleepers != [] && s.sleepers[0] == t) || (a.Broadcast? && t in s.sleepers)
  }

  lemma StaysWaiting<T>(s: State<T>, a: Action<T>, t: T)
    requires Good(s) && Enabled(s, a) && Waits(s, t) && Waits(Next(s, a), t)
    ensures t in Next(s, a).signalled <==> t in s.signalled || Released(s, a, t)
  {
    if a.Broadcast? {
      SignalledAllEach(s);
    }
  }

  /** Only a task itself ends its wait. */
  lemma OnlyResumed<T>(s: State<T>, a: Action<T>, t: T)
    requires Good(s) && Enabled(s, a) && Waits(s, t)
    ensures Waits(Next(s, a), t) || (a.Resume? && a.t == t)
  {
    if a.Broadcast? {
      SignalledAllEach(s);
    }
    hide Good, Without;
    if !(a.Resume? && a.t == t) {
      assert t in Next(s, a).pc && Next(s, a).pc[t] == s.pc[t];
    }
  }

  /** What the lock taken at the end of a wait brings: the answer, the mutex, and no place in the list. */
  lemma AcquiredAnswer<T>(s: State<T>, t: T, timed: bool)
    requires Ready(s, t, true, timed) && !s.locker
    ensures
      var s' := Acquired(s, t, true, timed);
      s'.owners == {t} && t !in s'.sleepers && t in s'.result && s'.result[t] == (if t in s.signalled then 0 else -1)
  {
    AcquiredGood(s, t, true, timed);
  }

  lemma Returns<T>(s: State<T>, a: Action<T>, t: T)
    requires Good(s) && Enabled(s, a) && Waits(s, t) && !Waits(Next(s, a), t)
    ensures !Released(s, a, t)
    ensures var s' := Next(s, a);
      s'.owners == {t} && t !in s'.sleepers && t in s'.result && s'.result[t] == (if t in s.signalled then 0 else -1)
  {
    OnlyResumed(s, a, t);
    hide Acquired;
    match s.pc[t]
    case Locking(fromWait, timed) =>
      DequeuedReady(s, t, true, timed);
      AcquiredAnswer(Dequeued(s, t, true, timed), t, timed);
      StepsOut(s, t, true, timed);
    case InWait(timed) => AcquiredAnswer(s, t, timed);
  }

  /**
   A timed wait of 0 ms releases the mutex, takes it again and comes back in
   its first step: nothing can have signalled it, so it answers -1, owning
   the mutex and off the list.
   */
  lemma WaitAnswerAtOnce<T>(s: State<T>, t: T)
    requires Good(s) && Enabled(s, TimedWait(t, 0))
    ensures var s' := Next(s, TimedWait(t, 0));
      s'.pc[t].Outside? && s'.owners == {t} && t !in s'.sleepers && t in s'.result && s'.result[t] == -1
  {
    WaitQueuedGood(s, t, true);
    AcquiredGood(WaitQueued(s, t, true), t, true, true);
  }

  lemma {:induction false} WaitHistory<T>(ss: seq<State<T>>, acts: seq<Action<T>>, t: T, n: nat)
    requires IsRun(ss, acts) && Good(ss[0]) && n < |ss|
    requires forall i :: 0 <= i <= n ==> Waits(ss[i], t)
    requires t !in ss[0].signalled
    ensures t in ss[n].signalled <==> exists k :: 0 <= k < n && Released(ss[k], acts[k], t)
  {
    hide Next;
    if n > 0 {
      assert ss[n - 1 + 1] == Next(ss[n - 1], acts[n - 1]);
      WaitHistory(ss, acts, t, n - 1);
      RunGood(ss, acts, n - 1);
      StaysWaiting(ss[n - 1], acts[n - 1], t);
    }
  }

  /**
   A wait, followed from its start to the step in which it returns: it returns
   0 if a signal or broadcast released it on the way and -1 if none did; it
   returns owning the mutex; and it has left the list.
   */
  lemma WaitAnswer<T>(ss: seq<State<T>>, acts: seq<Action<T>>, t: T)
    requires IsRun(ss, acts) && Good(ss[0]) && |acts| > 0
    requires t !in ss[0].signalled
    requires forall i :: 0 <= i < |acts| ==> Waits(ss[i], t)
    requires !Waits(ss[|acts|], t)
    ensures var last := ss[|acts|];
      && last.owners == {t} && t !in last.sleepers && t in last.result
      && (last.result[t] == 0 || last.result[t] == -1)
      && (last.result[t] == 0 <==> exists k :: 0 <= k < |acts| && Released(ss[k], acts[k], t))
  {
    hide Next;
    var n := |acts| - 1;
    assert ss[n + 1] == Next(ss[n], acts[n]);
    WaitHistory(ss, acts, t, n);
    RunGood(ss, acts, n);
    Returns(ss[n], acts[n], t);
  }
}
