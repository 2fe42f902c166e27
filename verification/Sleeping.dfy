/**
 Sleeps and polls over whole runs of the machine, tied to the time arithmetic
 of `Timer`: when a sleep may end and what it returns, and when the kernel
 may skip a poll.
 */
module Sleeping {
  import opened Common
  import opened Scheduler
  import opened RbShape
  import opened TaskMachine
  import opened Fairness
  import opened Turns
  import Timer

  /** A clock reading as a normalised timespec. */
  function Clock(ns: int): (t: Timer.Timespec)
    ensures Timer.Normal(t) && Timer.Ns(t) == ns
  {
    Timer.Timespec(ns / Timer.GIGA, ns % Timer.GIGA)
  }

  /** When the timer of `t` expires. */
  ghost function Expiry<T>(q: seq<Sleeper<T>>, t: T): Option<int> {
    if q == [] then None else if q[0].task == t then Some(q[0].expire) else Expiry(q[1..], t)
  }

  lemma {:induction false} ExpiryOf<T>(q: seq<Sleeper<T>>, recs: map<T, Rec>, x: Sleeper<T>)
    requires TimersOk(q, recs) && x in q
    ensures Expiry(q, x.task) == Some(x.expire)
  {
    if q[0] != x {
      assert x in q[1..];
      var i :| 0 <= i < |q[1..]| && q[1..][i] == x;
      assert q[i + 1] == x;
      ExpiryOf(q[1..], recs, x);
    }
  }

  lemma {:induction false} ExpiryAsleep<T>(q: seq<Sleeper<T>>, t: T)
    ensures Expiry(q, t).Some? <==> Asleep(q, t)
  {
    if q != [] {
      ExpiryAsleep(q[1..], t);
      if Asleep(q[1..], t) {
        var i :| 0 <= i < |q[1..]| && q[1..][i].task == t;
        assert q[i + 1].task == t;
      }
      if Asleep(q, t) && q[0].task != t {
        var i :| 0 <= i < |q| && q[i].task == t;
        assert q[1..][i - 1].task == t;
      }
    }
  }

  lemma {:induction false} ExpiryQueued<T>(q: seq<Sleeper<T>>, x: Sleeper<T>, t: T)
    requires Expiry(q, x.task).None?
    ensures Expiry(Queue(q, x), t) == if x.task == t then Some(x.expire) else Expiry(q, t)
  {
    if q != [] && !Earlier(x, q[0]) {
      ExpiryQueued(q[1..], x, t);
    }
  }

  lemma {:induction false} ExpiryUnqueued<T>(q: seq<Sleeper<T>>, x: T, t: T)
    requires x != t
    ensures Expiry(Unqueue(q, x), t) == Expiry(q, t)
  {
    if q != [] {
      ExpiryUnqueued(q[1..], x, t);
    }
  }

  /** The sleep of a task is to end when its start and its milliseconds say, in the arithmetic of the source. */
  lemma SleepQueued<T>(m: Machine<T>, ms: nat, addr: int, at: int, ran: nat)
    requires Next(m, Sleep(ms, addr, at, ran)).Some?
    ensures
      var n := Next(m, Sleep(ms, addr, at, ran)).value;
      && n.now == at && n.cached == Some(at)
      && Expiry(n.sleepers, m.sched.current.value) == Some(at + ms * Timer.MEGA)
      && at + ms * Timer.MEGA == Timer.Ns(Timer.AddMs(Clock(at), ms))
      && (forall x :: x in n.sleepers && x.task == m.sched.current.value ==> (x.first <==> n.sleepers[0].task == x.task) && x.addr == addr)
  {
    Timer.AddMsExact(Clock(at), ms);
    var t := m.sched.current.value;
    ExpiryAsleep(m.sleepers, t);
    var x := NewTimer(m, ms, addr, at);
    ExpiryQueued(m.sleepers, x, t);
    QueuedOnce(m.sleepers, x);
    assert Next(m, Sleep(ms, addr, at, ran)).value.sleepers == Queue(m.sleepers, x);
    hide Next, Queue, Wait, Expiry, Earlier;
  }

  /** A timer comes into the queue as it is, is first exactly if it is earlier than the first, and no other one changes. */
  lemma {:induction false} QueuedOnce<T>(q: seq<Sleeper<T>>, x: Sleeper<T>)
    requires !Asleep(q, x.task)
    ensures forall y :: y in Queue(q, x) <==> y == x || y in q
    ensures Queue(q, x)[0].task == x.task <==> q == [] || Earlier(x, q[0])
    ensures forall y :: y in q ==> y.task != x.task
  {
    forall y | y in q
      ensures y.task != x.task
    {
      var i :| 0 <= i < |q| && q[i] == y;
    }
    if q != [] {
      assert q == [q[0]] + q[1..];
      forall i | 0 <= i < |q[1..]|
        ensures q[1..][i].task != x.task
      {
        assert q[1..][i] == q[i + 1];
      }
      QueuedOnce(q[1..], x);
    }
  }

  /** The step wakes `t` by name. */
  ghost predicate Names<T>(a: Action<T>, t: T) {
    a == Wake(t) || (a.Poll? && t in a.events)
  }

  ghost predicate EndsSleepOf<T>(m: Machine<T>, a: Action<T>, t: T) {
    a.SleepEnd? && m.sched.current == Some(t)
  }

  /** The timer of `t` is set to `e`, and it waits or that time has come. */
  ghost predicate SleepsTo<T>(m: Machine<T>, t: T, e: int) {
    Expiry(m.sleepers, t) == Some(e) && t in m.sched.recs && (m.sched.recs[t].state.Waiting? || e <= m.now)
  }

  lemma NowGrows<T>(m: Machine<T>, a: Action<T>, n: Machine<T>)
    requires Next(m, a) == Some(n)
    ensures m.now <= n.now
  {
    hide WakeAll, Wakeup, RunNew, Switch, Wait, Exit, Queue, Unqueue;
  }

  lemma TimerStays<T>(m: Machine<T>, a: Action<T>, n: Machine<T>, t: T)
    requires Next(m, a) == Some(n) && !EndsSleepOf(m, a, t) && Expiry(m.sleepers, t).Some?
    ensures Expiry(n.sleepers, t) == Expiry(m.sleepers, t)
  {
    hide WakeAll, Wakeup, RunNew, Switch, Wait, Exit, Queue, Unqueue, Expiry;
    if a.Sleep? {
      var c := m.sched.current.value;
      ExpiryAsleep(m.sleepers, c);
      var x := NewTimer(m, a.ms, a.addr, a.at);
      ExpiryQueued(m.sleepers, x, t);
    } else if a.SleepEnd? {
      ExpiryUnqueued(m.sleepers, m.sched.current.value, t);
    }
  }

  /** A look at the earliest timer touches only its task, and that only once the timer has expired. */
  lemma CheckTouches<T>(m: Machine<T>, at: int, t: T)
    requires Inv(m.sched) && t in m.sched.recs && Check(m, at).Some?
    ensures t in Check(m, at).value.sched.recs
    ensures Check(m, at).value.sched.recs[t] != m.sched.recs[t] ==> Expiry(m.sleepers, t).Some? && Expiry(m.sleepers, t).value <= at
  {
    if m.sleepers != [] && m.sleepers[0].expire <= at {
      WakeupExact(m.sched, m.sleepers[0].task);
    }
  }

  lemma PollTouches<T>(m: Machine<T>, a: Action<T>, n: Machine<T>, t: T)
    requires Good(m) && Next(m, a) == Some(n) && a.Poll? && t in m.sched.recs && t !in a.events
    ensures t in n.sched.recs
    ensures n.sched.recs[t] != m.sched.recs[t] ==> Expiry(m.sleepers, t).Some? && Expiry(m.sleepers, t).value <= n.now
  {
    PollWakes(m, a.due, a.events, a.at, a.rearm, t);
    hide WakeAll, Check;
  }

  /** A task that is not named and whose own turn it is not stays as it is as long as its timer has not expired. */
  lemma Undisturbed<T>(m: Machine<T>, a: Action<T>, n: Machine<T>, t: T)
    requires Good(m) && Next(m, a) == Some(n) && !Names(a, t) && t in m.sched.recs && m.sched.recs[t].state.Waiting?
    ensures t in n.sched.recs
    ensures n.sched.recs[t].state.Waiting? || (Expiry(m.sleepers, t).Some? && Expiry(m.sleepers, t).value <= n.now)
  {
    hide WakeAll, Wakeup, RunNew, Switch, Wait, Exit, Queue, Check, Inv, Expiry;
    StepExact(m, a, n, t);
    NotInControl(m, a, t);
    if Ends(a) {
      OthersLeft(m, a, n, t);
    } else if a.Poll? {
      PollTouches(m, a, n, t);
    } else if a.SleepEnd? {
      EndTouches(m, a, n, t);
    } else if a.Wake? {
      WakesOther(m.sched, a.task, t);
    } else if a.Run? {
      RunsOther(m.sched, a.task, t);
    }
  }

  lemma WakesOther<T>(s: Sched<T>, x: T, t: T)
    requires Inv(s) && x in s.recs && t in s.recs && x != t
    ensures Wakeup(s, x).Some? ==> t in Wakeup(s, x).value.recs && Wakeup(s, x).value.recs[t] == s.recs[t]
  {
  }

  lemma RunsOther<T>(s: Sched<T>, x: T, t: T)
    requires x in s.recs && t in s.recs && s.recs[t].state.Waiting?
    ensures t in RunNew(s, x).recs && RunNew(s, x).recs[t] == s.recs[t]
  {
  }

  lemma EndTouches<T>(m: Machine<T>, a: Action<T>, n: Machine<T>, t: T)
    requires Good(m) && Next(m, a) == Some(n) && a.SleepEnd? && t in m.sched.recs && m.sched.recs[t].state.Waiting?
    ensures t in n.sched.recs
    ensures n.sched.recs[t] != m.sched.recs[t] ==> Expiry(m.sleepers, t).Some? && Expiry(m.sleepers, t).value <= n.now
  {
    InTaskFirst(m);
    var c := m.sched.current.value;
    ExpiryUnqueued(m.sleepers, c, t);
    UnqueueKeeps(m.sleepers, c, m.sched.recs);
    var u := m.(sleepers := Unqueue(m.sleepers, c), now := a.at);
    CheckKeeps(u, a.at);
    CheckTouches(u, a.at, t);
    hide Check, Unqueue, Expiry, Inv, TimersOk;
  }

  lemma SleeperStep<T>(m: Machine<T>, a: Action<T>, n: Machine<T>, t: T, e: int)
    requires Good(m) && Next(m, a) == Some(n) && SleepsTo(m, t, e) && !Names(a, t) && !EndsSleepOf(m, a, t)
    ensures SleepsTo(n, t, e)
  {
    hide Next, Good, Expiry;
    NowGrows(m, a, n);
    TimerStays(m, a, n, t);
    StepExact(m, a, n, t);
    if m.sched.recs[t].state.Waiting? {
      Undisturbed(m, a, n, t);
    }
  }

  // ---------- Over runs ----------

  /** `t` goes to sleep at step `i`, and step `j` is the end of that sleep. */
  ghost predicate SleepsFromTo<T>(tr: seq<Machine<T>>, acts: seq<Action<T>>, i: nat, j: nat, t: T) {
    && IsRun(tr, acts) && Good(tr[0]) && i < j < |acts|
    && acts[i].Sleep? && tr[i].sched.current == Some(t) && EndsSleepOf(tr[j], acts[j], t)
    && (forall k :: i < k < j ==> !EndsSleepOf(tr[k], acts[k], t))
  }

  lemma SleepStarts<T>(tr: seq<Machine<T>>, acts: seq<Action<T>>, i: nat, t: T)
    requires IsRun(tr, acts) && Good(tr[0]) && i < |acts| && acts[i].Sleep? && tr[i].sched.current == Some(t)
    ensures SleepsTo(tr[i + 1], t, acts[i].at + acts[i].ms * Timer.MEGA) && tr[i + 1].now == acts[i].at
  {
    RunGood(tr, acts, i);
    assert Next(tr[i], acts[i]) == Some(tr[i + 1]);
    InTaskFirst(tr[i]);
    StepExact(tr[i], acts[i], tr[i + 1], t);
    SleepQueued(tr[i], acts[i].ms, acts[i].addr, acts[i].at, acts[i].ran);
    hide Good, Expiry, Queue, Wait;
  }

  lemma {:induction false} TimerKept<T>(tr: seq<Machine<T>>, acts: seq<Action<T>>, i: nat, j: nat, t: T)
    requires IsRun(tr, acts) && Good(tr[0]) && i <= j < |tr| && Expiry(tr[i].sleepers, t).Some?
    requires forall k :: i <= k < j ==> !EndsSleepOf(tr[k], acts[k], t)
    ensures Expiry(tr[j].sleepers, t) == Expiry(tr[i].sleepers, t) && tr[i].now <= tr[j].now
    decreases j - i
  {
    hide Next, Good, Expiry;
    if i < j {
      TimerKept(tr, acts, i, j - 1, t);
      assert Next(tr[j - 1], acts[j - 1]) == Some(tr[j]);
      TimerStays(tr[j - 1], acts[j - 1], tr[j], t);
      NowGrows(tr[j - 1], acts[j - 1], tr[j]);
    }
  }

  lemma {:induction false} SleepsOn<T>(tr: seq<Machine<T>>, acts: seq<Action<T>>, i: nat, j: nat, t: T, e: int)
    requires IsRun(tr, acts) && Good(tr[0]) && i <= j < |tr| && SleepsTo(tr[i], t, e)
    requires forall k :: i <= k < j ==> !EndsSleepOf(tr[k], acts[k], t) && !Names(acts[k], t)
    ensures SleepsTo(tr[j], t, e)
    decreases j - i
  {
    hide Next, Good, Expiry;
    if i < j {
      SleepsOn(tr, acts, i, j - 1, t, e);
      RunGood(tr, acts, j - 1);
      assert Next(tr[j - 1], acts[j - 1]) == Some(tr[j]);
      SleeperStep(tr[j - 1], acts[j - 1], tr[j], t, e);
    }
  }

  /** A sleep that nothing else wakes never ends before its milliseconds have passed. */
  lemma NeverEarly<T>(tr: seq<Machine<T>>, acts: seq<Action<T>>, i: nat, j: nat, t: T)
    requires SleepsFromTo(tr, acts, i, j, t)
    requires forall k :: i < k < j ==> !Names(acts[k], t)
    ensures acts[i].at + acts[i].ms * 1000000 <= acts[j].at
  {
    hide Good, Expiry;
    SleepStarts(tr, acts, i, t);
    SleepsOn(tr, acts, i + 1, j, t, acts[i].at + acts[i].ms * Timer.MEGA);
    RunGood(tr, acts, j);
    assert Next(tr[j], acts[j]) == Some(tr[j + 1]);
    InTaskFirst(tr[j]);
    hide Next, Check;
  }

  /** What `hev_task_sleep` returns to the task in control, at a reading of the clock. */
  ghost function SleepAnswer<T>(m: Machine<T>, at: int): nat
    requires m.sched.current.Some? && Expiry(m.sleepers, m.sched.current.value).Some?
  {
    Timer.Remaining(Clock(at), Clock(Expiry(m.sleepers, m.sched.current.value).value))
  }

  /**
   A sleep of any 32-bit number of milliseconds, however it ended, returns
   what is left of it, rounded up: never more than was asked for, and 0
   exactly when all of it has passed.
   */
  lemma SleepAnswers<T>(tr: seq<Machine<T>>, acts: seq<Action<T>>, i: nat, j: nat, t: T)
    requires SleepsFromTo(tr, acts, i, j, t) && acts[i].ms < 0x1_0000_0000
    ensures Expiry(tr[j].sleepers, t).Some?
    ensures
      var left := acts[i].at + acts[i].ms * 1000000 - acts[j].at;
      && SleepAnswer(tr[j], acts[j].at) == Timer.CeilMs(left) <= acts[i].ms
      && (SleepAnswer(tr[j], acts[j].at) == 0 <==> left <= 0)
  {
    hide Next, Good, Expiry, Timer.Remaining, Timer.CeilMs;
    SleepStarts(tr, acts, i, t);
    TimerKept(tr, acts, i + 1, j, t);
    assert Next(tr[j], acts[j]) == Some(tr[j + 1]);
    EndReads(tr[j], acts[j], tr[j + 1]);
    LeftOfSleep(acts[i].at, acts[i].ms, acts[j].at);
  }

  lemma EndReads<T>(m: Machine<T>, a: Action<T>, n: Machine<T>)
    requires Next(m, a) == Some(n) && a.SleepEnd?
    ensures m.now <= a.at
  {
  }

  lemma LeftOfSleep(start: int, ms: nat, at: int)
    requires start <= at && ms < 0x1_0000_0000
    ensures
      var left, answer := start + ms * Timer.MEGA - at, Timer.Remaining(Clock(at), Clock(start + ms * Timer.MEGA));
      answer == Timer.CeilMs(left) <= ms && (answer == 0 <==> left <= 0)
  {
    Timer.RemainingExact(Clock(at), Clock(start + ms * Timer.MEGA));
    Timer.CeilMsWhole(ms, at - start);
    Timer.CeilMsBounds(start + ms * Timer.MEGA - at);
  }

  /** The end of a sleep leaves the task without a timer, free to go on. */
  lemma SleepOver<T>(m: Machine<T>, at: int)
    requires Good(m) && Next(m, SleepEnd(at)).Some?
    ensures
      var n := Next(m, SleepEnd(at)).value;
      n.sched.current == m.sched.current && Expiry(n.sleepers, m.sched.current.value).None? && Free(n)
  {
    InTaskFirst(m);
    var c := m.sched.current.value;
    UnqueueKeeps(m.sleepers, c, m.sched.recs);
    CheckKeeps(m.(sleepers := Unqueue(m.sleepers, c), now := at), at);
    ExpiryAsleep(Unqueue(m.sleepers, c), c);
    hide Check, Unqueue, Expiry, Inv, TimersOk;
  }

  /** So a sleep that nothing else wakes returns 0. */
  lemma UndisturbedAnswer<T>(tr: seq<Machine<T>>, acts: seq<Action<T>>, i: nat, j: nat, t: T)
    requires SleepsFromTo(tr, acts, i, j, t) && acts[i].ms < 0x1_0000_0000
    requires forall k :: i < k < j ==> !Names(acts[k], t)
    ensures Expiry(tr[j].sleepers, t).Some? && SleepAnswer(tr[j], acts[j].at) == 0
  {
    hide Next, Good, Expiry;
    NeverEarly(tr, acts, i, j, t);
    SleepAnswers(tr, acts, i, j, t);
  }

  // ---------- The order of the timers ----------

  /** By expiry, and by address where that is the same. */
  ghost predicate InOrder<T>(q: seq<Sleeper<T>>) {
    forall i, j :: 0 <= i < j < |q| ==> q[i].expire < q[j].expire || (q[i].expire == q[j].expire && q[i].addr <= q[j].addr)
  }

  lemma {:induction false} QueueInOrder<T>(q: seq<Sleeper<T>>, x: Sleeper<T>)
    requires InOrder(q)
    ensures InOrder(Queue(q, x))
    ensures forall y :: y in Queue(q, x) ==> y == x || y in q
  {
    if q != [] && !Earlier(x, q[0]) {
      assert forall i :: 0 <= i < |q[1..]| ==> q[1..][i] == q[i + 1];
      QueueInOrder(q[1..], x);
      var r := Queue(q[1..], x);
      forall i | 0 <= i < |r|
        ensures q[0].expire < r[i].expire || (q[0].expire == r[i].expire && q[0].addr <= r[i].addr)
      {
        assert r[i] in r;
        if r[i] != x { assert r[i] in q[1..]; }
      }
    }
  }

  lemma {:induction false} UnqueueInOrder<T>(q: seq<Sleeper<T>>, t: T)
    requires InOrder(q)
    ensures InOrder(Unqueue(q, t))
    ensures forall y :: y in Unqueue(q, t) ==> y in q
  {
    if q != [] {
      assert forall i :: 0 <= i < |q[1..]| ==> q[1..][i] == q[i + 1];
      UnqueueInOrder(q[1..], t);
      var r := Unqueue(q[1..], t);
      forall i | 0 <= i < |r|
        ensures q[0].expire < r[i].expire || (q[0].expire == r[i].expire && q[0].addr <= r[i].addr)
      {
        assert r[i] in r;
        assert r[i] in q[1..];
      }
    }
  }

  lemma TimersStep<T>(m: Machine<T>, a: Action<T>, n: Machine<T>)
    requires Next(m, a) == Some(n) && InOrder(m.sleepers)
    ensures InOrder(n.sleepers)
  {
    hide WakeAll, Wakeup, RunNew, Switch, Wait, Exit, Queue, Unqueue, InOrder;
    if a.Sleep? {
      var c := m.sched.current.value;
      var x := NewTimer(m, a.ms, a.addr, a.at);
      QueueInOrder(m.sleepers, x);
    } else if a.SleepEnd? {
      UnqueueInOrder(m.sleepers, m.sched.current.value);
    }
  }

  /** In every state of every run the timers stand in the order in which they expire, the same expiry by address. */
  lemma {:induction false} TimersInOrder<T>(tr: seq<Machine<T>>, acts: seq<Action<T>>, n: nat)
    requires IsRun(tr, acts) && Initial(tr[0]) && n < |tr|
    ensures InOrder(tr[n].sleepers)
  {
    hide Next, InOrder;
    if n > 0 {
      TimersInOrder(tr, acts, n - 1);
      assert Next(tr[n - 1], acts[n - 1]) == Some(tr[n]);
      TimersStep(tr[n - 1], acts[n - 1], tr[n]);
    } else {
      NoTimers<T>();
    }
  }

  lemma NoTimers<T>()
    ensures InOrder<T>([])
  {
  }

  /** The reading that the last sleep made, if no poll came after it. */
  ghost function LastReading<T>(acts: seq<Action<T>>, n: nat): Option<int>
    requires n <= |acts|
  {
    if n == 0 then None
    else if acts[n - 1].Sleep? then Some(acts[n - 1].at)
    else if acts[n - 1].Poll? then None
    else LastReading(acts, n - 1)
  }

  /** The cached reading is that of the last sleep since the last poll, and no older one. */
  lemma {:induction false} CachedIs<T>(tr: seq<Machine<T>>, acts: seq<Action<T>>, n: nat)
    requires IsRun(tr, acts) && Initial(tr[0]) && n < |tr|
    ensures tr[n].cached == LastReading(acts, n)
  {
    hide Next;
    if n > 0 {
      CachedIs(tr, acts, n - 1);
      assert Next(tr[n - 1], acts[n - 1]) == Some(tr[n]);
      CachedStep(tr[n - 1], acts[n - 1], tr[n]);
    }
  }

  lemma CachedStep<T>(m: Machine<T>, a: Action<T>, n: Machine<T>)
    requires Next(m, a) == Some(n)
    ensures n.cached == if a.Sleep? then Some(a.at) else if a.Poll? then None else m.cached
  {
    hide WakeAll, Wakeup, RunNew, Switch, Wait, Exit, Queue, Unqueue;
  }

  // ---------- Polls ----------

  /** When the last poll of the first `n` steps set its deadline, if there was one. */
  ghost function LastPoll<T>(acts: seq<Action<T>>, n: nat): Option<int>
    requires n <= |acts|
  {
    if n == 0 then None else if acts[n - 1].Poll? then Some(acts[n - 1].rearm) else LastPoll(acts, n - 1)
  }

  lemma {:induction false} DeadlineIs<T>(tr: seq<Machine<T>>, acts: seq<Action<T>>, n: nat)
    requires IsRun(tr, acts) && n < |tr|
    ensures tr[n].deadline == if LastPoll(acts, n).Some? then LastPoll(acts, n).value + 50000 else tr[0].deadline
  {
    hide Next;
    if n > 0 {
      DeadlineIs(tr, acts, n - 1);
      assert Next(tr[n - 1], acts[n - 1]) == Some(tr[n]);
      DeadlineStep(tr[n - 1], acts[n - 1], tr[n]);
    }
  }

  lemma DeadlineStep<T>(m: Machine<T>, a: Action<T>, n: Machine<T>)
    requires Next(m, a) == Some(n)
    ensures n.deadline == if a.Poll? then a.rearm + 50000 else m.deadline
  {
    hide WakeAll, Wakeup, RunNew, Switch, Wait, Exit, Queue, Unqueue;
  }

  /** No poll is due at this reading: the deadline is ahead, and every timer expires after it. */
  ghost predicate Quiet<T>(m: Machine<T>, at: int, deadline: int) {
    at < deadline && forall i :: 0 <= i < |m.sleepers| ==> deadline < m.sleepers[i].expire
  }

  lemma PassChoice<T>(m: Machine<T>, at: int)
    requires Good(m) && m.mode == Kernel(false) && m.now <= at
    ensures Next(m, NoPoll).Some? <==> m.sched.running == m.sched.total
    ensures Next(m, Throttled(at)).Some? <==> 0 < m.sched.running < m.sched.total && Quiet(m, at, m.deadline)
    ensures Next(m, Poll(at, [], at, at)).Some? <==> m.sched.running < m.sched.total && !(0 < m.sched.running && Quiet(m, at, m.deadline))
  {
    Passes(m, at);
    CheckKeeps(m.(cached := None), at);
    DueExactly(m, at);
    Counts(m.sched);
    hide Next, Check, Due, Inv, InState, TimersOk, Quiet;
  }

  /**
   A kernel pass does exactly one of three things: it does not poll when no
   task waits, it skips its poll when some task can run, the last poll was
   less than 50 us ago and no timer expires within those, and else it polls.
   */
  lemma PassExactly<T>(tr: seq<Machine<T>>, acts: seq<Action<T>>, n: nat, at: int)
    requires IsRun(tr, acts) && Initial(tr[0]) && n < |tr| && tr[n].mode == Kernel(false) && tr[n].now <= at
    ensures
      var m, waiting := tr[n], InState(tr[n].sched.recs, Waiting);
      var skips := m.sched.ready != [] && Quiet(m, at, if LastPoll(acts, n).Some? then LastPoll(acts, n).value + 50000 else tr[0].deadline);
      && (Next(m, NoPoll).Some? <==> waiting == {})
      && (Next(m, Throttled(at)).Some? <==> waiting != {} && skips)
      && (Next(m, Poll(at, [], at, at)).Some? <==> waiting != {} && !skips)
  {
    InitialGood(tr[0]);
    RunGood(tr, acts, n);
    DeadlineIs(tr, acts, n);
    Counts(tr[n].sched);
    PassChoice(tr[n], at);
    RunningCount(tr[n].sched);
    hide Next, Good, InState, Quiet;
  }

  lemma RunningCount<T>(s: Sched<T>)
    requires Inv(s)
    ensures 0 <= s.running && (0 < s.running <==> s.ready != [])
    ensures s.running <= s.total && (s.running == s.total <==> InState(s.recs, Waiting) == {})
  {
    Counts(s);
  }

  lemma DueExactly<T>(m: Machine<T>, at: int)
    requires TimersOk(m.sleepers, m.sched.recs)
    ensures !Due(m, at) <==> Quiet(m, at, m.deadline)
  {
  }

  /**
   With nothing to run, a poll that lasts as long as its timeout, computed from
   any reading not after its start, and brings no event has woken the
   earliest sleeper: the kernel does not poll again for it.
   */
  lemma TimedOutPollWakes<T>(m: Machine<T>, reading: int, due: int, at: int, rearm: int)
    requires Good(m) && m.sleepers != [] && reading <= due && Next(m, Poll(due, [], at, rearm)).Some?
    requires Timer.CeilMs(m.sleepers[0].expire - reading) < 0x8000_0000
    requires due + Timer.Timeout(Clock(reading), Clock(m.sleepers[0].expire)) * Timer.MEGA <= at
    ensures
      var n := Next(m, Poll(due, [], at, rearm)).value;
      n.mode == Kernel(true) && n.sched.recs[m.sleepers[0].task].state.Running?
  {
    Timer.PollNotBeforeExpiry(Clock(reading), Clock(due), Clock(m.sleepers[0].expire));
    CheckKeeps(m.(cached := None), at);
    var u := Check(m.(cached := None), at).value;
    assert m.sleepers[0].task in u.sched.ready;
    hide Check, Alive;
  }
}
