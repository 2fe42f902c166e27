/**
 What a task pays for its turns and where it comes back, over whole runs: the
 key a waiting task keeps, the key a woken or new task enters with, and the
 priority its turns are charged at.
 */
module Turns {
  import opened Common
  import opened Scheduler
  import opened KeyOrder
  import opened RbShape
  import opened TaskMachine
  import opened Fairness

  ghost predicate Waits<T>(a: Action<T>) {
    a.WaitIo? || a.Sleep?
  }

  /** The step ends a turn of `t`. */
  ghost predicate EndsTurnOf<T>(m: Machine<T>, a: Action<T>, t: T) {
    Ends(a) && m.sched.current == Some(t)
  }

  /** The priority that `t` will be given next, after a step. */
  ghost function SetTo<T>(a: Action<T>, t: T, next: nat): nat {
    if a.SetPrio? && a.task == t then Clamp(a.priority) else next
  }

  // ---------- One operation ----------

  /** The smallest key is that of a queued task, and no queued task has a smaller one; 0 stands for an empty queue. */
  lemma MinKeyExact<T>(s: Sched<T>)
    requires Inv(s)
    ensures s.ready == [] ==> MinKey(s) == 0
    ensures s.ready != [] ==> exists t :: t in s.ready && s.recs[t].key == MinKey(s)
    ensures forall t :: t in s.ready ==> MinKey(s) <= s.recs[t].key
  {
    if s.ready != [] {
      assert s.ready[0] in s.ready;
    }
    forall t | t in s.ready
      ensures MinKey(s) <= s.recs[t].key
    {
      HeadLeast(s, t);
    }
  }

  /** `t`, which waited with key `p`, is in the queue of `r`, charged from now on at its next priority. */
  ghost predicate Entered<T>(s: Sched<T>, r: Sched<T>, t: T, p: nat) {
    && t in s.recs && t in r.recs && r.ready != []
    && r.recs[t].state.Running? && r.recs[t].priority == s.recs[t].next == r.recs[t].next
    && (if s.ready != [] then r.recs[t].key == MinKey(s) + p && MinKey(r) == MinKey(s)
        else r.recs[t].key == MinKey(r) + p || r.recs[t].key == p == MinKey(r))
  }

  /** The smallest key stays, unless the queue was empty, and no other task is touched. */
  lemma WakeupExact<T>(s: Sched<T>, x: T)
    requires Inv(s) && x in s.recs && Wakeup(s, x).Some?
    ensures
      var r := Wakeup(s, x).value;
      && Inv(r) && (s.ready != [] ==> r.ready != [] && MinKey(r) == MinKey(s))
      && (s.recs[x].state.Waiting? ==> Entered(s, r, x, s.recs[x].key))
      && (forall t :: t in s.recs && (t != x || s.recs[t].state.Running?) ==> t in r.recs && r.recs[t] == s.recs[t])
  {
    WakeupInv(s, x);
    var r := Wakeup(s, x).value;
    if s.recs[x].state.Waiting? && s.ready != [] {
      assert s.ready[0] in s.ready;
      assert r.ready[0] == s.ready[0];
    }
  }

  lemma {:induction false} WakeAllExact<T>(s: Sched<T>, events: seq<T>, t: T)
    requires Inv(s) && WakeAll(s, events).Some? && t in s.recs
    ensures
      var r := WakeAll(s, events).value;
      && Inv(r) && t in r.recs && (s.ready != [] ==> r.ready != [] && MinKey(r) == MinKey(s))
      && (s.recs[t].state.Running? || t !in events ==> r.recs[t] == s.recs[t])
      && (t in events ==> r.recs[t].state.Running?)
      && (s.recs[t].state.Waiting? && t in events ==> Entered(s, r, t, s.recs[t].key))
    decreases |events|
  {
    if events != [] {
      hide Inv, MinKey;
      var u := Wakeup(s, events[0]).value;
      WakeupExact(s, events[0]);
      WakeAllExact(u, events[1..], t);
    }
  }

  /** After a poll every task it had events for is runnable, and every other task but the earliest sleeper is as it was. */
  lemma PollWakes<T>(m: Machine<T>, due: int, events: seq<T>, at: int, rearm: int, t: T)
    requires Good(m) && Next(m, Poll(due, events, at, rearm)).Some? && t in m.sched.recs
    ensures
      var n := Next(m, Poll(due, events, at, rearm)).value;
      && t in n.sched.recs
      && (t in events ==> n.sched.recs[t].state.Running?)
      && (t !in events && (m.sleepers == [] || m.sleepers[0].task != t || at < m.sleepers[0].expire) ==> n.sched.recs[t] == m.sched.recs[t])
  {
    WakeAllExact(m.sched, events, t);
    var s := WakeAll(m.sched, events).value;
    if m.sleepers != [] && m.sleepers[0].expire <= at {
      WakeupExact(s, m.sleepers[0].task);
    }
    hide Inv;
  }

  /** From `s` to `r` a task is as it was, but for the priority to come, or it has entered the queue. */
  ghost predicate LeftOrEntered<T>(s: Sched<T>, r: Sched<T>, t: T, next: nat) {
    && t in s.recs && t in r.recs && r.recs[t].next == next
    && (s.recs[t].state.Running? ==> r.recs[t] == s.recs[t].(next := next))
    && (s.recs[t].state.Waiting? ==> r.recs[t] == s.recs[t].(next := next) || Entered(s, r, t, s.recs[t].key))
    && (s.recs[t].state.Stopped? ==> r.recs[t] == s.recs[t].(next := next) || Launched(s, r, t))
  }

  /** A new task: behind the smallest key by its priority, or at its priority before the system runs. */
  ghost predicate Launched<T>(s: Sched<T>, r: Sched<T>, t: T) {
    && t in s.recs && t in r.recs && r.ready != []
    && r.recs[t] == Rec(Running, s.recs[t].next + (if s.current.Some? then MinKey(s) else 0), s.recs[t].next, s.recs[t].next)
    && (s.current.Some? && s.ready != [] ==> MinKey(r) == MinKey(s))
  }

  lemma RunNewExact<T>(s: Sched<T>, x: T, t: T)
    requires Inv(s) && x in s.recs && t in s.recs
    ensures LeftOrEntered(s, RunNew(s, x), t, s.recs[t].next)
    ensures t == x && s.recs[t].state.Stopped? ==> Launched(s, RunNew(s, x), t)
  {
    var r := RunNew(s, x);
    if s.recs[x].state.Stopped? && s.ready != [] {
      assert s.ready[0] in s.ready;
    }
  }

  /** What its own turn's end does to the record of a task. */
  ghost function TurnEnd<T>(r: Rec, a: Action<T>): Rec
    requires Ends(a)
  {
    match a
    case Yield(ran) => Rec(Running, r.key + ran * r.priority, r.next, r.next)
    case WaitIo(_) => Rec(Waiting, r.next, r.priority, r.next)
    case Sleep(_, _, _, _) => Rec(Waiting, r.next, r.priority, r.next)
    case Leave => r.(state := Stopped)
  }

  lemma TurnEndExact<T>(m: Machine<T>, a: Action<T>, n: Machine<T>, t: T)
    requires Next(m, a) == Some(n) && Ends(a) && t in m.sched.recs && m.sched.recs[t].state.Running?
    ensures t in n.sched.recs
    ensures n.sched.recs[t] == if m.sched.current == Some(t) then TurnEnd(m.sched.recs[t], a) else m.sched.recs[t]
  {
    hide Stable, Without, Queue;
  }

  lemma OthersLeft<T>(m: Machine<T>, a: Action<T>, n: Machine<T>, t: T)
    requires Next(m, a) == Some(n) && Ends(a) && t in m.sched.recs && m.sched.current != Some(t)
    ensures t in n.sched.recs && n.sched.recs[t] == m.sched.recs[t]
  {
    hide Stable, Without, Queue;
  }

  lemma CheckExact<T>(m: Machine<T>, at: int, t: T)
    requires Inv(m.sched) && t in m.sched.recs
    ensures Check(m, at).Some? ==> LeftOrEntered(m.sched, Check(m, at).value.sched, t, m.sched.recs[t].next)
  {
    hide Wakeup, Inv, MinKey;
    if m.sleepers != [] && m.sleepers[0].task in m.sched.recs {
      WakeupLeaves(m.sched, m.sleepers[0].task, t);
    }
  }

  lemma WakeupLeaves<T>(s: Sched<T>, x: T, t: T)
    requires Inv(s) && x in s.recs && t in s.recs
    ensures Wakeup(s, x).Some? ==> LeftOrEntered(s, Wakeup(s, x).value, t, s.recs[t].next)
  {
    if Wakeup(s, x).Some? {
      WakeupExact(s, x);
    }
  }

  lemma PollExact<T>(m: Machine<T>, due: int, events: seq<T>, at: int, rearm: int, t: T)
    requires Good(m) && Next(m, Poll(due, events, at, rearm)).Some? && t in m.sched.recs
    ensures LeftOrEntered(m.sched, Next(m, Poll(due, events, at, rearm)).value.sched, t, m.sched.recs[t].next)
  {
    WakeAllExact(m.sched, events, t);
    if m.sched.recs[t].state.Stopped? {
      WakeAllStopped(m.sched, events, t);
    }
    var s := WakeAll(m.sched, events).value;
    hide Inv, MinKey, Wakeup, WakeAll;
    if m.sleepers != [] && m.sleepers[0].expire <= at {
      ThenWakeup(m.sched, s, m.sleepers[0].task, t);
    }
  }

  lemma ThenWakeup<T>(s: Sched<T>, u: Sched<T>, x: T, t: T)
    requires Inv(s) && Inv(u) && x in u.recs && Wakeup(u, x).Some? && t in s.recs
    requires LeftOrEntered(s, u, t, s.recs[t].next) && (s.ready != [] ==> u.ready != [] && MinKey(u) == MinKey(s))
    requires s.recs[t].state.Stopped? ==> u.recs[t] == s.recs[t]
    ensures LeftOrEntered(s, Wakeup(u, x).value, t, s.recs[t].next)
  {
    WakeupExact(u, x);
    hide Inv, MinKey;
  }

  lemma {:induction false} WakeAllStopped<T>(s: Sched<T>, events: seq<T>, t: T)
    requires Inv(s) && WakeAll(s, events).Some? && t in s.recs && s.recs[t].state.Stopped?
    ensures t !in events
    decreases |events|
  {
    if events != [] {
      WakeupExact(s, events[0]);
      hide Inv;
      if events[0] != t {
        WakeAllStopped(Wakeup(s, events[0]).value, events[1..], t);
      }
    }
  }

  lemma InTaskFirst<T>(m: Machine<T>)
    requires Good(m) && m.mode.InTask?
    ensures Inv(m.sched) && m.sched.ready != [] && m.sched.current.Some?
    ensures m.sched.current.value in m.sched.recs && m.sched.recs[m.sched.current.value].state.Running?
  {
    assert m.sched.ready[0] in m.sched.ready;
  }

  /**
   One step of the machine, seen by one task: the end of its own turn charges
   it at its priority, or sends it off to wait at its next one; any other step
   leaves it alone but for a priority set for later, or brings it into the queue.
   */
  lemma StepExact<T>(m: Machine<T>, a: Action<T>, n: Machine<T>, t: T)
    requires Good(m) && Next(m, a) == Some(n) && t in m.sched.recs
    ensures t in n.sched.recs
    ensures if EndsTurnOf(m, a, t) then n.sched.recs[t] == TurnEnd(m.sched.recs[t], a)
            else LeftOrEntered(m.sched, n.sched, t, SetTo(a, t, m.sched.recs[t].next))
  {
    hide Wakeup, RunNew, WakeAll, Check, Switch, Wait, Exit, Inv, MinKey;
    var s := m.sched;
    if Ends(a) {
      InTaskFirst(m);
      if s.current == Some(t) { TurnEndExact(m, a, n, t); } else { OthersLeft(m, a, n, t); }
    } else if a.Poll? {
      PollExact(m, a.due, a.events, a.at, a.rearm, t);
    } else if a.SleepEnd? {
      CheckExact(m.(sleepers := Unqueue(m.sleepers, s.current.value), now := a.at), a.at, t);
    } else if a.Run? {
      RunNewExact(s, a.task, t);
    } else if a.Wake? {
      WakeupLeaves(s, a.task, t);
    }
  }

  /** What each call makes of the task it is about: that task runs, waits or has ended. */
  lemma CallsDo<T>(m: Machine<T>, a: Action<T>, n: Machine<T>)
    requires Good(m) && Next(m, a) == Some(n)
    ensures a.Wake? ==> a.task in n.sched.recs && n.sched.recs[a.task].state.Running?
    ensures a.Run? ==>
      && a.task in m.sched.recs && a.task in n.sched.recs
      && (if m.sched.recs[a.task].state.Stopped? then n.sched.recs[a.task].state.Running? && n.sched.total == m.sched.total + 1
          else n.sched.recs[a.task] == m.sched.recs[a.task] && n.sched.total == m.sched.total)
    ensures Ends(a) ==>
      && m.sched.current.Some? && m.sched.current.value in n.sched.recs
      && n.sched.recs[m.sched.current.value].state == (if a.Leave? then Stopped else if a.Yield? then Running else Waiting)
      && n.sched.total == m.sched.total - (if a.Leave? then 1 else 0)
  {
    hide Stable, Without, Queue, Inv;
    if Ends(a) {
      InTaskFirst(m);
    }
  }

  // ---------- Over runs ----------

  /** The priority last set for `t` in the first `n` steps, or the one it had at the start. */
  ghost function LastSet<T>(acts: seq<Action<T>>, n: nat, t: T, start: nat): nat
    requires n <= |acts|
  {
    if n == 0 then start else SetTo(acts[n - 1], t, LastSet(acts, n - 1, t, start))
  }

  lemma TurnEndNext<T>(r: Rec, a: Action<T>)
    requires Ends(a)
    ensures TurnEnd(r, a).next == r.next
  {
  }

  /** The priority a task will be given next is the one last set for it, cut to the range of priorities. */
  lemma {:induction false} NextIsLastSet<T>(tr: seq<Machine<T>>, acts: seq<Action<T>>, n: nat, t: T)
    requires IsRun(tr, acts) && Good(tr[0]) && n < |tr| && t in tr[0].sched.recs
    ensures t in tr[n].sched.recs && tr[n].sched.recs[t].next == LastSet(acts, n, t, tr[0].sched.recs[t].next)
  {
    hide Next, Good, MinKey, TurnEnd;
    if n > 0 {
      NextIsLastSet(tr, acts, n - 1, t);
      RunGood(tr, acts, n - 1);
      assert Next(tr[n - 1], acts[n - 1]) == Some(tr[n]);
      StepExact(tr[n - 1], acts[n - 1], tr[n], t);
      if Ends(acts[n - 1]) { TurnEndNext(tr[n - 1].sched.recs[t], acts[n - 1]); }
    }
  }

  /** A task in the queue whose turn does not end keeps its key and the priority its turn is charged at. */
  lemma {:induction false} QueuedKept<T>(tr: seq<Machine<T>>, acts: seq<Action<T>>, i: nat, j: nat, t: T)
    requires IsRun(tr, acts) && Good(tr[0]) && i <= j < |tr| && t in tr[i].sched.recs && tr[i].sched.recs[t].state.Running?
    requires forall k :: i <= k < j ==> !EndsTurnOf(tr[k], acts[k], t)
    ensures t in tr[j].sched.recs && tr[j].sched.recs[t] == tr[i].sched.recs[t].(next := tr[j].sched.recs[t].next)
    decreases j - i
  {
    hide Next, Good, MinKey;
    if i < j {
      QueuedKept(tr, acts, i, j - 1, t);
      RunGood(tr, acts, j - 1);
      assert Next(tr[j - 1], acts[j - 1]) == Some(tr[j]);
      StepExact(tr[j - 1], acts[j - 1], tr[j], t);
    }
  }

  /** At step `i` a task comes into the queue: woken, newly run, or behind others after its turn. */
  ghost predicate Queues<T>(m: Machine<T>, a: Action<T>, n: Machine<T>, t: T) {
    && t in m.sched.recs && t in n.sched.recs && n.sched.recs[t].state.Running?
    && (!m.sched.recs[t].state.Running? || (a.Yield? && m.sched.current == Some(t)))
  }

  /**
   A turn ended by a yield adds its run time, times the priority that was last
   set when the task came into the queue, to the key it came in with. So a
   new priority takes effect from the next time on that the task is queued.
   */
  lemma TurnCharge<T>(tr: seq<Machine<T>>, acts: seq<Action<T>>, i: nat, j: nat, t: T)
    requires IsRun(tr, acts) && Good(tr[0]) && i < j < |acts| && t in tr[0].sched.recs
    requires Queues(tr[i], acts[i], tr[i + 1], t)
    requires forall k :: i < k < j ==> !EndsTurnOf(tr[k], acts[k], t)
    requires acts[j].Yield? && tr[j].sched.current == Some(t)
    ensures t in tr[j + 1].sched.recs
    ensures tr[j + 1].sched.recs[t].key ==
            tr[i + 1].sched.recs[t].key + acts[j].ran * LastSet(acts, i, t, tr[0].sched.recs[t].next)
  {
    hide Next, Good, MinKey;
    NextIsLastSet(tr, acts, i, t);
    RunGood(tr, acts, i);
    RunGood(tr, acts, j);
    assert Next(tr[i], acts[i]) == Some(tr[i + 1]) && Next(tr[j], acts[j]) == Some(tr[j + 1]);
    StepExact(tr[i], acts[i], tr[i + 1], t);
    QueuedKept(tr, acts, i + 1, j, t);
    StepExact(tr[j], acts[j], tr[j + 1], t);
  }

  lemma {:induction false} WaitingKept<T>(tr: seq<Machine<T>>, acts: seq<Action<T>>, i: nat, j: nat, t: T)
    requires IsRun(tr, acts) && Good(tr[0]) && i <= j < |tr|
    requires forall k :: i <= k <= j ==> t in tr[k].sched.recs && tr[k].sched.recs[t].state.Waiting?
    ensures tr[j].sched.recs[t].key == tr[i].sched.recs[t].key
    decreases j - i
  {
    hide Next, Good, MinKey;
    if i < j {
      WaitingKept(tr, acts, i, j - 1, t);
      RunGood(tr, acts, j - 1);
      assert Next(tr[j - 1], acts[j - 1]) == Some(tr[j]);
      StepExact(tr[j - 1], acts[j - 1], tr[j], t);
      NotInControl(tr[j - 1], acts[j - 1], t);
    }
  }

  /** A waiting task has no turn to end. */
  lemma NotInControl<T>(m: Machine<T>, a: Action<T>, t: T)
    requires Good(m) && Next(m, a).Some? && t in m.sched.recs && !m.sched.recs[t].state.Running?
    ensures !EndsTurnOf(m, a, t)
  {
    if Ends(a) {
      assert m.sched.ready[0] in m.sched.ready;
    }
  }

  /** `t` goes to wait at step `i`, waits up to step `j` and is woken by it. */
  ghost predicate WaitsFromTo<T>(tr: seq<Machine<T>>, acts: seq<Action<T>>, i: nat, j: nat, t: T) {
    && IsRun(tr, acts) && Good(tr[0]) && i < j < |acts|
    && t in tr[i].sched.recs && EndsTurnOf(tr[i], acts[i], t) && Waits(acts[i])
    && (forall k :: i < k <= j ==> t in tr[k].sched.recs && tr[k].sched.recs[t].state.Waiting?)
    && t in tr[j + 1].sched.recs && tr[j + 1].sched.recs[t].state.Running?
  }

  /**
   A task comes back from a wait behind the smallest key by the priority it
   had when it went, however long it waited and whatever its key was before;
   with nothing else to run it may also stand at that priority itself, first.
   */
  lemma RewokenKey<T>(tr: seq<Machine<T>>, acts: seq<Action<T>>, i: nat, j: nat, t: T)
    requires WaitsFromTo(tr, acts, i, j, t)
    ensures Entered(tr[j].sched, tr[j + 1].sched, t, tr[i].sched.recs[t].next)
  {
    hide Next, Good, MinKey;
    RunGood(tr, acts, i);
    RunGood(tr, acts, j);
    assert Next(tr[i], acts[i]) == Some(tr[i + 1]) && Next(tr[j], acts[j]) == Some(tr[j + 1]);
    StepExact(tr[i], acts[i], tr[i + 1], t);
    WaitingKept(tr, acts, i + 1, j, t);
    StepExact(tr[j], acts[j], tr[j + 1], t);
    NotInControl(tr[j], acts[j], t);
  }

  lemma {:induction false} PicksCut<T>(tr: seq<Machine<T>>, acts: seq<Action<T>>, from: nat, to: nat)
    requires IsRun(tr, acts) && from <= to < |tr|
    ensures IsRun(tr[from..to + 1], acts[from..to])
  {
    hide Next;
    var tr', acts' := tr[from..to + 1], acts[from..to];
    forall i | 0 <= i < |acts'|
      ensures Next(tr'[i], acts'[i]) == Some(tr'[i + 1])
    {
      assert Next(tr[from + i], acts[from + i]) == Some(tr[from + i + 1]);
    }
  }

  /** From step `j` on up to state `l`, `t` stays in line, and `u` does not use priority 0. */
  ghost predicate InLineTo<T>(tr: seq<Machine<T>>, acts: seq<Action<T>>, j: nat, l: nat, t: T, u: T) {
    && j <= l < |tr| && |tr| == |acts| + 1 && Positive(tr[j].sched.recs, u)
    && (forall k :: j <= k <= l ==> InLine(tr[k], t))
    && (forall k :: j <= k < l ==> acts[k].SetPrio? && acts[k].task == u ==> 1 <= acts[k].priority)
  }

  lemma BypassedFrom<T>(tr: seq<Machine<T>>, acts: seq<Action<T>>, j: nat, l: nat, t: T, u: T, p: nat)
    requires IsRun(tr, acts) && Good(tr[0]) && InLineTo(tr, acts, j, l, t, u)
    requires t in tr[j].sched.recs && tr[j].sched.recs[t].key <= MinKey(tr[j].sched) + p
    ensures CountPicks(tr[j..l + 1], acts[j..l], u) <= p + 1
  {
    hide Next, Good, MinKey, CountPicks, InLine, Positive;
    RunGood(tr, acts, j);
    PicksCut(tr, acts, j, l);
    BoundedBypass(tr[j..l + 1], acts[j..l], t, u);
  }

  /**
   A task that had priority p when it went to wait is, once woken, passed over
   at most p + 1 times by each task that does not use priority 0.
   */
  lemma RewokenBypass<T>(tr: seq<Machine<T>>, acts: seq<Action<T>>, i: nat, j: nat, l: nat, t: T, u: T)
    requires WaitsFromTo(tr, acts, i, j, t) && InLineTo(tr, acts, j + 1, l, t, u)
    ensures CountPicks(tr[j + 1..l + 1], acts[j + 1..l], u) <= tr[i].sched.recs[t].next + 1
  {
    hide Next, Good, MinKey, CountPicks, InLine, Positive;
    RewokenKey(tr, acts, i, j, t);
    BypassedFrom(tr, acts, j + 1, l, t, u, tr[i].sched.recs[t].next);
  }

  /** So is a new task run by another one. */
  lemma NewBypass<T>(tr: seq<Machine<T>>, acts: seq<Action<T>>, j: nat, l: nat, t: T, u: T)
    requires IsRun(tr, acts) && Good(tr[0]) && j < |acts| && acts[j] == Run(t) && tr[j].mode.InTask?
    requires t in tr[j].sched.recs && tr[j].sched.recs[t].state.Stopped? && InLineTo(tr, acts, j + 1, l, t, u)
    ensures CountPicks(tr[j + 1..l + 1], acts[j + 1..l], u) <= tr[j].sched.recs[t].next + 1
  {
    hide Good, MinKey, CountPicks, InLine, Positive;
    RunGood(tr, acts, j);
    assert Next(tr[j], acts[j]) == Some(tr[j + 1]);
    InTaskFirst(tr[j]);
    RunNewExact(tr[j].sched, t, t);
    hide RunNew;
    BypassedFrom(tr, acts, j + 1, l, t, u, tr[j].sched.recs[t].next);
  }
}
