/**
 Bounded bypass: how often another task can be picked while a runnable task
 waits for its turn.
 */
module Fairness {
  import opened Common
  import opened Scheduler
  import opened KeyOrder
  import opened RbShape
  import opened TaskMachine

  /** `u` does not use priority 0, and if it waits its key starts above 0. */
  ghost predicate Positive<T>(recs: map<T, Rec>, u: T) {
    && u in recs && 1 <= recs[u].next && (recs[u].state.Running? ==> 1 <= recs[u].priority)
    && (recs[u].state.Waiting? ==> 1 <= recs[u].key)
  }

  /** No key at which `u` can enter or stand in the queue is smaller. */
  ghost function Floor<T>(s: Sched<T>, u: T): int
    requires u in s.recs
  {
    if s.recs[u].state.Running? then s.recs[u].key else MinKey(s) + 1
  }

  /** From `s` to `r` neither the smallest key nor the floor of `u` fell, and the floor rose if `u` is `c`. */
  ghost predicate Advanced<T>(s: Sched<T>, r: Sched<T>, u: T, c: Option<T>) {
    && MinKey(s) <= MinKey(r) && u in s.recs && u in r.recs
    && Floor(s, u) + (if c == Some(u) then 1 else 0) <= Floor(r, u)
  }

  lemma HeadLeast<T>(s: Sched<T>, t: T)
    requires Inv(s) && t in s.ready
    ensures MinKey(s) <= s.recs[t].key
  {
    var i :| 0 <= i < |s.ready| && s.ready[i] == t;
    assert s.ready[0] in s.ready;
    assert At(KeyMap(s.recs), s.ready[0]) <= At(KeyMap(s.recs), s.ready[i]);
  }

  /** If no key of `r` lies below `k`, neither does the smallest. */
  lemma MinAbove<T>(r: Sched<T>, k: int)
    requires Inv(r) && r.ready != [] && forall t :: t in r.ready ==> k <= r.recs[t].key
    ensures k <= MinKey(r)
  {
    assert r.ready[0] in r.ready;
  }

  lemma EnterAdvances<T>(s: Sched<T>, r: Sched<T>, t: T, q: Rec, u: T)
    requires Inv(s) && Inv(r) && s.ready != [] && t in s.recs && !s.recs[t].state.Running?
    requires r.recs == s.recs[t := q] && q.state.Running? && MinKey(s) + (if t == u then 1 else 0) <= q.key && u in s.recs
    ensures Advanced(s, r, u, None)
  {
    assert t in r.ready;
    forall x | x in r.ready ensures MinKey(s) <= r.recs[x].key {
      if x != t { assert s.recs[x].state.Running?; HeadLeast(s, x); }
    }
    MinAbove(r, MinKey(s));
  }

  lemma WakeupAdvances<T>(s: Sched<T>, t: T, u: T)
    requires Inv(s) && Positive(s.recs, u) && s.ready != [] && t in s.recs && Wakeup(s, t).Some?
    ensures var r := Wakeup(s, t).value; Advanced(s, r, u, None) && Positive(r.recs, u) && r.ready != []
  {
    WakeupInv(s, t);
    if s.recs[t].state.Waiting? {
      var r := Wakeup(s, t).value;
      assert r.recs == s.recs[t := r.recs[t]];
      EnterAdvances(s, r, t, r.recs[t], u);
      assert t in r.ready;
    }
  }

  lemma RunNewAdvances<T>(s: Sched<T>, t: T, u: T)
    requires Inv(s) && Positive(s.recs, u) && s.ready != [] && s.current.Some? && t in s.recs
    ensures Advanced(s, RunNew(s, t), u, None) && Positive(RunNew(s, t).recs, u)
  {
    RunNewInv(s, t);
    if s.recs[t].state.Stopped? {
      var r := RunNew(s, t);
      assert r.recs == s.recs[t := r.recs[t]];
      EnterAdvances(s, r, t, r.recs[t], u);
    }
  }

  lemma ChargedKey(key: nat, ran: nat, priority: nat)
    requires 1 <= ran
    ensures key + (if 1 <= priority then 1 else 0) <= key + ran * priority
  {
  }

  lemma SwitchAdvances<T>(s: Sched<T>, ran: nat, u: T)
    requires Inv(s) && Positive(s.recs, u) && CurrentFirst(s) && 1 <= ran
    ensures Advanced(s, Switch(s, ran), u, s.current) && Positive(Switch(s, ran).recs, u)
  {
    var c, r := s.current.value, Switch(s, ran);
    SwitchInv(s, ran);
    assert c in s.ready;
    ChargedKey(s.recs[c].key, ran, s.recs[c].priority);
    assert r.recs == s.recs[c := r.recs[c]];
    assert c in r.ready;
    forall x | x in r.ready ensures MinKey(s) <= r.recs[x].key {
      assert s.recs[x].state.Running?;
      HeadLeast(s, x);
    }
    MinAbove(r, MinKey(s));
  }

  /** The current task leaves while another one stays runnable. */
  lemma DepartAdvances<T>(s: Sched<T>, r: Sched<T>, q: Rec, u: T)
    requires Inv(s) && Inv(r) && CurrentFirst(s) && r.ready != [] && !q.state.Running?
    requires r.recs == s.recs[s.current.value := q] && u in s.recs
    ensures Advanced(s, r, u, s.current)
  {
    forall x | x in r.ready ensures MinKey(s) <= r.recs[x].key {
      assert s.recs[x].state.Running?;
      HeadLeast(s, x);
    }
    assert s.ready[0] in s.ready;
    MinAbove(r, MinKey(s));
  }

  lemma {:induction false} WakeAllAdvances<T>(s: Sched<T>, events: seq<T>, u: T)
    requires Inv(s) && Positive(s.recs, u) && s.ready != [] && WakeAll(s, events).Some?
    ensures var r := WakeAll(s, events).value; Inv(r) && Advanced(s, r, u, None) && Positive(r.recs, u) && r.ready != []
    decreases |events|
  {
    if events != [] {
      WakeupInv(s, events[0]);
      WakeupAdvances(s, events[0], u);
      WakeAllAdvances(Wakeup(s, events[0]).value, events[1..], u);
    }
  }

  lemma CheckAdvances<T>(m: Machine<T>, at: int, u: T)
    requires Inv(m.sched) && Positive(m.sched.recs, u) && m.sched.ready != [] && Check(m, at).Some?
    ensures var r := Check(m, at).value.sched; Advanced(m.sched, r, u, None) && Positive(r.recs, u)
  {
    if m.sleepers != [] && m.sleepers[0].expire <= at { WakeupAdvances(m.sched, m.sleepers[0].task, u); }
  }

  // ---------- Over a run ----------

  /** No key at which `u` can be picked next is smaller. */
  ghost function Bar<T>(m: Machine<T>, u: T): int
    requires u in m.sched.recs
  {
    Floor(m.sched, u) + (if m.mode.InTask? && m.sched.current == Some(u) then 1 else 0)
  }

  ghost predicate Picks<T>(a: Action<T>, n: Machine<T>, u: T) {
    a.Resume? && n.sched.current == Some(u)
  }

  /** `t` is runnable and it is not its turn. */
  ghost predicate InLine<T>(m: Machine<T>, t: T) {
    t in m.sched.ready && t in m.sched.recs && !m.mode.Setup? && !(m.mode.InTask? && m.sched.current == Some(t))
  }

  lemma WaitAdvances<T>(s: Sched<T>, ran: nat, u: T)
    requires Inv(s) && Positive(s.recs, u) && CurrentFirst(s) && 1 <= ran && Scheduler.Wait(s, ran).ready != []
    ensures Advanced(s, Scheduler.Wait(s, ran), u, s.current) && Positive(Scheduler.Wait(s, ran).recs, u)
  {
    var r := Scheduler.Wait(s, ran);
    WaitInv(s, ran);
    assert r.recs == s.recs[s.current.value := r.recs[s.current.value]];
    DepartAdvances(s, r, r.recs[s.current.value], u);
  }

  lemma ExitAdvances<T>(s: Sched<T>, u: T)
    requires Inv(s) && Positive(s.recs, u) && CurrentFirst(s) && Exit(s).ready != []
    ensures Advanced(s, Exit(s), u, s.current) && Positive(Exit(s).recs, u)
  {
    ExitInv(s);
    DepartAdvances(s, Exit(s), s.recs[s.current.value].(state := Stopped), u);
  }

  lemma PollAdvances<T>(m: Machine<T>, due: int, events: seq<T>, at: int, rearm: int, u: T)
    requires Good(m) && Positive(m.sched.recs, u) && m.sched.ready != [] && Next(m, Poll(due, events, at, rearm)).Some?
    ensures var n := Next(m, Poll(due, events, at, rearm)).value; Advanced(m.sched, n.sched, u, None) && Positive(n.sched.recs, u)
  {
    WakeAllAdvances(m.sched, events, u);
    CheckAdvances(m.(sched := WakeAll(m.sched, events).value, cached := None), at, u);
  }

  ghost predicate Ends<T>(a: Action<T>) {
    a.Yield? || a.WaitIo? || a.Leave? || a.Sleep?
  }

  lemma TurnEndAdvances<T>(m: Machine<T>, a: Action<T>, n: Machine<T>, u: T)
    requires Good(m) && Positive(m.sched.recs, u) && Next(m, a) == Some(n) && Ends(a) && n.sched.ready != []
    ensures Advanced(m.sched, n.sched, u, m.sched.current) && Positive(n.sched.recs, u)
  {
    match a
    case Yield(ran) => SwitchAdvances(m.sched, ran, u); AliveSome(m.sched);
    case WaitIo(ran) => WaitAdvances(m.sched, ran, u);
    case Sleep(_, _, _, ran) => WaitAdvances(m.sched, ran, u);
    case Leave => ExitInv(m.sched); ExitAdvances(m.sched, u); AliveSome(Exit(m.sched));
  }

  lemma CallAdvances<T>(m: Machine<T>, a: Action<T>, n: Machine<T>, u: T)
    requires Good(m) && Positive(m.sched.recs, u) && !m.mode.Setup? && Next(m, a) == Some(n) && m.sched.ready != []
    requires (a.Run? || a.Wake? || a.SetPrio?) && (a.SetPrio? && a.task == u ==> 1 <= a.priority)
    ensures Advanced(m.sched, n.sched, u, None) && Positive(n.sched.recs, u)
  {
    match a
    case Run(t) => RunNewAdvances(m.sched, t, u);
    case Wake(t) => WakeupAdvances(m.sched, t, u);
    case SetPrio(_, _) => assert m.sched.ready[0] in m.sched.ready;
  }

  lemma KernelAdvances<T>(m: Machine<T>, a: Action<T>, n: Machine<T>, u: T)
    requires Good(m) && Positive(m.sched.recs, u) && !m.mode.Setup? && Next(m, a) == Some(n) && m.sched.ready != []
    requires !Ends(a) && !a.Run? && !a.Wake? && !a.SetPrio?
    ensures Advanced(m.sched, n.sched, u, None) && Positive(n.sched.recs, u)
  {
    match a
    case Poll(due, events, at, rearm) => PollAdvances(m, due, events, at, rearm, u);
    case SleepEnd(at) => CheckAdvances(m.(sleepers := Unqueue(m.sleepers, m.sched.current.value), now := at), at, u);
    case Resume =>
    case NoPoll =>
    case Throttled(_) =>
  }

  /** What a step does to the queue while some task stays runnable. */
  lemma StepAdvances<T>(m: Machine<T>, a: Action<T>, n: Machine<T>, u: T)
    requires Good(m) && Positive(m.sched.recs, u) && !m.mode.Setup? && Next(m, a) == Some(n)
    requires m.sched.ready != [] && n.sched.ready != [] && (a.SetPrio? && a.task == u ==> 1 <= a.priority)
    ensures Advanced(m.sched, n.sched, u, if Ends(a) then m.sched.current else None) && Positive(n.sched.recs, u)
  {
    if Ends(a) {
      TurnEndAdvances(m, a, n, u);
    } else if a.Run? || a.Wake? || a.SetPrio? {
      CallAdvances(m, a, n, u);
    } else {
      KernelAdvances(m, a, n, u);
    }
  }

  /** Who is in control before and after a step. */
  lemma StepControl<T>(m: Machine<T>, a: Action<T>, n: Machine<T>)
    requires Next(m, a) == Some(n)
    ensures Ends(a) ==> m.mode.InTask? && !n.mode.InTask?
    ensures a.Resume? ==> !m.mode.InTask? && n.mode.InTask? && n.sched == m.sched.(current := n.sched.current)
    ensures !Ends(a) && !a.Resume? && !a.Start? && n.mode.InTask? ==> m.mode.InTask? && n.sched.current == m.sched.current
    ensures m.mode.InTask? && !Ends(a) ==> n.mode.InTask?
  {
    hide Switch, Scheduler.Wait, Exit;
    if a.SleepEnd? { assert n.sched.current == m.sched.current; }
  }

  lemma StepBar<T>(m: Machine<T>, a: Action<T>, n: Machine<T>, u: T)
    requires Good(m) && Positive(m.sched.recs, u) && !m.mode.Setup? && Next(m, a) == Some(n)
    requires m.sched.ready != [] && n.sched.ready != [] && (a.SetPrio? && a.task == u ==> 1 <= a.priority) 
    ensures u in n.sched.recs && Bar(m, u) + (if Picks(a, n, u) then 1 else 0) <= Bar(n, u)
  {
    StepAdvances(m, a, n, u);
    StepControl(m, a, n);
    NotStarted(m, a);
    hide Next, Floor;
    if a.Resume? { SameFloor(m.sched, n.sched, u); }
  }

  lemma NotStarted<T>(m: Machine<T>, a: Action<T>)
    requires !m.mode.Setup? && Next(m, a).Some?
    ensures !a.Start?
  {
  }

  lemma SameFloor<T>(s: Sched<T>, r: Sched<T>, u: T)
    requires u in s.recs && r == s.(current := r.current)
    ensures Floor(r, u) == Floor(s, u)
  {
  }

  /** A task whose turn it is not keeps its record, but for the priority to come, as long as it is running. */
  ghost predicate Kept<T>(s: Sched<T>, r: Sched<T>, t: T) {
    t in s.recs && t in r.recs && r.recs[t].key == s.recs[t].key && (s.recs[t].state.Running? ==> r.recs[t].state.Running?)
  }

  lemma OpsKeep<T>(s: Sched<T>, t: T, x: T, ran: nat, p: int)
    requires t in s.recs && s.recs[t].state.Running? && x in s.recs
    ensures Wakeup(s, x).Some? ==> Kept(s, Wakeup(s, x).value, t)
    ensures Kept(s, RunNew(s, x), t) && Kept(s, SetPriority(s, x, p), t)
    ensures x != t && s.current == Some(x) ==> Kept(s, Switch(s, ran), t) && Kept(s, Scheduler.Wait(s, ran), t) && Kept(s, Exit(s), t)
  {
  }

  lemma KeyKept<T>(m: Machine<T>, a: Action<T>, n: Machine<T>, t: T)
    requires Good(m) && Next(m, a) == Some(n) && InLine(m, t)
    ensures Kept(m.sched, n.sched, t) && n.sched.recs[t].state.Running?
  {
    hide Switch, Scheduler.Wait, Exit, RunNew, Wakeup, SetPriority;
    var s := m.sched;
    if a.Run? || a.SetPrio? || a.Wake? { OpsKeep(s, t, a.task, 1, if a.SetPrio? then a.priority else 0); }
    if Ends(a) { OpsKeep(s, t, s.current.value, if a.Leave? then 1 else a.ran, 0); }
    if a.SleepEnd? && m.sleepers != [] { CheckKept(m.(sleepers := Unqueue(m.sleepers, s.current.value), now := a.at), a.at, t); }
    if a.Poll? {
      WakeAllRunning(s, a.events, t);
      CheckKept(m.(sched := WakeAll(s, a.events).value, cached := None), a.at, t);
    }
  }

  lemma CheckKept<T>(m: Machine<T>, at: int, t: T)
    requires t in m.sched.recs && m.sched.recs[t].state.Running?
    ensures Check(m, at).Some? ==> Kept(m.sched, Check(m, at).value.sched, t)
  {
    if m.sleepers != [] && m.sleepers[0].task in m.sched.recs { OpsKeep(m.sched, t, m.sleepers[0].task, 1, 0); }
  }

  lemma {:induction false} WakeAllRunning<T>(s: Sched<T>, events: seq<T>, t: T)
    requires WakeAll(s, events).Some? && t in s.recs && s.recs[t].state.Running?
    ensures Kept(s, WakeAll(s, events).value, t) && WakeAll(s, events).value.recs[t] == s.recs[t]
    decreases |events|
  {
    if events != [] { WakeAllRunning(Wakeup(s, events[0]).value, events[1..], t); }
  }

  ghost function CountPicks<T>(tr: seq<Machine<T>>, acts: seq<Action<T>>, u: T): nat
    requires |tr| == |acts| + 1
    decreases |acts|
  {
    var n := |acts|;
    if n == 0 then 0 else CountPicks(tr[..n], acts[..n - 1], u) + (if Picks(acts[n - 1], tr[n], u) then 1 else 0)
  }

  /** A run in which `t` stays runnable and is never picked, and `u` does not use priority 0; other tasks may. */
  ghost predicate Bypassed<T>(tr: seq<Machine<T>>, acts: seq<Action<T>>, t: T, u: T) {
    && IsRun(tr, acts) && Good(tr[0]) && Positive(tr[0].sched.recs, u)
    && (forall i :: 0 <= i < |acts| ==> acts[i].SetPrio? && acts[i].task == u ==> 1 <= acts[i].priority)
    && (forall i :: 0 <= i < |tr| ==> InLine(tr[i], t))
  }

  lemma {:induction false} BypassGrows<T>(tr: seq<Machine<T>>, acts: seq<Action<T>>, t: T, u: T)
    requires Bypassed(tr, acts, t, u)
    ensures var m, n := tr[0], tr[|acts|];
            && Good(n) && Positive(n.sched.recs, u) && u in m.sched.recs && u in n.sched.recs && t in m.sched.recs && t in n.sched.recs
            && n.sched.recs[t].key == m.sched.recs[t].key && MinKey(m.sched) <= MinKey(n.sched)
            && CountPicks(tr, acts, u) + Bar(m, u) <= Bar(n, u)
    decreases |acts|
  {
    hide Next, Good, MinKey, Bar;
    var k := |acts|;
    if k > 0 {
      var tr', acts' := tr[..k], acts[..k - 1];
      forall i | 0 <= i < |acts'| ensures Next(tr'[i], acts'[i]) == Some(tr'[i + 1]) {}
      assert forall i :: 0 <= i < |tr'| ==> InLine(tr'[i], t);
      BypassGrows(tr', acts', t, u);
      assert Next(tr[k - 1], acts[k - 1]) == Some(tr[k]);
      BypassStep(tr[k - 1], acts[k - 1], tr[k], t, u);
    }
  }

  lemma BypassStep<T>(m: Machine<T>, a: Action<T>, n: Machine<T>, t: T, u: T)
    requires Good(m) && Positive(m.sched.recs, u) && Next(m, a) == Some(n) && InLine(m, t) && InLine(n, t)
    requires a.SetPrio? && a.task == u ==> 1 <= a.priority
    ensures Good(n) && Positive(n.sched.recs, u) && n.sched.recs[t].key == m.sched.recs[t].key
    ensures MinKey(m.sched) <= MinKey(n.sched) && Bar(m, u) + (if Picks(a, n, u) then 1 else 0) <= Bar(n, u)
  {
    StepGood(m, a);
    StepAdvances(m, a, n, u);
    StepBar(m, a, n, u);
    KeyKept(m, a, n, t);
    hide Next, Floor, Good, MinKey;
  }

  /**
   Bounded bypass: while `t`, with key K, waits in the queue, and the smallest
   key was m at the start, a task that does not use priority 0 is picked at
   most K - m + 1 times, however often it waits and is woken in between and
   whatever priorities the others have. The smallest key never falls.
   */
  lemma {:induction false} BoundedBypass<T>(tr: seq<Machine<T>>, acts: seq<Action<T>>, t: T, u: T)
    requires Bypassed(tr, acts, t, u)
    ensures CountPicks(tr, acts, u) <= tr[0].sched.recs[t].key - MinKey(tr[0].sched) + 1
    ensures MinKey(tr[0].sched) <= MinKey(tr[|acts|].sched)
    decreases |acts|
  {
    hide Next, MinKey, Inv;
    var k, m := |acts|, tr[0];
    assert InLine(m, t);
    HeadLeast(m.sched, t);
    BypassGrows(tr, acts, t, u);
    if k > 0 {
      var tr', acts' := tr[..k], acts[..k - 1];
      forall i | 0 <= i < |acts'| ensures Next(tr'[i], acts'[i]) == Some(tr'[i + 1]) {}
      assert forall i :: 0 <= i < |tr'| ==> InLine(tr'[i], t);
      BoundedBypass(tr', acts', t, u);
      if Picks(acts[k - 1], tr[k], u) {
        BypassGrows(tr', acts', t, u);
        PickedKey(tr[k - 1], acts[k - 1], tr[k], t, u);
        BarStart(m, u);
      }
    }
  }

  lemma PickedKey<T>(m: Machine<T>, a: Action<T>, n: Machine<T>, t: T, u: T)
    requires Good(m) && Next(m, a) == Some(n) && InLine(m, t) && Picks(a, n, u)
    ensures u in m.sched.recs && Bar(m, u) <= m.sched.recs[t].key
  {
    assert m.sched.ready[0] in m.sched.ready;
    HeadLeast(m.sched, t);
  }

  lemma BarStart<T>(m: Machine<T>, u: T)
    requires Good(m) && u in m.sched.recs
    ensures MinKey(m.sched) <= Bar(m, u)
  {
    if m.sched.recs[u].state.Running? { HeadLeast(m.sched, u); }
  }

  // ---------- Priority 0 ----------

  /** A task of priority 0 alone at the smallest key: yielding changes nothing. */
  lemma ZeroSwitch<T>(s: Sched<T>)
    requires Inv(s) && CurrentFirst(s) && s.recs[s.ready[0]].priority == 0 && s.recs[s.ready[0]].next == 0
    requires forall t :: t in s.ready && Some(t) != s.current ==> MinKey(s) < s.recs[t].key
    ensures Switch(s, 1) == s
  {
    var c, q := s.current.value, s.ready[1..];
    assert s.ready == [c] + q && c in s.ready;
    assert Without(s.ready, c) == q;
    assert Switch(s, 1).recs == s.recs;
    if q != [] { assert q[0] == s.ready[1] && q[0] in s.ready; }
    assert Stable(q, c, KeyMap(s.recs)) == s.ready;
  }

  /** After it yields it is picked again and the whole system is as before. */
  lemma ZeroPriorityRepeats<T>(m: Machine<T>)
    requires Good(m) && Free(m) && m.sched.running == m.sched.total
    requires var r := m.sched.recs[m.sched.current.value]; r.priority == 0 && r.next == 0
    requires forall t :: t in m.sched.ready && Some(t) != m.sched.current ==> MinKey(m.sched) < m.sched.recs[t].key
    ensures Next(m, Yield(1)).Some?
    ensures var k := Next(m, Yield(1)).value;
            Next(k, NoPoll).Some? && Next(Next(k, NoPoll).value, Resume) == Some(m)
  {
    ZeroSwitch(m.sched);
    AliveSome(m.sched);
    hide Switch;
  }

  /** The state of such a task, with `t` in line behind it. */
  ghost predicate ZeroAhead<T>(m: Machine<T>, t: T) {
    && Good(m) && Free(m) && m.sched.running == m.sched.total && InLine(m, t)
    && m.sched.recs[m.sched.current.value].priority == 0 && m.sched.recs[m.sched.current.value].next == 0
    && forall x :: x in m.sched.ready && Some(x) != m.sched.current ==> MinKey(m.sched) < m.sched.recs[x].key
  }

  ghost predicate IsCycle<T>(m: Machine<T>, k: Machine<T>, l: Machine<T>, t: T) {
    && Next(m, Yield(1)) == Some(k) && Next(k, NoPoll) == Some(l) && Next(l, Resume) == Some(m)
    && m.sched.current.Some? && InLine(m, t) && InLine(k, t) && InLine(l, t)
  }

  lemma ZeroCycle<T>(m: Machine<T>, t: T) returns (k: Machine<T>, l: Machine<T>)
    requires ZeroAhead(m, t)
    ensures IsCycle(m, k, l, t)
  {
    hide Switch, Sorted, NoRepeat, Alive;
    ZeroPriorityRepeats(m);
    k := Next(m, Yield(1)).value;
    l := Next(k, NoPoll).value;
    YieldGood(m, 1);
    KeyKept(m, Yield(1), k, t);
  }

  /** So bounded bypass fails at priority 0: such a task is picked n times, for every n, while the others stay in line. */
  lemma {:induction false} ZeroPriorityStarves<T>(m: Machine<T>, t: T, n: nat) returns (tr: seq<Machine<T>>, acts: seq<Action<T>>)
    requires ZeroAhead(m, t)
    ensures IsRun(tr, acts) && tr[0] == m == tr[|acts|] && CountPicks(tr, acts, m.sched.current.value) == n
    ensures forall i :: 0 <= i < |tr| ==> InLine(tr[i], t)
    ensures forall i :: 0 <= i < |acts| ==> !acts[i].SetPrio?
  {
    hide Next, Good, Free, CountPicks, InLine;
    var k, l := ZeroCycle(m, t);
    var u := m.sched.current.value;
    if n == 0 {
      tr, acts := [m], [];
      NoPicks(m, u);
    } else {
      tr, acts := ZeroPriorityStarves(m, t, n - 1);
      OneMore(tr, acts, k, Yield(1), u);
      OneMore(tr + [k], acts + [Yield(1)], l, NoPoll, u);
      OneMore(tr + [k] + [l], acts + [Yield(1)] + [NoPoll], m, Resume, u);
      tr, acts := tr + [k] + [l] + [m], acts + [Yield(1)] + [NoPoll] + [Resume];
    }
  }

  lemma NoPicks<T>(m: Machine<T>, u: T)
    ensures CountPicks([m], [], u) == 0
  {
  }

  lemma OneMore<T>(tr: seq<Machine<T>>, acts: seq<Action<T>>, x: Machine<T>, a: Action<T>, u: T)
    requires IsRun(tr, acts) && Next(tr[|acts|], a) == Some(x)
    ensures IsRun(tr + [x], acts + [a])
    ensures CountPicks(tr + [x], acts + [a], u) == CountPicks(tr, acts, u) + (if Picks(a, x, u) then 1 else 0)
  {
    hide Next;
    assert (tr + [x])[..|acts| + 1] == tr && (acts + [a])[..|acts|] == acts;
  }

  // ---------- Exactly when ----------

  type Id = int

  /** `u` has had priority `p` since it last entered or left the queue. */
  ghost predicate FixedAt(recs: map<Id, Rec>, u: Id, p: nat) {
    u in recs && recs[u].next == p && (recs[u].state.Running? ==> recs[u].priority == p) && (recs[u].state.Waiting? ==> recs[u].key == p)
  }

  ghost predicate Reachable(m: Machine<Id>) {
    exists tr: seq<Machine<Id>>, acts: seq<Action<Id>> :: IsRun(tr, acts) && Initial(tr[0]) && tr[|acts|] == m
  }

  /** A stretch of a run from the start of the system in which `t` is passed over and `u` keeps priority `p`. */
  ghost predicate Watched(tr: seq<Machine<Id>>, acts: seq<Action<Id>>, t: Id, u: Id, p: nat) {
    && IsRun(tr, acts) && Reachable(tr[0]) && FixedAt(tr[0].sched.recs, u, p)
    && (forall i :: 0 <= i < |acts| ==> acts[i].SetPrio? && acts[i].task == u ==> Clamp(acts[i].priority) == p)
    && (forall i :: 0 <= i < |tr| ==> InLine(tr[i], t))
  }

  ghost predicate Within(tr: seq<Machine<Id>>, acts: seq<Action<Id>>, t: Id, u: Id) {
    && |tr| == |acts| + 1 && t in tr[0].sched.recs
    && CountPicks(tr, acts, u) <= tr[0].sched.recs[t].key - MinKey(tr[0].sched) + 1
  }

  /** Every task of priority `p` is picked at most K - m + 1 times in every such stretch. */
  ghost predicate BoundHolds(p: nat) {
    forall tr, acts, t, u | Watched(tr, acts, t, u, p) :: Within(tr, acts, t, u)
  }

  lemma ReachableGood(m: Machine<Id>)
    requires Reachable(m)
    ensures Good(m)
  {
    var tr: seq<Machine<Id>>, acts: seq<Action<Id>> :| IsRun(tr, acts) && Initial(tr[0]) && tr[|acts|] == m;
    InitialGood(tr[0]);
    RunGood(tr, acts, |acts|);
  }

  lemma PositiveBound(p: nat)
    requires 1 <= p
    ensures BoundHolds(p)
  {
    hide CountPicks, MinKey, Good;
    forall tr, acts, t, u | Watched(tr, acts, t, u, p)
      ensures Within(tr, acts, t, u)
    {
      ReachableGood(tr[0]);
      assert InLine(tr[0], t);
      BoundedBypass(tr, acts, t, u);
    }
  }

  /** Two tasks, the first set to priority 0 before the system starts and now running. */
  ghost function ZeroFirst(): Machine<Id> {
    Machine(Sched([0, 1], map[0 := Rec(Running, 0, 0, 0), 1 := Rec(Running, 8, 8, 8)], 2, 2, Some(0)), InTask, [], 0, 0, 0, None)
  }

  const FRESH := Rec(Stopped, 0, 8, 8)

  ghost function Recs(a: Rec, b: Rec): map<Id, Rec> { map[0 := a, 1 := b] }

  lemma RecsChanged(a: Rec, b: Rec, r: Rec)
    ensures Recs(a, b)[0 := r] == Recs(r, b) && Recs(a, b)[1 := r] == Recs(a, r)
  {
  }

  lemma ZeroSetUp(s0: Sched<Id>)
    requires s0 == Sched([], Recs(FRESH, FRESH), 0, 0, None)
    ensures RunNew(RunNew(SetPriority(s0, 0, 0), 0), 1) == ZeroFirst().sched.(current := None)
  {
    var zero, late := Rec(Running, 0, 0, 0), Rec(Running, 8, 8, 8);
    RecsChanged(FRESH, FRESH, FRESH.(next := 0));
    var s1 := SetPriority(s0, 0, 0);
    assert s1 == s0.(recs := Recs(FRESH.(next := 0), FRESH));
    RecsChanged(FRESH.(next := 0), FRESH, Rec(Stopped, 0, 0, 0));
    RecsChanged(Rec(Stopped, 0, 0, 0), FRESH, zero);
    var s2 := RunNew(s1, 0);
    assert s2 == Sched([0], Recs(zero, FRESH), 1, 1, None);
    RecsChanged(zero, FRESH, FRESH.(key := 8));
    RecsChanged(zero, FRESH.(key := 8), late);
    assert RunNew(s2, 1).recs == Recs(zero, late);
    assert Stable([0], 1, KeyMap(Recs(zero, late))) == [0, 1];
  }

  lemma ZeroReached() returns (tr: seq<Machine<Id>>, acts: seq<Action<Id>>)
    ensures IsRun(tr, acts) && Initial(tr[0]) && tr[|acts|] == ZeroFirst()
  {
    hide SetPriority, RunNew, Stable, MinKey;
    var s0 := Sched([], Recs(FRESH, FRESH), 0, 0, None);
    ZeroSetUp(s0);
    SetUpKeys(s0);
    var s1 := SetPriority(s0, 0, 0);
    var s2 := RunNew(s1, 0);
    var m0 := Machine(s0, Setup, [], 0, 0, 0, None);
    var m1, m2, m3 := m0.(sched := s1), m0.(sched := s2), m0.(sched := RunNew(s2, 1));
    var m4, m5 := m3.(mode := Kernel(false)), m3.(mode := Kernel(true));
    tr, acts := [m0, m1, m2, m3, m4, m5, ZeroFirst()], [SetPrio(0, 0), Run(0), Run(1), Start, NoPoll, Resume];
    assert Next(m0, acts[0]) == Some(m1) && Next(m1, acts[1]) == Some(m2) && Next(m2, acts[2]) == Some(m3);
    assert Next(m3, acts[3]) == Some(m4) && Next(m4, acts[4]) == Some(m5) && Next(m5, acts[5]) == Some(ZeroFirst());
  }

  lemma SetUpKeys(s0: Sched<Id>)
    requires 0 in s0.recs && 1 in s0.recs
    ensures 0 in SetPriority(s0, 0, 0).recs && 1 in RunNew(SetPriority(s0, 0, 0), 0).recs
  {
  }

  lemma ZeroAheadFirst()
    requires Good(ZeroFirst())
    ensures ZeroAhead(ZeroFirst(), 1) && FixedAt(ZeroFirst().sched.recs, 0, 0)
  {
    hide Good;
    var s := ZeroFirst().sched;
    assert MinKey(s) == 0 && s.recs[1].key == 8;
    assert forall x :: x in s.ready ==> x == 0 || x == 1;
  }

  lemma ZeroUnbounded()
    ensures !BoundHolds(0)
  {
    hide Good, CountPicks, ZeroAhead, Next;
    var m := ZeroFirst();
    var tr0, acts0 := ZeroReached();
    assert Reachable(m);
    ReachableGood(m);
    ZeroAheadFirst();
    var tr, acts := ZeroPriorityStarves(m, 1, 10);
    assert Watched(tr, acts, 1, 0, 0) && !Within(tr, acts, 1, 0);
  }

  /** The bound on passing over holds of a task exactly at the priorities from 1 on. */
  lemma BypassExactly(p: nat)
    ensures BoundHolds(p) <==> 1 <= p
  {
    hide BoundHolds;
    if p == 0 {
      ZeroUnbounded();
    } else {
      PositiveBound(p);
    }
  }
}
