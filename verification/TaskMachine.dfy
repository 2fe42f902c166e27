/**
 Whole runs of the task system: the scheduler of `hev-task-system-schedule.c`
 and the timers of `hev-task-timer.c` as one machine. A task runs from its
 resumption to its next yield; between two tasks the kernel queues or removes
 the task that yielded, polls, checks the timers and picks. What the clock and
 the reactor answer comes with the step.
 */
module TaskMachine {
  import opened Common
  import opened Scheduler
  import opened KeyOrder
  import opened RbShape

  /** `CONFIG_SCHED_IO_POLL_INTERVAL`, in nanoseconds */
  const POLL_INTERVAL := 50000

  /** `Kernel(polled)`: no task runs; `polled` once the pass has polled or found no need to. */
  datatype Mode = Setup | InTask | Kernel(polled: bool) | Halted

  /** `HevTaskTimerNode` on the stack of a sleeping task; `first` is the local `leftmost` of its wait. */
  datatype Sleeper<T> = Sleeper(expire: int, addr: int, task: T, first: bool)

  /** `checked` is the clock reading of the last look at the earliest timer. */
  datatype Machine<T> = Machine(sched: Sched<T>, mode: Mode, sleepers: seq<Sleeper<T>>,
                                now: int, checked: int, deadline: int, cached: Option<int>)

  datatype Action<T> =
    | Start
    | Run(task: T)
    | SetPrio(task: T, priority: int)
    | Wake(task: T)
    | Yield(ran: nat)
    | WaitIo(ran: nat)
    | Leave
    | Sleep(ms: nat, addr: int, at: int, ran: nat)
    | SleepEnd(at: int)
    | NoPoll
    | Throttled(at: int)
    | Poll(due: int, events: seq<T>, at: int, rearm: int)
    | Resume

  // ---------- Timers ----------

  /** `hev_task_timer_node_cmp (a, b) < 0` */
  predicate Earlier<T>(a: Sleeper<T>, b: Sleeper<T>) {
    a.expire < b.expire || (a.expire == b.expire && a.addr < b.addr)
  }

  ghost function Queue<T>(q: seq<Sleeper<T>>, x: Sleeper<T>): seq<Sleeper<T>> {
    if q == [] then [x] else if Earlier(x, q[0]) then [x] + q else [q[0]] + Queue(q[1..], x)
  }

  ghost function Unqueue<T>(q: seq<Sleeper<T>>, t: T): seq<Sleeper<T>> {
    if q == [] then [] else if q[0].task == t then q[1..] else [q[0]] + Unqueue(q[1..], t)
  }

  ghost predicate Asleep<T>(q: seq<Sleeper<T>>, t: T) {
    exists i :: 0 <= i < |q| && q[i].task == t
  }

  /** `hev_task_timer_wakeup`: look at the earliest timer and wake its task if it has expired. */
  ghost function Check<T>(m: Machine<T>, at: int): Option<Machine<T>> {
    if m.sleepers == [] then Some(m.(checked := at, now := at))
    else if at < m.sleepers[0].expire then Some(m.(checked := at, now := at))
    else if m.sleepers[0].task !in m.sched.recs then None
    else
      match Wakeup(m.sched, m.sleepers[0].task)
      case None => None
      case Some(s) => Some(m.(sched := s, checked := at, now := at))
  }

  /** `hev_task_timer_poll_due` */
  ghost predicate Due<T>(m: Machine<T>, at: int) {
    at < m.deadline ==> m.sleepers != [] && m.sleepers[0].expire <= m.deadline
  }

  ghost function WakeAll<T>(s: Sched<T>, events: seq<T>): Option<Sched<T>>
    decreases |events|
  {
    if events == [] then Some(s)
    else if events[0] !in s.recs then None
    else
      match Wakeup(s, events[0])
      case None => None
      case Some(u) => WakeAll(u, events[1..])
  }

  // ---------- Steps ----------

  ghost predicate Free<T>(m: Machine<T>) {
    && m.mode.InTask? && m.sched.current.Some? && m.sched.current.value in m.sched.recs
    && !Asleep(m.sleepers, m.sched.current.value)
  }

  /** The kernel after it has dealt with the task that yielded, `hev_task_system_schedule`. */
  ghost function Yielded<T>(m: Machine<T>, s: Sched<T>): Machine<T> {
    if s.total == 0 then m.(sched := s.(current := None), mode := Halted) else m.(sched := s, mode := Kernel(false))
  }

  /** The timer on the stack of the current task when it goes to sleep. */
  ghost function NewTimer<T>(m: Machine<T>, ms: nat, addr: int, at: int): Sleeper<T>
    requires m.sched.current.Some?
  {
    var x := Sleeper(at + ms * 1000000, addr, m.sched.current.value, true);
    x.(first := m.sleepers == [] || Earlier(x, m.sleepers[0]))
  }

  /** The state after a step, or `None` if the step is not possible there (or calls `abort`). */
  ghost function Next<T>(m: Machine<T>, a: Action<T>): Option<Machine<T>> {
    match a
    case Start => if m.mode.Setup? then Some(Yielded(m, m.sched)) else None
    case Run(t) => if (m.mode.Setup? || Free(m)) && t in m.sched.recs then Some(m.(sched := RunNew(m.sched, t))) else None
    case SetPrio(t, p) =>
      if (m.mode.Setup? || Free(m)) && t in m.sched.recs then Some(m.(sched := SetPriority(m.sched, t, p))) else None
    case Wake(t) =>
      if !(Free(m) && t in m.sched.recs) then None
      else
        (match Wakeup(m.sched, t)
         case None => None
         case Some(s) => Some(m.(sched := s)))
    case Yield(ran) => if Free(m) && 1 <= ran then Some(Yielded(m, Switch(m.sched, ran))) else None
    case WaitIo(ran) => if Free(m) && 1 <= ran then Some(Yielded(m, Wait(m.sched, ran))) else None
    case Leave => if Free(m) then Some(Yielded(m, Exit(m.sched))) else None
    case Sleep(ms, addr, at, ran) =>
      if !(Free(m) && 1 <= ms && 1 <= ran && m.now <= at) then None
      else
        var q := Queue(m.sleepers, NewTimer(m, ms, addr, at));
        Some(Yielded(m.(sleepers := q, now := at, cached := Some(at)), Wait(m.sched, ran)))
    case SleepEnd(at) =>
      if !(m.mode.InTask? && m.sched.current.Some? && Asleep(m.sleepers, m.sched.current.value) && m.now <= at) then None
      else
        var t := m.sched.current.value;
        var x :| x in m.sleepers && x.task == t;
        var u := m.(sleepers := Unqueue(m.sleepers, t), now := at);
        if x.first || m.sleepers[0].task == t then Check(u, at) else Some(u)
    case NoPoll =>
      if m.mode == Kernel(false) && m.sched.running == m.sched.total then Some(m.(mode := Kernel(true))) else None
    case Throttled(at) =>
      if m.mode == Kernel(false) && 0 < m.sched.running < m.sched.total && m.now <= at && !Due(m, at)
      then Some(m.(mode := Kernel(true), now := at)) else None
    case Poll(due, events, at, rearm) =>
      if !(m.mode == Kernel(false) && m.sched.running < m.sched.total && m.now <= due <= at <= rearm) then None
      else if 0 < m.sched.running && !Due(m, due) then None
      else
        (match WakeAll(m.sched, events)
         case None => None
         case Some(s) =>
           match Check(m.(sched := s, cached := None), at)
           case None => None
           case Some(u) => Some(u.(mode := Kernel(0 < u.sched.running), now := rearm, deadline := rearm + POLL_INTERVAL)))
    case Resume =>
      if m.mode == Kernel(true) && m.sched.ready != []
      then Some(m.(mode := InTask, sched := m.sched.(current := Some(m.sched.ready[0])))) else None
  }

  // ---------- The invariant of every run ----------

  ghost predicate ModeOk<T>(m: Machine<T>) {
    match m.mode
    case Setup => m.sched.current.None?
    case InTask => CurrentFirst(m.sched) && 0 < m.sched.total
    case Kernel(polled) => 0 < m.sched.total && (polled ==> m.sched.ready != [])
    case Halted => m.sched.current.None? && m.sched.total == 0
  }

  /** Timers in order, one per task, and none of a stopped task. */
  ghost predicate TimersOk<T>(q: seq<Sleeper<T>>, recs: map<T, Rec>) {
    && (forall i, j :: 0 <= i < j < |q| ==> q[i].expire <= q[j].expire && q[i].task != q[j].task)
    && (forall i :: 0 <= i < |q| ==> q[i].task in recs && !recs[q[i].task].state.Stopped?)
  }

  /** If the earliest timer had expired at the last check, its task is running. */
  ghost predicate HeadServed<T>(m: Machine<T>) {
    m.sleepers != [] && m.sleepers[0].expire <= m.checked ==>
      m.sleepers[0].task in m.sched.recs && m.sched.recs[m.sleepers[0].task].state.Running?
  }

  ghost predicate Good<T>(m: Machine<T>) {
    && Inv(m.sched) && ModeOk(m) && TimersOk(m.sleepers, m.sched.recs) && HeadServed(m)
    && m.checked <= m.now && (m.cached.Some? ==> m.cached.value <= m.now)
  }

  /** The system before any task was run. */
  ghost predicate Initial<T>(m: Machine<T>) {
    && m.mode.Setup? && m.sched.ready == [] && m.sched.total == 0 && m.sched.running == 0 && m.sched.current.None?
    && (forall t :: t in m.sched.recs ==> m.sched.recs[t].state.Stopped?)
    && m.sleepers == [] && m.cached.None? && m.checked <= m.now
  }

  /** No running task stopped running and no task stopped. */
  ghost predicate Calm<T>(a: map<T, Rec>, b: map<T, Rec>) {
    && (forall t :: t in a ==> t in b)
    && (forall t :: t in a && a[t].state.Running? ==> b[t].state.Running?)
    && (forall t :: t in a && !a[t].state.Stopped? ==> !b[t].state.Stopped?)
  }

  lemma CalmKeeps<T>(m: Machine<T>, s: Sched<T>)
    requires TimersOk(m.sleepers, m.sched.recs) && HeadServed(m) && Calm(m.sched.recs, s.recs)
    ensures TimersOk(m.sleepers, s.recs) && HeadServed(m.(sched := s))
  {
  }

  lemma WakeupCalm<T>(s: Sched<T>, t: T)
    requires t in s.recs && Wakeup(s, t).Some?
    ensures Calm(s.recs, Wakeup(s, t).value.recs) && Wakeup(s, t).value.recs[t].state.Running?
    ensures Wakeup(s, t).value.current == s.current && Wakeup(s, t).value.total == s.total
  {
  }

  lemma {:induction false} WakeAllKeeps<T>(s: Sched<T>, events: seq<T>)
    requires Inv(s) && WakeAll(s, events).Some?
    ensures var u := WakeAll(s, events).value; Inv(u) && Calm(s.recs, u.recs) && u.current == s.current && u.total == s.total
    decreases |events|
  {
    if events != [] {
      WakeupInv(s, events[0]);
      WakeupCalm(s, events[0]);
      WakeAllKeeps(Wakeup(s, events[0]).value, events[1..]);
    }
  }

  /** A check at a reading not before the last one never aborts, and afterwards no expired head is left waiting. */
  lemma CheckKeeps<T>(m: Machine<T>, at: int)
    requires Inv(m.sched) && TimersOk(m.sleepers, m.sched.recs)
    ensures Check(m, at).Some?
    ensures var u := Check(m, at).value;
            && Inv(u.sched) && TimersOk(u.sleepers, u.sched.recs) && HeadServed(u) && u.checked == at == u.now
            && u.sched.current == m.sched.current && u.sched.total == m.sched.total && u.mode == m.mode
            && Calm(m.sched.recs, u.sched.recs) && u.cached == m.cached && u.sleepers == m.sleepers
            && (CurrentFirst(m.sched) ==> CurrentFirst(u.sched))
  {
    if m.sleepers != [] && m.sleepers[0].expire <= at {
      var t := m.sleepers[0].task;
      WakeupInv(m.sched, t);
      WakeupCalm(m.sched, t);
      if CurrentFirst(m.sched) { WakeupKeepsFirst(m.sched, t); }
    }
  }

  lemma {:induction false} QueueKeeps<T>(q: seq<Sleeper<T>>, x: Sleeper<T>, recs: map<T, Rec>)
    requires TimersOk(q, recs) && !Asleep(q, x.task) && x.task in recs && !recs[x.task].state.Stopped?
    ensures TimersOk(Queue(q, x), recs)
    ensures Queue(q, x)[0] == (if q == [] || Earlier(x, q[0]) then x else q[0])
    ensures forall i :: 0 <= i < |Queue(q, x)| ==> Queue(q, x)[i] == x || Queue(q, x)[i] in q
  {
    if q != [] && !Earlier(x, q[0]) {
      assert forall i :: 0 <= i < |q[1..]| ==> q[1..][i] == q[i + 1];
      QueueKeeps(q[1..], x, recs);
      var r := Queue(q[1..], x);
      forall i | 0 <= i < |r| ensures q[0].expire <= r[i].expire && q[0].task != r[i].task && (r[i] == x || r[i] in q) {
        if r[i] != x { assert r[i] in q[1..]; }
      }
    }
  }

  lemma {:induction false} UnqueueKeeps<T>(q: seq<Sleeper<T>>, t: T, recs: map<T, Rec>)
    requires TimersOk(q, recs)
    ensures TimersOk(Unqueue(q, t), recs) && !Asleep(Unqueue(q, t), t)
    ensures q != [] && q[0].task != t ==> Unqueue(q, t) != [] && Unqueue(q, t)[0] == q[0]
    ensures forall i :: 0 <= i < |Unqueue(q, t)| ==> Unqueue(q, t)[i] in q
  {
    if q != [] {
      assert forall i :: 0 <= i < |q[1..]| ==> q[1..][i] == q[i + 1];
      if q[0].task != t {
        UnqueueKeeps(q[1..], t, recs);
        var r := Unqueue(q[1..], t);
        forall i | 0 <= i < |r|
          ensures q[0].expire <= r[i].expire && q[0].task != r[i].task && r[i] in q
        {
          assert r[i] in q[1..];
        }
        InFront(q[0], r, recs, t);
      }
    }
  }

  lemma InFront<T>(x: Sleeper<T>, q: seq<Sleeper<T>>, recs: map<T, Rec>, t: T)
    requires TimersOk(q, recs) && x.task in recs && !recs[x.task].state.Stopped?
    requires forall i :: 0 <= i < |q| ==> x.expire <= q[i].expire && x.task != q[i].task
    ensures TimersOk([x] + q, recs)
    ensures x.task != t && !Asleep(q, t) ==> !Asleep([x] + q, t)
  {
  }

  /** The record of a task without a timer may change in any way. */
  lemma OutsideKeeps<T>(m: Machine<T>, t: T, r: Rec)
    requires TimersOk(m.sleepers, m.sched.recs) && HeadServed(m) && !Asleep(m.sleepers, t)
    ensures TimersOk(m.sleepers, m.sched.recs[t := r]) && HeadServed(m.(sched := m.sched.(recs := m.sched.recs[t := r])))
  {
    forall i | 0 <= i < |m.sleepers| ensures m.sleepers[i].task != t {}
  }

  lemma AliveSome<T>(s: Sched<T>)
    requires Inv(s) && s.ready != []
    ensures 0 < s.total
  {
    assert s.ready[0] in s.ready && s.ready[0] in Alive(s.recs);
  }

  lemma YieldGood<T>(m: Machine<T>, ran: nat)
    requires Good(m) && Free(m)
    ensures Good(Yielded(m, Switch(m.sched, ran)))
  {
    var c, u := m.sched.current.value, Switch(m.sched, ran);
    SwitchInv(m.sched, ran);
    assert u.recs == m.sched.recs[c := u.recs[c]];
    OutsideKeeps(m, c, u.recs[c]);
  }

  lemma WaitGood<T>(m: Machine<T>, ran: nat)
    requires Good(m) && Free(m)
    ensures Good(Yielded(m, Wait(m.sched, ran)))
  {
    var c, u := m.sched.current.value, Wait(m.sched, ran);
    WaitInv(m.sched, ran);
    assert u.recs == m.sched.recs[c := u.recs[c]];
    OutsideKeeps(m, c, u.recs[c]);
  }

  lemma LeaveGood<T>(m: Machine<T>)
    requires Good(m) && Free(m)
    ensures Good(Yielded(m, Exit(m.sched)))
  {
    var c, u := m.sched.current.value, Exit(m.sched);
    ExitInv(m.sched);
    OutsideKeeps(m, c, u.recs[c]);
  }

  lemma SleepGood<T>(m: Machine<T>, ms: nat, addr: int, at: int, ran: nat)
    requires Good(m) && Next(m, Sleep(ms, addr, at, ran)).Some?
    ensures Good(Next(m, Sleep(ms, addr, at, ran)).value)
  {
    var c, u := m.sched.current.value, Wait(m.sched, ran);
    var x := NewTimer(m, ms, addr, at);
    WaitGood(m, ran);
    assert u.recs == m.sched.recs[c := u.recs[c]];
    QueueKeeps(m.sleepers, x, u.recs);
    hide Inv, TimersOk, Queue, Asleep;
  }

  lemma SleepEndGood<T>(m: Machine<T>, at: int)
    requires Good(m) && Next(m, SleepEnd(at)).Some?
    ensures Good(Next(m, SleepEnd(at)).value)
  {
    var t := m.sched.current.value;
    var u := m.(sleepers := Unqueue(m.sleepers, t), now := at);
    UnqueueKeeps(m.sleepers, t, m.sched.recs);
    CheckKeeps(u, at);
  }

  lemma PollGood<T>(m: Machine<T>, due: int, events: seq<T>, at: int, rearm: int)
    requires Good(m) && Next(m, Poll(due, events, at, rearm)).Some?
    ensures Good(Next(m, Poll(due, events, at, rearm)).value)
  {
    WakeAllKeeps(m.sched, events);
    var s := WakeAll(m.sched, events).value;
    CalmKeeps(m, s);
    CheckKeeps(m.(sched := s, cached := None), at);
  }

  lemma TaskCallGood<T>(m: Machine<T>, a: Action<T>)
    requires Good(m) && (a.Run? || a.SetPrio? || a.Wake?) && Next(m, a).Some?
    ensures Good(Next(m, a).value)
  {
    var t := a.task;
    match a
    case Run(_) =>
      RunNewInv(m.sched, t);
      CalmKeeps(m, RunNew(m.sched, t));
      if m.mode.InTask? { RunNewKeepsFirst(m.sched, t); }
    case SetPrio(_, p) =>
      SetPriorityInv(m.sched, t, p);
      CalmKeeps(m, SetPriority(m.sched, t, p));
    case Wake(_) =>
      WakeupInv(m.sched, t);
      WakeupCalm(m.sched, t);
      WakeupKeepsFirst(m.sched, t);
      CalmKeeps(m, Wakeup(m.sched, t).value);
  }

  /** Every step keeps the invariant. */
  lemma StepGood<T>(m: Machine<T>, a: Action<T>)
    requires Good(m) && Next(m, a).Some?
    ensures Good(Next(m, a).value)
  {
    match a
    case Yield(ran) => YieldGood(m, ran);
    case WaitIo(ran) => WaitGood(m, ran);
    case Leave => LeaveGood(m);
    case Sleep(ms, addr, at, ran) => SleepGood(m, ms, addr, at, ran);
    case SleepEnd(at) => SleepEndGood(m, at);
    case Poll(due, events, at, rearm) => PollGood(m, due, events, at, rearm);
    case Resume => AliveSome(m.sched);
    case Start =>
    case NoPoll =>
    case Throttled(_) =>
    case Run(_) => TaskCallGood(m, a);
    case SetPrio(_, _) => TaskCallGood(m, a);
    case Wake(_) => TaskCallGood(m, a);
  }

  // ---------- Whole runs ----------

  ghost predicate IsRun<T>(tr: seq<Machine<T>>, acts: seq<Action<T>>) {
    |tr| == |acts| + 1 && forall i :: 0 <= i < |acts| ==> Next(tr[i], acts[i]) == Some(tr[i + 1])
  }

  lemma InitialGood<T>(m: Machine<T>)
    requires Initial(m)
    ensures Good(m)
  {
    assert Alive(m.sched.recs) == {};
  }

  lemma {:induction false} RunGood<T>(tr: seq<Machine<T>>, acts: seq<Action<T>>, i: nat)
    requires IsRun(tr, acts) && Good(tr[0]) && i < |tr|
    ensures Good(tr[i])
  {
    if i > 0 {
      RunGood(tr, acts, i - 1);
      assert Next(tr[i - 1], acts[i - 1]) == Some(tr[i]);
      StepGood(tr[i - 1], acts[i - 1]);
    }
  }

  ghost function InState<T>(recs: map<T, Rec>, st: TaskState): set<T> {
    set t | t in recs && recs[t].state == st
  }

  /**
   In every state of every run the queue holds exactly the running tasks, the
   counters are their numbers, a task in control is at the head of the queue,
   the kernel never picks from an empty queue, the run has ended exactly when
   no task is left, and no timer that had expired at the last check is the
   earliest one with its task still waiting.
   */
  lemma EveryRun<T>(tr: seq<Machine<T>>, acts: seq<Action<T>>, i: nat)
    requires IsRun(tr, acts) && Initial(tr[0]) && i < |tr|
    ensures var m := tr[i];
            var s := m.sched;
            && (set t | t in s.ready) == InState(s.recs, Running)
            && s.running == |InState(s.recs, Running)|
            && s.total == |InState(s.recs, Running)| + |InState(s.recs, Waiting)|
            && (m.mode.InTask? ==> s.ready != [] && s.current == Some(s.ready[0]))
            && (m.mode == Kernel(true) ==> Next(m, Resume).Some?)
            && (!m.mode.Setup? ==> (m.mode.Halted? <==> s.total == 0))
            && (m.sleepers != [] && m.sleepers[0].expire <= m.checked ==> m.sleepers[0].task in InState(s.recs, Running))
  {
    InitialGood(tr[0]);
    RunGood(tr, acts, i);
    Counts(tr[i].sched);
  }

  lemma Counts<T>(s: Sched<T>)
    requires Inv(s)
    ensures (set t | t in s.ready) == InState(s.recs, Running) && s.running == |InState(s.recs, Running)|
    ensures s.total == |InState(s.recs, Running)| + |InState(s.recs, Waiting)|
  {
    assert (set t | t in s.ready) == InState(s.recs, Running);
    NoRepeatSize(s.ready);
    assert Alive(s.recs) == InState(s.recs, Running) + InState(s.recs, Waiting);
  }

  lemma {:induction false} NoRepeatSize<T>(s: seq<T>)
    requires NoRepeat(s)
    ensures |set t | t in s| == |s|
  {
    if s == [] {
      assert (set t | t in s) == {};
    } else {
      var r := s[1..];
      assert s == [s[0]] + r;
      forall i | 0 <= i < |r| ensures r[i] == s[i + 1] && r[i] != s[0] {}
      NoRepeatSize(r);
      var a, b := set t | t in s, set t | t in r;
      assert s[0] !in b;
      assert a == {s[0]} + b;
    }
  }

  lemma Passes<T>(m: Machine<T>, at: int)
    requires m.mode == Kernel(false) && m.now <= at
    ensures Next(m, NoPoll).Some? <==> m.sched.running == m.sched.total
    ensures Next(m, Throttled(at)).Some? <==> 0 < m.sched.running < m.sched.total && !Due(m, at)
    ensures
      Next(m, Poll(at, [], at, at)).Some? <==>
        m.sched.running < m.sched.total && (0 < m.sched.running ==> Due(m, at)) && Check(m.(cached := None), at).Some?
  {
    hide Check, Due;
  }

  /** The kernel is never stuck: whatever the clock says, a pass goes on without an abort. */
  lemma KernelGoesOn<T>(m: Machine<T>, at: int)
    requires Good(m) && m.mode == Kernel(false) && m.now <= at
    ensures Next(m, NoPoll).Some? || Next(m, Throttled(at)).Some? || Next(m, Poll(at, [], at, at)).Some?
  {
    Passes(m, at);
    CheckKeeps(m.(cached := None), at);
    Counts(m.sched);
    hide Next, Check, Due, InState, TimersOk, Inv;
  }

  /** A pass that skips polling does so only when no timer has expired. */
  lemma ThrottledOnlyEarly<T>(m: Machine<T>, at: int)
    requires Good(m) && Next(m, Throttled(at)).Some?
    ensures forall i :: 0 <= i < |m.sleepers| ==> at < m.sleepers[i].expire
  {
    if m.sleepers != [] {
      forall i | 0 <= i < |m.sleepers| ensures m.sleepers[0].expire <= m.sleepers[i].expire {}
    }
  }

  /** A resumed sleeper that is the earliest one, or was when it lay down, hands on: the next one is running if it had expired by then. */
  lemma SleeperHandsOn<T>(m: Machine<T>, at: int, x: Sleeper<T>)
    requires Good(m) && Next(m, SleepEnd(at)).Some? && x in m.sleepers && Some(x.task) == m.sched.current
    requires x.first || m.sleepers[0].task == x.task
    ensures var n := Next(m, SleepEnd(at)).value;
            && n.checked == at
            && (n.sleepers != [] && n.sleepers[0].expire <= at ==> n.sched.recs[n.sleepers[0].task].state.Running?)
  {
    SleepEndGood(m, at);
    OneTimer(m, x);
    UnqueueKeeps(m.sleepers, m.sched.current.value, m.sched.recs);
    CheckKeeps(m.(sleepers := Unqueue(m.sleepers, m.sched.current.value), now := at), at);
    hide Check, Unqueue, Inv;
  }

  lemma OneTimer<T>(m: Machine<T>, x: Sleeper<T>)
    requires TimersOk(m.sleepers, m.sched.recs) && x in m.sleepers
    ensures forall y :: y in m.sleepers && y.task == x.task ==> y == x
  {
  }
}
