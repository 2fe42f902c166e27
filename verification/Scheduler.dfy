/**
 The scheduler's bookkeeping as values: the run queue in key order, the record
 of every task, the two counters and the current task. `TaskSystem` in
 TaskSystem.dfy carries out these operations on a red-black tree of nodes.
 */
module Scheduler {
  import opened Common
  import opened KeyOrder
  import opened RbShape

  datatype TaskState = Stopped | Running | Waiting

  /** The scheduling fields of `HevTask`; `key` is `sched_key`. */
  datatype Rec = Rec(state: TaskState, key: nat, priority: nat, next: nat)

  datatype Sched<T> = Sched(ready: seq<T>, recs: map<T, Rec>, total: int, running: int, current: Option<T>)

  ghost function KeyMap<T>(recs: map<T, Rec>): Keys<T> {
    map t | t in recs :: recs[t].key
  }

  /** `hev_task_system_get_min_sched_key` */
  ghost function MinKey<T>(s: Sched<T>): nat {
    if s.ready != [] && s.ready[0] in s.recs then s.recs[s.ready[0]].key else 0
  }

  /** `hev_task_system_insert_task` */
  ghost function Insert<T>(s: Sched<T>, t: T): Sched<T>
    requires t in s.recs
  {
    var recs := s.recs[t := s.recs[t].(state := Running, priority := s.recs[t].next)];
    s.(recs := recs, ready := Stable(s.ready, t, KeyMap(recs)), running := s.running + 1)
  }

  /** The total plays no part in it. */
  lemma InsertTotal<T>(s: Sched<T>, t: T, total: int)
    requires t in s.recs
    ensures Insert(s.(total := total), t) == Insert(s, t).(total := total) && Insert(s, t).total == s.total
  {
  }

  /** `hev_task_system_wakeup_task_with_context`; `None` is the call of `abort`. */
  ghost function Wakeup<T>(s: Sched<T>, t: T): Option<Sched<T>>
    requires t in s.recs
  {
    match s.recs[t].state
    case Running => Some(s)
    case Stopped => None
    case Waiting =>
      var r := s.recs[t];
      Some(Insert(s.(recs := s.recs[t := r.(key := r.key + MinKey(s))]), t))
  }

  /** `hev_task_run` with `hev_task_system_run_new_task` */
  ghost function RunNew<T>(s: Sched<T>, t: T): Sched<T>
    requires t in s.recs
  {
    var r := s.recs[t];
    if !r.state.Stopped? then s
    else
      var k := r.next + (if s.current.Some? then MinKey(s) else 0);
      var i := Insert(s.(recs := s.recs[t := r.(priority := r.next, key := k)]), t);
      i.(total := i.total + 1)
  }

  const PRIORITY_DEFAULT := 8

  /** `hev_task_new`: a stopped task of the default priority. */
  ghost function Created<T>(s: Sched<T>, t: T): Sched<T> {
    s.(recs := s.recs[t := Rec(Stopped, 0, 0, PRIORITY_DEFAULT)])
  }

  const PRIORITY_MIN := 0
  const PRIORITY_MAX := 15

  /** The priority in range nearest to the one asked for. */
  function Clamp(p: int): (r: nat)
    ensures 0 <= r <= 15 && (0 <= p <= 15 ==> r == p) && (p < 0 ==> r == 0) && (p > 15 ==> r == 15)
  {
    if p < PRIORITY_MIN then PRIORITY_MIN else if p > PRIORITY_MAX then PRIORITY_MAX else p
  }

  /** `hev_task_set_priority` */
  ghost function SetPriority<T>(s: Sched<T>, t: T, p: int): Sched<T>
    requires t in s.recs
  {
    s.(recs := s.recs[t := s.recs[t].(next := Clamp(p))])
  }

  /** `hev_task_system_update_sched_key`; `ran` is the measured run time, at least 1. */
  ghost function Charge<T>(s: Sched<T>, ran: nat): Sched<T>
    requires s.current.Some? && s.current.value in s.recs
  {
    var c := s.current.value;
    var r := s.recs[c];
    s.(recs := s.recs[c := r.(key := r.key + ran * r.priority)])
  }

  /** `HEV_TASK_SCHED_SWITCH`: charge the current task and queue it again. */
  ghost function Switch<T>(s: Sched<T>, ran: nat): Sched<T>
    requires s.current.Some? && s.current.value in s.recs
  {
    var c, u := s.current.value, Charge(s, ran);
    var recs := u.recs[c := u.recs[c].(priority := u.recs[c].next)];
    u.(recs := recs, ready := Stable(Without(u.ready, c), c, KeyMap(recs)))
  }

  /** `HEV_TASK_SCHED_WAITIO`: the current task leaves the run queue. */
  ghost function Wait<T>(s: Sched<T>, ran: nat): Sched<T>
    requires s.current.Some? && s.current.value in s.recs
  {
    var c, u := s.current.value, Charge(s, ran);
    u.(recs := u.recs[c := u.recs[c].(state := Waiting, key := u.recs[c].next)],
       ready := Without(u.ready, c), running := u.running - 1)
  }

  /** `HEV_TASK_SCHED_REMOVE`: the current task ends. */
  ghost function Exit<T>(s: Sched<T>): Sched<T>
    requires s.current.Some? && s.current.value in s.recs
  {
    var c := s.current.value;
    s.(recs := s.recs[c := s.recs[c].(state := Stopped)], ready := Without(s.ready, c),
       running := s.running - 1, total := s.total - 1)
  }

  // ---------- What every operation keeps ----------

  ghost function Alive<T>(recs: map<T, Rec>): set<T> {
    set t | t in recs && !recs[t].state.Stopped?
  }

  /** The queue holds exactly the running tasks, once each and in key order, and the counters are right. */
  ghost predicate Inv<T>(s: Sched<T>) {
    && NoRepeat(s.ready) && Sorted(s.ready, KeyMap(s.recs))
    && (forall t :: t in s.ready ==> t in s.recs && s.recs[t].state.Running?)
    && (forall t :: t in s.recs && s.recs[t].state.Running? ==> t in s.ready)
    && s.running == |s.ready|
    && s.total == |Alive(s.recs)|
  }

  /** The running task is at the head of the queue. */
  ghost predicate CurrentFirst<T>(s: Sched<T>) {
    s.ready != [] && s.current == Some(s.ready[0])
  }

  lemma {:induction false} StableNoRepeat<T>(s: seq<T>, t: T, k: Keys<T>)
    requires NoRepeat(s) && t !in s
    ensures NoRepeat(Stable(s, t, k))
    ensures forall x :: x in Stable(s, t, k) ==> x in s || x == t
    ensures forall x :: x in s ==> x in Stable(s, t, k)
    ensures t in Stable(s, t, k)
  {
    StableContents(s, t, k);
    var r := Stable(s, t, k);
    forall x | x in r ensures x in s || x == t { assert x in multiset(r); }
    forall x | x in s ensures x in r { assert x in multiset(s); assert x in multiset(r); }
    assert t in multiset(r);
    forall i, j | 0 <= i < j < |r| ensures r[i] != r[j] { OnceEach(s, t, r, i, j); }
  }

  lemma OnceEach<T>(s: seq<T>, t: T, r: seq<T>, i: nat, j: nat)
    requires NoRepeat(s) && t !in s && multiset(r) == multiset(s) + multiset{t} && i < j < |r|
    ensures r[i] != r[j]
  {
    NoRepeatCount(s, r[i]);
    assert r == r[..i] + [r[i]] + r[i + 1..j] + [r[j]] + r[j + 1..];
    assert multiset(r)[r[i]] >= 1 + (if r[i] == r[j] then 1 else 0);
  }

  lemma {:induction false} NoRepeatCount<T>(s: seq<T>, x: T)
    requires NoRepeat(s)
    ensures multiset(s)[x] <= 1 && (x !in s ==> multiset(s)[x] == 0)
  {
    if s != [] {
      NoRepeatCount(s[1..], x);
      assert s == [s[0]] + s[1..];
      if s[0] == x { assert forall i :: 0 <= i < |s[1..]| ==> s[1..][i] == s[i + 1] != s[0]; }
    }
  }

  lemma AliveChange<T>(recs: map<T, Rec>, t: T, r: Rec)
    requires t in recs
    ensures |Alive(recs[t := r])| ==
            |Alive(recs)| + (if recs[t].state.Stopped? then 0 else -1) + (if r.state.Stopped? then 0 else 1)
  {
    var a := Alive(recs);
    if r.state.Stopped? {
      assert Alive(recs[t := r]) == a - {t};
    } else {
      assert Alive(recs[t := r]) == a + {t};
      if t in a { assert a + {t} == a; }
    }
  }

  /** A change of the record of a task outside `q` leaves the order of `q` alone. */
  lemma SortedOutside<T>(q: seq<T>, recs: map<T, Rec>, t: T, r: Rec)
    requires Sorted(q, KeyMap(recs)) && t !in q
    ensures Sorted(q, KeyMap(recs[t := r]))
  {
    forall i, j | 0 <= i < j < |q|
      ensures At(KeyMap(recs[t := r]), q[i]) <= At(KeyMap(recs[t := r]), q[j])
    {
      assert q[i] in q && q[j] in q;
    }
  }

  lemma {:induction false} WithoutKeeps<T>(q: seq<T>, c: T, k: Keys<T>)
    requires NoRepeat(q) && Sorted(q, k)
    ensures NoRepeat(Without(q, c)) && Sorted(Without(q, c), k) && c !in Without(q, c)
    ensures forall x :: x in Without(q, c) ==> x in q
    ensures forall x :: x in q && x != c ==> x in Without(q, c)
    ensures |Without(q, c)| == if c in q then |q| - 1 else |q|
  {
    if q == [] {
    } else if q[0] == c {
      assert forall i :: 0 <= i < |q[1..]| ==> q[1..][i] == q[i + 1];
    } else {
      WithoutKeeps(q[1..], c, k);
      var w := Without(q[1..], c);
      assert q == [q[0]] + q[1..];
      forall i | 0 <= i < |w| ensures q[0] != w[i] && At(k, q[0]) <= At(k, w[i]) {
        assert w[i] in w;
        var j :| 0 <= j < |q[1..]| && q[1..][j] == w[i];
        assert w[i] == q[j + 1];
      }
    }
  }

  lemma EnterInv<T>(s: Sched<T>, t: T, r: Rec, grow: int)
    requires Inv(s) && t in s.recs && !s.recs[t].state.Running? && r.state.Running?
    requires grow == if s.recs[t].state.Stopped? then 1 else 0
    ensures var recs := s.recs[t := r];
            Inv(s.(recs := recs, ready := Stable(s.ready, t, KeyMap(recs)), running := s.running + 1, total := s.total + grow))
  {
    var recs := s.recs[t := r];
    SortedOutside(s.ready, s.recs, t, r);
    StableSorted(s.ready, t, KeyMap(recs));
    StableNoRepeat(s.ready, t, KeyMap(recs));
    StableContents(s.ready, t, KeyMap(recs));
    AliveChange(s.recs, t, r);
  }

  lemma WakeupInv<T>(s: Sched<T>, t: T)
    requires Inv(s) && t in s.recs
    ensures Wakeup(s, t).Some? ==> Inv(Wakeup(s, t).value)
  {
    if s.recs[t].state.Waiting? {
      var r := s.recs[t];
      var q := Rec(Running, r.key + MinKey(s), r.next, r.next);
      EnterInv(s, t, q, 0);
      assert Wakeup(s, t).value.recs == s.recs[t := q];
    }
  }

  lemma RunNewInv<T>(s: Sched<T>, t: T)
    requires Inv(s) && t in s.recs
    ensures Inv(RunNew(s, t))
  {
    if s.recs[t].state.Stopped? {
      var r := s.recs[t];
      var q := Rec(Running, r.next + (if s.current.Some? then MinKey(s) else 0), r.next, r.next);
      EnterInv(s, t, q, 1);
      assert RunNew(s, t).recs == s.recs[t := q];
    }
  }

  lemma CreatedInv<T>(s: Sched<T>, t: T)
    requires Inv(s) && t !in s.recs
    ensures Inv(Created(s, t))
  {
    var r := Created(s, t);
    assert Alive(r.recs) == Alive(s.recs);
    assert t !in s.ready;
    SortedOutside(s.ready, s.recs, t, r.recs[t]);
  }

  lemma SetPriorityInv<T>(s: Sched<T>, t: T, p: int)
    requires Inv(s) && t in s.recs
    ensures Inv(SetPriority(s, t, p))
  {
    AliveChange(s.recs, t, SetPriority(s, t, p).recs[t]);
    assert KeyMap(SetPriority(s, t, p).recs) == KeyMap(s.recs);
  }

  lemma SwitchInv<T>(s: Sched<T>, ran: nat)
    requires Inv(s) && CurrentFirst(s)
    ensures Inv(Switch(s, ran))
  {
    var c, u := s.current.value, Switch(s, ran);
    var q := Without(s.ready, c);
    assert u.recs == s.recs[c := u.recs[c]];
    WithoutKeeps(s.ready, c, KeyMap(s.recs));
    SortedOutside(q, s.recs, c, u.recs[c]);
    StableSorted(q, c, KeyMap(u.recs));
    StableNoRepeat(q, c, KeyMap(u.recs));
    StableContents(q, c, KeyMap(u.recs));
    AliveChange(s.recs, c, u.recs[c]);
  }

  lemma LeaveInv<T>(s: Sched<T>, r: Rec, shrink: int)
    requires Inv(s) && CurrentFirst(s) && !r.state.Running? && shrink == (if r.state.Stopped? then 1 else 0)
    ensures var c := s.current.value;
            Inv(s.(recs := s.recs[c := r], ready := Without(s.ready, c), running := s.running - 1, total := s.total - shrink))
  {
    var c := s.current.value;
    WithoutKeeps(s.ready, c, KeyMap(s.recs));
    SortedOutside(Without(s.ready, c), s.recs, c, r);
    AliveChange(s.recs, c, r);
  }

  lemma WaitInv<T>(s: Sched<T>, ran: nat)
    requires Inv(s) && CurrentFirst(s)
    ensures Inv(Wait(s, ran))
  {
    var c := s.current.value;
    var r := Wait(s, ran).recs[c];
    LeaveInv(s, r, 0);
    assert Wait(s, ran).recs == s.recs[c := r];
  }

  lemma ExitInv<T>(s: Sched<T>)
    requires Inv(s) && CurrentFirst(s)
    ensures Inv(Exit(s))
  {
    LeaveInv(s, s.recs[s.current.value].(state := Stopped), 1);
  }

  // ---------- The running task stays first ----------

  /** No wakeup displaces the running task. */
  lemma WakeupKeepsFirst<T>(s: Sched<T>, t: T)
    requires Inv(s) && CurrentFirst(s) && t in s.recs && Wakeup(s, t).Some?
    ensures CurrentFirst(Wakeup(s, t).value) && MinKey(Wakeup(s, t).value) == MinKey(s)
  {
    assert s.ready[0] in s.ready;
  }

  /** Nor does a new task. */
  lemma RunNewKeepsFirst<T>(s: Sched<T>, t: T)
    requires Inv(s) && CurrentFirst(s) && t in s.recs
    ensures CurrentFirst(RunNew(s, t)) && MinKey(RunNew(s, t)) == MinKey(s)
  {
    assert s.ready[0] in s.ready;
  }
}
