/**
 `hev-task-system-schedule.c` on objects: tasks embed a run-queue node, and the
 run queue is the red-black tree. Every operation carries out the one of the
 same name on the values of Scheduler.dfy.
 */
module TaskSystem {
  import opened Common
  import opened RbShape
  import opened RbCells
  import opened KeyOrder
  import opened RunQueue
  import S = Scheduler
  import M = TaskMachine

  /** The scheduling fields of `HevTask`; the sched_key is the key of the embedded node. */
  class Task {
    const node: Node
    var state: S.TaskState
    var priority: nat
    var next: nat

    constructor ()
      ensures fresh(node) && node.key == 0 && state == S.Stopped && priority == 0 && next == S.PRIORITY_DEFAULT
    {
      node := new Node(0);
      state, priority, next := S.Stopped, 0, S.PRIORITY_DEFAULT;
    }
  }

  ghost function Record(t: Task): S.Rec
    reads t, t.node`key
  {
    S.Rec(t.state, if t.node.key < 0 then 0 else t.node.key, t.priority, t.next)
  }

  lemma SameKeys(recs: map<Node, S.Rec>, n: Node, r: S.Rec)
    requires n in recs && r.key == recs[n].key
    ensures S.KeyMap(recs[n := r]) == S.KeyMap(recs)
  {
  }

  /** The parts of an insertion; the new state and priority do not matter for the order. */
  lemma InsertParts(s: S.Sched<Node>, n: Node)
    requires n in s.recs
    ensures
      var r := s.recs[n].(state := S.Running, priority := s.recs[n].next);
      && S.Insert(s, n) == s.(recs := s.recs[n := r], ready := Stable(s.ready, n, S.KeyMap(s.recs)), running := s.running + 1)
      && S.KeyMap(s.recs[n := r]) == S.KeyMap(s.recs)
  {
    SameKeys(s.recs, n, s.recs[n].(state := S.Running, priority := s.recs[n].next));
  }

  class System {
    const queue: CachedTree
    /** `container_of`: the task that embeds a node. */
    var owner: map<Node, Task>
    var total: int
    var running: int
    var current: Task?

    constructor ()
      ensures Valid() && Is(S.Sched([], map[], 0, 0, None))
    {
      queue := new CachedTree();
      owner, total, running, current := map[], 0, 0, null;
    }

    ghost predicate Valid()
      reads this`owner, this`current, queue, queue.base, owner.Values, owner.Keys`key
      reads Nodes(queue.base.shape)`parent, Nodes(queue.base.shape)`color, Nodes(queue.base.shape)`left, Nodes(queue.base.shape)`right
    {
      && queue.Valid() && Nodes(queue.base.shape) <= owner.Keys
      && (forall n :: n in owner ==> owner[n].node == n && 0 <= n.key)
      && (current != null ==> current.node in owner && owner[current.node] == current)
    }

    ghost function Recs(): map<Node, S.Rec>
      reads this`owner, owner.Values, owner.Keys`key
      requires forall n :: n in owner ==> owner[n].node == n
    {
      map n | n in owner :: Record(owner[n])
    }

    /** The objects stand for the value `s`. */
    ghost predicate Is(s: S.Sched<Node>)
      reads this`owner, this`total, this`running, this`current, queue.base`shape, owner.Values, owner.Keys`key
      requires forall n :: n in owner ==> owner[n].node == n
    {
      && queue.Items() == s.ready && Recs() == s.recs && total == s.total && running == s.running
      && s.current == if current == null then None else Some(current.node)
    }

    /** `hev_task_new`, as far as the scheduler goes: a stopped task of the default priority joins the system. */
    method NewTask(ghost s: S.Sched<Node>) returns (t: Task)
      requires Valid() && Is(s)
      modifies this`owner
      ensures Valid() && fresh(t) && fresh(t.node) && Owned(t) && owner == old(owner)[t.node := t]
      ensures t.node !in s.recs && Is(S.Created(s, t.node)) && t.state.Stopped? && t.next == 8
    {
      hide Nodes, Inorder, RedBlack, TreeAt, Distinct, Snap;
      t := new Task();
      Adopt(t);
    }

    method Adopt(t: Task)
      requires Valid() && t.node !in owner && t.node.key >= 0
      modifies this`owner
      ensures Valid() && owner == old(owner)[t.node := t] && Recs() == old(Recs())[t.node := Record(t)]
    {
      hide Nodes, Inorder, RedBlack, TreeAt, Distinct, Snap;
      owner := owner[t.node := t];
    }

    ghost predicate Owned(t: Task)
      reads this`owner
    {
      t.node in owner && owner[t.node] == t
    }

    /** `hev_task_system_get_min_sched_key` */
    method MinKey(ghost s: S.Sched<Node>) returns (k: nat)
      requires Valid() && Is(s) && S.Inv(s)
      ensures Valid() && Is(s) && k == S.MinKey(s)
    {
      hide Nodes, Inorder, RedBlack;
      var n := queue.leftmost;
      CachedTree.ItemsNodes(queue.base.shape);
      if n == null {
        return 0;
      }
      return n.key;
    }

    lemma KeysRight()
      requires forall n :: n in owner ==> owner[n].node == n && 0 <= n.key
      ensures forall n :: n in owner ==> n in S.KeyMap(Recs()) && S.KeyMap(Recs())[n] == n.key
    {
    }

    lemma FieldsRight(t: Task)
      requires Owned(t) && forall n :: n in owner ==> owner[n].node == n && 0 <= n.key
      ensures Recs()[t.node] == S.Rec(t.state, t.node.key, t.priority, t.next)
    {
    }

    method SetState(t: Task, state: S.TaskState, priority: nat)
      requires Valid() && Owned(t)
      modifies t`state, t`priority
      ensures Valid() && Recs() == old(Recs())[t.node := old(Recs())[t.node].(state := state, priority := priority)]
    {
      hide Nodes, Inorder, RedBlack;
      t.state, t.priority := state, priority;
    }

    method Enqueue(t: Task)
      requires Valid() && Owned(t) && t.node !in Nodes(queue.base.shape) && Sorted(queue.Items(), S.KeyMap(Recs()))
      modifies t.node`parent, t.node`color, t.node`left, t.node`right
      modifies queue`leftmost, queue.base
      modifies Nodes(queue.base.shape)`parent, Nodes(queue.base.shape)`color, Nodes(queue.base.shape)`left, Nodes(queue.base.shape)`right
      ensures Valid() && Recs() == old(Recs()) && queue.Items() == Stable(old(queue.Items()), t.node, S.KeyMap(old(Recs())))
      ensures Nodes(queue.base.shape) == old(Nodes(queue.base.shape)) + {t.node}
    {
      hide Nodes, Inorder, RedBlack, Stable, Sorted, TreeAt, Distinct, Snap, Record;
      KeysRight();
      ghost var depth := queue.Insert(t.node, S.KeyMap(Recs()));
    }

    method Dequeue(t: Task)
      requires Valid() && t.node in Nodes(queue.base.shape)
      modifies queue`leftmost, queue.base
      modifies Nodes(queue.base.shape)`parent, Nodes(queue.base.shape)`color, Nodes(queue.base.shape)`left, Nodes(queue.base.shape)`right
      ensures Valid() && Recs() == old(Recs()) && queue.Items() == Without(old(queue.Items()), t.node)
      ensures Nodes(queue.base.shape) == old(Nodes(queue.base.shape)) - {t.node}
    {
      hide Nodes, Inorder, RedBlack, Stable, Sorted, TreeAt, Distinct, Snap, Record, Without;
      queue.Erase(t.node);
    }

    /** `hev_task_set_priority` */
    method SetPriority(t: Task, priority: int, ghost s: S.Sched<Node>)
      requires Valid() && Is(s) && Owned(t)
      modifies t`next
      ensures Valid() && Is(S.SetPriority(s, t.node, priority)) && t.next == S.Clamp(priority)
    {
      hide Nodes, Inorder, RedBlack, TreeAt, Distinct, Snap;
      ghost var recs := Recs();
      t.next := S.Clamp(priority);
      assert Recs() == recs[t.node := recs[t.node].(next := S.Clamp(priority))];
    }

    method SetKey(t: Task, key: nat)
      requires Valid() && Owned(t)
      modifies t.node`key
      ensures Valid() && Recs() == old(Recs())[t.node := old(Recs())[t.node].(key := key)]
    {
      hide Nodes, Inorder, RedBlack;
      t.node.key := key;
    }

    /** `hev_task_system_insert_task` */
    method InsertTask(t: Task, ghost s: S.Sched<Node>)
      requires Valid() && Is(s) && Owned(t) && t.node !in Nodes(queue.base.shape) && Sorted(s.ready, S.KeyMap(s.recs))
      modifies this`running, t`state, t`priority, t.node`parent, t.node`color, t.node`left, t.node`right
      modifies queue`leftmost, queue.base
      modifies Nodes(queue.base.shape)`parent, Nodes(queue.base.shape)`color, Nodes(queue.base.shape)`left, Nodes(queue.base.shape)`right
      ensures Valid() && Is(S.Insert(s, t.node)) && Nodes(queue.base.shape) == old(Nodes(queue.base.shape)) + {t.node}
    {
      hide Nodes, Inorder, RedBlack, Stable, Sorted, TreeAt, Distinct, Snap, Record, Without, NoRepeat;
      hide S.KeyMap, S.Insert;
      FieldsRight(t);
      InsertParts(s, t.node);
      Enter(t);
      Count(S.Insert(s, t.node).(running := s.running), 1);
    }

    /** A change of the count of running tasks alone. */
    method Count(ghost s: S.Sched<Node>, d: int)
      requires Valid() && Is(s)
      modifies this`running
      ensures Valid() && Is(s.(running := s.running + d))
    {
      hide Nodes, Inorder, RedBlack, Record;
      running := running + d;
    }

    method Enter(t: Task)
      requires Valid() && Owned(t) && t.node !in Nodes(queue.base.shape) && Sorted(queue.Items(), S.KeyMap(Recs()))
      modifies t`state, t`priority, t.node`parent, t.node`color, t.node`left, t.node`right
      modifies queue`leftmost, queue.base
      modifies Nodes(queue.base.shape)`parent, Nodes(queue.base.shape)`color, Nodes(queue.base.shape)`left, Nodes(queue.base.shape)`right
      ensures Valid() && Nodes(queue.base.shape) == old(Nodes(queue.base.shape)) + {t.node}
      ensures Recs() == old(Recs())[t.node := old(Recs())[t.node].(state := S.Running, priority := t.next)]
      ensures queue.Items() == Stable(old(queue.Items()), t.node, S.KeyMap(old(Recs())))
    {
      hide Nodes, Inorder, RedBlack, Stable, Sorted, TreeAt, Distinct, Snap, Record, Without, NoRepeat;
      hide S.KeyMap;
      SameKeys(Recs(), t.node, Recs()[t.node].(state := S.Running, priority := t.next));
      SetState(t, S.Running, t.next);
      Enqueue(t);
    }

    /** `hev_task_system_wakeup_task_with_context`; `aborted` stands for the call of `abort`. */
    method Wakeup(t: Task, ghost s: S.Sched<Node>) returns (aborted: bool)
      requires Valid() && Is(s) && S.Inv(s) && Owned(t)
      modifies this`running, t`state, t`priority, t.node
      modifies queue`leftmost, queue.base
      modifies Nodes(queue.base.shape)`parent, Nodes(queue.base.shape)`color, Nodes(queue.base.shape)`left, Nodes(queue.base.shape)`right
      ensures Valid() && aborted == S.Wakeup(s, t.node).None? && Is(if aborted then s else S.Wakeup(s, t.node).value)
    {
      hide Nodes, Inorder, RedBlack, Stable, Sorted, TreeAt, Distinct, Snap, Record, Without, NoRepeat;
      hide S.KeyMap, S.Alive;
      FieldsRight(t);
      if t.state.Running? {
        return false;
      }
      if t.state.Stopped? {
        return true;
      }
      CachedTree.ItemsNodes(queue.base.shape);
      var k := MinKey(s);
      S.SortedOutside(s.ready, s.recs, t.node, s.recs[t.node].(key := t.node.key + k));
      Admit(t, t.node.key + k, s, s.recs[t.node].(key := t.node.key + k));
      return false;
    }

    /** A task outside of the queue is given its key and enters. */
    method Admit(t: Task, key: nat, ghost s: S.Sched<Node>, ghost r: S.Rec)
      requires Valid() && Is(s) && Owned(t) && t.node !in Nodes(queue.base.shape)
      requires r == s.recs[t.node].(key := key) && Sorted(s.ready, S.KeyMap(s.recs[t.node := r]))
      modifies this`running, t`state, t`priority, t.node
      modifies queue`leftmost, queue.base
      modifies Nodes(queue.base.shape)`parent, Nodes(queue.base.shape)`color, Nodes(queue.base.shape)`left, Nodes(queue.base.shape)`right
      ensures Valid() && Is(S.Insert(s.(recs := s.recs[t.node := r]), t.node))
    {
      hide Nodes, Inorder, RedBlack, Stable, Sorted, TreeAt, Distinct, Snap, Record, Without, NoRepeat;
      hide S.KeyMap, S.Alive, S.Insert;
      SetKey(t, key);
      InsertTask(t, s.(recs := s.recs[t.node := r]));
    }

    method Prepare(t: Task, key: nat)
      requires Valid() && Owned(t)
      modifies t`priority, t.node`key
      ensures Valid() && Recs() == old(Recs())[t.node := old(Recs())[t.node].(priority := t.next, key := key)]
    {
      hide Nodes, Inorder, RedBlack;
      t.priority := t.next;
      t.node.key := key;
    }

    method Launch(t: Task, key: nat, ghost s: S.Sched<Node>, ghost r: S.Rec)
      requires Valid() && Is(s) && Owned(t) && t.node !in Nodes(queue.base.shape)
      requires r == s.recs[t.node].(priority := t.next, key := key) && Sorted(s.ready, S.KeyMap(s.recs[t.node := r]))
      modifies this`running, this`total, t`state, t`priority, t.node
      modifies queue`leftmost, queue.base
      modifies Nodes(queue.base.shape)`parent, Nodes(queue.base.shape)`color, Nodes(queue.base.shape)`left, Nodes(queue.base.shape)`right
      ensures Valid()
      ensures var u := S.Insert(s.(recs := s.recs[t.node := r]), t.node); Is(u.(total := u.total + 1))
    {
      hide Nodes, Inorder, RedBlack, Stable, Sorted, TreeAt, Distinct, Snap, Record, Without, NoRepeat;
      hide S.KeyMap, S.Alive, S.Insert;
      S.InsertTotal(s.(recs := s.recs[t.node := r]), t.node, s.total + 1);
      Prepare(t, key);
      total := total + 1;
      InsertTask(t, s.(recs := s.recs[t.node := r], total := s.total + 1));
    }

    /** `hev_task_run` and `hev_task_system_run_new_task`, without the machine context of the task. */
    method RunNew(t: Task, ghost s: S.Sched<Node>)
      requires Valid() && Is(s) && S.Inv(s) && Owned(t)
      modifies this`running, this`total, t`state, t`priority, t.node
      modifies queue`leftmost, queue.base
      modifies Nodes(queue.base.shape)`parent, Nodes(queue.base.shape)`color, Nodes(queue.base.shape)`left, Nodes(queue.base.shape)`right
      ensures Valid() && Is(S.RunNew(s, t.node))
    {
      hide Nodes, Inorder, RedBlack, Stable, Sorted, TreeAt, Distinct, Snap, Record, Without, NoRepeat;
      hide S.KeyMap, S.Alive;
      FieldsRight(t);
      if !t.state.Stopped? {
        return;
      }
      CachedTree.ItemsNodes(queue.base.shape);
      var k := 0;
      if current != null {
        k := MinKey(s);
      }
      ghost var r := s.recs[t.node].(priority := t.next, key := t.next + k);
      S.SortedOutside(s.ready, s.recs, t.node, r);
      ghost var u := S.Insert(s.(recs := s.recs[t.node := r]), t.node);
      assert S.RunNew(s, t.node) == u.(total := u.total + 1);
      Launch(t, t.next + k, s, r);
    }

    method Requeue(t: Task)
      requires Valid() && t.node in Nodes(queue.base.shape) && Sorted(Without(queue.Items(), t.node), S.KeyMap(Recs()))
      modifies queue`leftmost, queue.base
      modifies Nodes(queue.base.shape)`parent, Nodes(queue.base.shape)`color, Nodes(queue.base.shape)`left, Nodes(queue.base.shape)`right
      ensures Valid() && Recs() == old(Recs()) && Nodes(queue.base.shape) == old(Nodes(queue.base.shape))
      ensures queue.Items() == Stable(Without(old(queue.Items()), t.node), t.node, S.KeyMap(old(Recs())))
    {
      hide Nodes, Inorder, RedBlack, Stable, Sorted, TreeAt, Distinct, Snap, Record, Without, NoRepeat;
      KeysRight();
      queue.Reinsert(t.node, S.KeyMap(Recs()));
    }

    /** `hev_task_system_update_sched_key`, together with the state and priority that the task is given next. */
    method Charge(t: Task, cost: nat, state: S.TaskState, priority: nat)
      requires Valid() && Owned(t)
      modifies t`state, t`priority, t.node`key
      ensures Valid()
      ensures var r := old(Recs())[t.node];
              Recs() == old(Recs())[t.node := r.(state := state, priority := priority, key := r.key + cost)]
    {
      hide Nodes, Inorder, RedBlack, TreeAt, Distinct, Snap;
      t.node.key := t.node.key + cost;
      t.state, t.priority := state, priority;
    }

    /** `HEV_TASK_SCHED_SWITCH`: between the two steps the current task is linked with a key out of order. */
    method Switch(ran: nat, ghost s: S.Sched<Node>)
      requires Valid() && Is(s) && S.Inv(s) && S.CurrentFirst(s) && current != null
      modifies current`state, current`priority, current.node`key
      modifies queue`leftmost, queue.base
      modifies Nodes(queue.base.shape)`parent, Nodes(queue.base.shape)`color, Nodes(queue.base.shape)`left, Nodes(queue.base.shape)`right
      ensures Valid() && Is(S.Switch(s, ran))
    {
      hide Nodes, Inorder, RedBlack, Stable, Sorted, TreeAt, Distinct, Snap, Record, Without, NoRepeat;
      hide S.KeyMap, S.Alive;
      var t := current;
      FieldsRight(t);
      CachedTree.ItemsNodes(queue.base.shape);
      ghost var v := S.Switch(s, ran);
      S.WithoutKeeps(s.ready, t.node, S.KeyMap(s.recs));
      S.SortedOutside(Without(s.ready, t.node), s.recs, t.node, v.recs[t.node]);
      assert v.recs == s.recs[t.node := v.recs[t.node]];
      Charge(t, ran * t.priority, t.state, t.next);
      Requeue(t);
    }

    method Depart(t: Task, ghost s: S.Sched<Node>)
      requires Valid() && Is(s) && Owned(t) && t.node in Nodes(queue.base.shape)
      modifies this`running, queue`leftmost, queue.base
      modifies Nodes(queue.base.shape)`parent, Nodes(queue.base.shape)`color, Nodes(queue.base.shape)`left, Nodes(queue.base.shape)`right
      ensures Valid() && Is(s.(ready := Without(s.ready, t.node), running := s.running - 1))
    {
      hide Nodes, Inorder, RedBlack, Stable, Sorted, TreeAt, Distinct, Snap, Record, Without, NoRepeat;
      Dequeue(t);
      Count(s.(ready := Without(s.ready, t.node)), -1);
    }

    /** `HEV_TASK_SCHED_WAITIO` */
    method Wait(ran: nat, ghost s: S.Sched<Node>)
      requires Valid() && Is(s) && S.Inv(s) && S.CurrentFirst(s) && current != null
      modifies this`running, current`state, current`priority, current.node
      modifies queue`leftmost, queue.base
      modifies Nodes(queue.base.shape)`parent, Nodes(queue.base.shape)`color, Nodes(queue.base.shape)`left, Nodes(queue.base.shape)`right
      ensures Valid() && Is(S.Wait(s, ran))
    {
      hide Nodes, Inorder, RedBlack, Stable, Sorted, TreeAt, Distinct, Snap, Record, Without, NoRepeat;
      hide S.KeyMap, S.Alive;
      var t := current;
      FieldsRight(t);
      CachedTree.ItemsNodes(queue.base.shape);
      ghost var r := s.recs[t.node].(state := S.Waiting, key := t.next);
      ghost var v := s.(recs := s.recs[t.node := r], ready := Without(s.ready, t.node), running := s.running - 1);
      assert S.Wait(s, ran) == v;
      Park(t, ran, s, r);
    }

    method Park(t: Task, ran: nat, ghost s: S.Sched<Node>, ghost r: S.Rec)
      requires Valid() && Is(s) && Owned(t) && t.node in Nodes(queue.base.shape)
      requires r == s.recs[t.node].(state := S.Waiting, key := t.next)
      modifies this`running, t`state, t`priority, t.node
      modifies queue`leftmost, queue.base
      modifies Nodes(queue.base.shape)`parent, Nodes(queue.base.shape)`color, Nodes(queue.base.shape)`left, Nodes(queue.base.shape)`right
      ensures Valid() && Is(s.(recs := s.recs[t.node := r], ready := Without(s.ready, t.node), running := s.running - 1))
    {
      hide Nodes, Inorder, RedBlack, Stable, Sorted, TreeAt, Distinct, Snap, Record, Without, NoRepeat;
      FieldsRight(t);
      Charge(t, ran * t.priority, S.Waiting, t.priority);
      ghost var u := s.(recs := Recs());
      assert u.recs[t.node := u.recs[t.node].(key := t.next)] == s.recs[t.node := r];
      Depart(t, u);
      SetKey(t, t.next);
    }

    /** `HEV_TASK_SCHED_REMOVE` with the state stopped */
    method Exit(ghost s: S.Sched<Node>)
      requires Valid() && Is(s) && S.Inv(s) && S.CurrentFirst(s) && current != null
      modifies this`running, this`total, current`state, current`priority
      modifies queue`leftmost, queue.base
      modifies Nodes(queue.base.shape)`parent, Nodes(queue.base.shape)`color, Nodes(queue.base.shape)`left, Nodes(queue.base.shape)`right
      ensures Valid() && Is(S.Exit(s))
    {
      hide Nodes, Inorder, RedBlack, Stable, Sorted, TreeAt, Distinct, Snap, Record, Without, NoRepeat;
      hide S.KeyMap, S.Alive;
      var t := current;
      FieldsRight(t);
      CachedTree.ItemsNodes(queue.base.shape);
      Retire(t, s, s.recs[t.node].(state := S.Stopped));
    }

    method Retire(t: Task, ghost s: S.Sched<Node>, ghost r: S.Rec)
      requires Valid() && Is(s) && Owned(t) && t.node in Nodes(queue.base.shape) && r == s.recs[t.node].(state := S.Stopped)
      modifies this`running, this`total, t`state, t`priority
      modifies queue`leftmost, queue.base
      modifies Nodes(queue.base.shape)`parent, Nodes(queue.base.shape)`color, Nodes(queue.base.shape)`left, Nodes(queue.base.shape)`right
      ensures Valid()
      ensures Is(s.(recs := s.recs[t.node := r], ready := Without(s.ready, t.node), running := s.running - 1, total := s.total - 1))
    {
      hide Nodes, Inorder, RedBlack, Stable, Sorted, TreeAt, Distinct, Snap, Record, Without, NoRepeat;
      FieldsRight(t);
      SetState(t, S.Stopped, t.priority);
      total := total - 1;
      Depart(t, s.(recs := s.recs[t.node := r], total := s.total - 1));
    }

    /** `hev_task_system_pick_current_task` once some task is running */
    method Pick(ghost s: S.Sched<Node>)
      requires Valid() && Is(s) && s.ready != []
      modifies this`current
      ensures Valid() && Is(s.(current := Some(s.ready[0])))
    {
      hide Nodes, Inorder, RedBlack, Stable, Sorted, TreeAt, Distinct, Snap, Record, Without, NoRepeat;
      CachedTree.ItemsNodes(queue.base.shape);
      current := owner[queue.leftmost];
    }

    method WakeNext(t: Task, ghost s: S.Sched<Node>) returns (aborted: bool, ghost r: S.Sched<Node>)
      requires Valid() && Is(s) && S.Inv(s) && Owned(t)
      modifies this`running, t`state, t`priority, t.node
      modifies queue`leftmost, queue.base
      modifies Nodes(queue.base.shape)`parent, Nodes(queue.base.shape)`color, Nodes(queue.base.shape)`left, Nodes(queue.base.shape)`right
      ensures Valid() && Is(r) && S.Inv(r)
      ensures aborted == S.Wakeup(s, t.node).None? && r == if aborted then s else S.Wakeup(s, t.node).value
    {
      hide Nodes, Inorder, RedBlack, Stable, Sorted, TreeAt, Distinct, Snap, Record, Without, NoRepeat;
      hide S.KeyMap, S.Alive, S.Wakeup;
      S.WakeupInv(s, t.node);
      aborted := Wakeup(t, s);
      r := if aborted then s else S.Wakeup(s, t.node).value;
    }

    /** The loop of `hev_task_system_io_poll` over the tasks that the reactor reported. */
    method WakeAll(events: seq<Task>, ghost s: S.Sched<Node>) returns (aborted: bool, ghost r: S.Sched<Node>)
      requires Valid() && Is(s) && S.Inv(s) && forall t :: t in events ==> Owned(t)
      modifies this`running, owner.Values`state, owner.Values`priority, owner.Keys, queue`leftmost, queue.base
      ensures Valid() && Is(r)
      ensures M.WakeAll(s, Seqs(events)) == if aborted then None else Some(r)
    {
      hide Nodes, Inorder, RedBlack, Stable, Sorted, TreeAt, Distinct, Snap, Record, Without, NoRepeat;
      hide S.KeyMap, S.Alive, S.Wakeup, S.Inv, M.WakeAll, Seqs;
      assert events[0..] == events;
      r := s;
      var i := 0;
      aborted := false;
      while i < |events| && !aborted
        invariant 0 <= i <= |events| && Valid() && Is(r) && owner == old(owner)
        invariant S.Inv(r) && M.WakeAll(s, Seqs(events)) == if aborted then None else M.WakeAll(r, Seqs(events[i..]))
      {
        assert Owned(events[i]);
        OneWakeup(r, events, i);
        aborted, r := WakeNext(events[i], r);
        i := i + 1;
      }
      NoWakeups(events, r);
    }
  }

  lemma OneWakeup(r: S.Sched<Node>, events: seq<Task>, i: nat)
    requires i < |events| && events[i].node in r.recs
    ensures M.WakeAll(r, Seqs(events[i..])) ==
            match S.Wakeup(r, events[i].node) { case None => None case Some(u) => M.WakeAll(u, Seqs(events[i + 1..])) }
  {
    assert events[i..][0] == events[i] && events[i..][1..] == events[i + 1..];
  }

  lemma NoWakeups(events: seq<Task>, r: S.Sched<Node>)
    ensures M.WakeAll(r, Seqs(events[|events|..])) == Some(r)
  {
  }

  /** The nodes by which the scheduler's values know the tasks. */
  ghost function Seqs(events: seq<Task>): seq<Node> {
    if events == [] then [] else [events[0].node] + Seqs(events[1..])
  }
}
