/**
 The waiter list of a condition variable in `hev-task-cond.c`, with its nodes
 on the stacks of the waiting tasks. Each operation is proved against the
 sequence operation that the protocol in `Sync` is made of.
 */
module WaiterList {
  import opened Links
  import opened RbShape

  datatype Slot<T> = Vacant | Of(task: T)

  class Node<T> {
    var prev: Node?<T>
    var next: Node?<T>
    var task: Slot<T>

    constructor (task: T)
      ensures this.task == Of(task)
    {
      prev, next, this.task := null, null, Of(task);
    }
  }

  ghost function Deref<T>(n: Node?<T>): Ref<Node<T>> {
    if n == null then Null else var m: Node<T> := n; To(m)
  }

  ghost function Cells<T>(nodes: set<Node<T>>): (h: Heap<Node<T>>)
    reads nodes`prev, nodes`next
  {
    map n | n in nodes :: Link(Deref(n.prev), Deref(n.next))
  }

  class Cond<T> {
    var waiters: Node?<T>
    ghost var items: seq<Node<T>>
    ghost var nodes: set<Node<T>>

    constructor ()
      ensures Valid() && items == []
    {
      waiters, items, nodes := null, [], {};
    }

    /** A well-formed doubly linked list of unreleased waiters. */
    ghost predicate Valid()
      reads this, nodes
    {
      && nodes == Members(items)
      && Linked(Cells(nodes), items)
      && Deref(waiters) == At(items, 0)
      && forall n :: n in items ==> n.task.Of?
    }

    /** The first lines of a wait: the node goes to the front. */
    method Push(node: Node<T>)
      requires Valid() && node !in items && node.task.Of?
      modifies this, node, nodes
      ensures Valid() && items == [node] + old(items)
      ensures node.task == old(node.task)
      ensures forall n :: n in old(items) ==> n.task == old(n.task)
    {
      hide Fronted;
      MembersPushed(items, node);
      FrontedLinked(Cells(nodes), items, node);
      PushLinks(node);
      items, nodes := [node] + items, nodes + {node};
    }

    method PushLinks(node: Node<T>)
      requires Valid() && node !in nodes
      modifies this`waiters, node`prev, node`next, nodes`prev
      ensures waiters == node
      ensures Cells(nodes + {node}) == Fronted(old(Cells(nodes)), At(items, 0), node)
    {
      node.prev := null;
      node.next := waiters;
      if waiters != null {
        waiters.prev := node;
      }
      waiters := node;
    }

    /** `hev_task_cond_signal`; `woken` is the task it wakes. */
    method Signal() returns (woken: Slot<T>)
      requires Valid()
      modifies this, nodes
      ensures Valid()
      ensures old(items) == [] ==> items == [] && woken == Vacant
      ensures old(items) != [] ==> items == old(items)[1..] && woken == old(items[0].task) && old(items)[0].task == Vacant
      ensures forall n :: n in items ==> n.task == old(n.task)
    {
      hide Members, Linked, NoRepeat, SetPrev;
      woken := Vacant;
      if waiters != null {
        ghost var h, left, rest := Cells(nodes), items[1..], nodes - {items[0]};
        PoppedLinked(h, items);
        woken := PopLinks();
        LinkedElsewhere(SetPrev(h, At(items, 1), Null), Cells(rest), left);
        items, nodes := left, rest;
      }
    }

    method PopLinks() returns (woken: Slot<T>)
      requires Valid() && items != []
      modifies this`waiters, waiters`task, nodes`prev
      ensures Deref(waiters) == At(items, 1) && woken == old(items[0].task) && items[0].task == Vacant
      ensures Cells(nodes) == SetPrev(old(Cells(nodes)), At(items, 1), Null)
    {
      assert Fits(Cells(nodes), items, 0);
      woken := waiters.task;
      waiters.task := Vacant;
      waiters := waiters.next;
      if waiters != null {
        waiters.prev := null;
      }
    }

    /** `hev_task_cond_broadcast`; `woken` lists the tasks in the order it wakes them. */
    method Broadcast() returns (woken: seq<T>)
      requires Valid()
      modifies this, nodes
      ensures Valid() && items == []
      ensures |woken| == |old(items)|
      ensures forall i :: 0 <= i < |woken| ==> old(items[i].task) == Of(woken[i]) && old(items)[i].task == Vacant
    {
      hide Linked, NoRepeat;
      woken := [];
      ghost var all, h := items, Cells(nodes);
      AllMembers(all);
      while waiters != null
        invariant |woken| <= |all| && Deref(waiters) == At(all, |woken|) && Cells(old(nodes)) == h
        invariant forall i :: 0 <= i < |woken| ==> old(all[i].task) == Of(woken[i]) && all[i].task == Vacant
        invariant forall i :: |woken| <= i < |all| ==> all[i].task == old(all[i].task)
        decreases |all| - |woken|
      {
        LinkedAt(h, all, |woken|);
        var t := ReleaseFirst();
        woken := woken + [t];
      }
      items, nodes := [], {};
      Nothing(Cells(nodes));
    }

    /** The first node loses its task, and the list begins behind it. */
    method ReleaseFirst() returns (t: T)
      requires waiters != null && waiters.task.Of?
      modifies this`waiters, waiters`task
      ensures old(waiters.task) == Of(t) && old(waiters).task == Vacant && waiters == old(waiters.next)
    {
      t := waiters.task.task;
      waiters.task := Vacant;
      waiters := waiters.next;
    }

    /** The end of a timed wait: a node that still has its task is in the list and leaves it; -1 says so. */
    method TakeOut(node: Node<T>) returns (result: int)
      requires Valid() && (node.task.Of? <==> node in items)
      modifies this, nodes
      ensures Valid() && items == Without(old(items), node)
      ensures result == (if node in old(items) then -1 else 0)
      ensures node !in items && forall n :: n in old(items) ==> n.task == old(n.task)
    {
      hide Bypassed, Cut, Without;
      result := 0;
      if node.task.Of? {
        ghost var k :| 0 <= k < |items| && items[k] == node;
        ghost var h := Cells(nodes);
        Unlink(node, k);
        CutWithout(items, k);
        CutMembers(items, k);
        BypassedLinked(h, items, k);
        items, nodes := Cut(items, k), nodes - {node};
        LinkedElsewhere(Bypassed(h, node), Cells(nodes), items);
        result := -1;
      } else {
        WithoutNone(items, node);
      }
    }

    method Unlink(node: Node<T>, ghost k: nat)
      requires Valid() && k < |items| && items[k] == node
      modifies this`waiters, nodes`prev, nodes`next
      ensures Deref(waiters) == At(Cut(items, k), 0)
      ensures Cells(nodes) == Bypassed(old(Cells(nodes)), node)
    {
      ghost var h := Cells(nodes);
      assert Fits(h, items, k) && Fits(h, items, 0);
      if node.prev != null {
        node.prev.next := node.next;
      }
      if node.next != null {
        node.next.prev := node.prev;
      }
      if waiters == node {
        waiters := node.next;
      }
    }
  }
}
