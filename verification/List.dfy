/**
 The intrusive doubly linked list of `hev-list.c`, proved against the
 sequence operations that the selector is made of.
 */
module List {
  import opened Links
  import opened RbShape

  class Node {
    var next: Node?
    var prev: Node?

    constructor () {
      next, prev := null, null;
    }
  }

  ghost function Deref(n: Node?): Ref<Node> {
    if n == null then Null else var m: Node := n; To(m)
  }

  ghost function Cells(nodes: set<Node>): (h: Heap<Node>)
    reads nodes`prev, nodes`next
  {
    map n | n in nodes :: Link(Deref(n.prev), Deref(n.next))
  }

  class Chain {
    var head: Node?
    var tail: Node?
    ghost var items: seq<Node>
    ghost var nodes: set<Node>

    constructor ()
      ensures Valid() && items == []
    {
      head, tail, items, nodes := null, null, [], {};
    }

    ghost predicate Valid()
      reads this, nodes
    {
      && nodes == Members(items)
      && Linked(Cells(nodes), items)
      && Deref(head) == At(items, 0) && Deref(tail) == At(items, |items| - 1)
    }

    /** `hev_list_add_tail` */
    method AddTail(node: Node)
      requires Valid() && node !in items
      modifies this, node, nodes
      ensures Valid() && items == old(items) + [node]
    {
      hide Backed, Members, Linked, NoRepeat, Fits;
      BackedLinked(Cells(nodes), items, node);
      MembersPushed(items, node);
      AddLinks(node);
      items, nodes := items + [node], nodes + {node};
    }

    method AddLinks(node: Node)
      requires Valid() && node !in nodes
      modifies this`head, this`tail, node, nodes`next
      ensures Deref(head) == At(items + [node], 0) && tail == node
      ensures Cells(nodes + {node}) == Backed(old(Cells(nodes)), At(items, |items| - 1), node)
    {
      node.prev := tail;
      node.next := null;
      if tail != null {
        tail.next := node;
      } else {
        head := node;
      }
      tail := node;
    }

    /** `hev_list_del` */
    method Del(node: Node)
      requires Valid() && node in items
      modifies this, nodes
      ensures Valid() && items == Without(old(items), node)
    {
      hide Bypassed, Cut, Without, Linked, Fits;
      assert NoRepeat(items) by { Unrepeated(Cells(nodes), items); }
      hide NoRepeat;
      ghost var k :| 0 <= k < |items| && items[k] == node;
      ghost var h, left, rest := Cells(nodes), Cut(items, k), nodes - {node};
      CutWithout(items, k);
      CutMembers(items, k);
      BypassedLinked(h, items, k);
      DelLinks(node, k);
      LinkedElsewhere(Bypassed(h, node), Cells(rest), left);
      items, nodes := left, rest;
    }

    method DelLinks(node: Node, ghost k: nat)
      requires Valid() && k < |items| && items[k] == node
      modifies this`head, this`tail, nodes`prev, nodes`next
      ensures Deref(head) == At(Cut(items, k), 0) && Deref(tail) == At(Cut(items, k), |Cut(items, k)| - 1)
      ensures Cells(nodes) == Bypassed(old(Cells(nodes)), node)
    {
      assert Fits(Cells(nodes), items, k);
      if node.prev != null {
        node.prev.next := node.next;
      } else {
        head := node.next;
      }
      if node.next != null {
        node.next.prev := node.prev;
      } else {
        tail := node.prev;
      }
    }
  }
}
