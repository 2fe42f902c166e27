/**
 `hev-rbtree-cached.c`, the tree with a cached first node, and the keyed
 insertion that the scheduler (and the timer) make on it. Seen from outside,
 the tree is a sequence kept in key order, with equal keys in insertion order.
 */
module RunQueue {
  import opened RbShape
  import opened RbCells
  import opened RbTree
  import opened KeyOrder

  class CachedTree {
    const base: Tree
    var leftmost: Node?

    constructor ()
      ensures Valid() && Items() == [] && fresh(base)
    {
      base := new Tree();
      leftmost := null;
    }

    ghost predicate Valid()
      reads this, base
      reads Nodes(base.shape)`parent, Nodes(base.shape)`color, Nodes(base.shape)`left, Nodes(base.shape)`right
    {
      base.Rep() && RedBlack(base.shape) && leftmost == FirstOf(Items())
    }

    /** The linked nodes, in order. */
    ghost function Items(): seq<Node>
      reads base`shape
    {
      Inorder(base.shape)
    }

    /** `hev_rbtree_cached_insert_color`: a leaf was linked in the hole of `c`; `first` says that nothing lies before it. */
    method InsertColor(node: Node, first: bool, ghost c: Path<Node>)
      requires base.Rep() && base.shape == Plug(c, Fork(Nil, node, Red, Nil)) && PathOk(c, 0)
      requires leftmost == FirstOf(Before(c) + After(c)) && (first <==> Before(c) == [])
      modifies this`leftmost, base
      modifies Nodes(base.shape)`parent, Nodes(base.shape)`color, Nodes(base.shape)`left, Nodes(base.shape)`right
      ensures Valid() && Items() == Before(c) + [node] + After(c) && Nodes(base.shape) == old(Nodes(base.shape))
    {
      hide Nodes, PathNodes, Distinct, Plug, Inorder, TreeAt, RedBlack, Snap;
      LeafOrder(c, node);
      if first {
        leftmost := node;
      }
      base.InsertColor(node, c);
    }

    static lemma LeafOrder(c: Path<Node>, node: Node)
      ensures Inorder(Plug(c, Fork(Nil, node, Red, Nil))) == Before(c) + [node] + After(c)
    {
      PlugInorder(c, Fork(Nil, node, Red, Nil));
    }

    /** `hev_rbtree_cached_replace` */
    method Replace(victim: Node, new_: Node)
      requires Valid() && victim in Nodes(base.shape) && new_ !in Nodes(base.shape)
      modifies this`leftmost, base, new_`parent, new_`color, new_`left, new_`right
      modifies Nodes(base.shape)`parent, Nodes(base.shape)`left, Nodes(base.shape)`right
      ensures Valid() && Items() == Renamed(old(Items()), victim, new_)
    {
      hide Nodes, Distinct, Inorder, TreeAt, RedBlack, Snap;
      ItemsNodes(base.shape);
      base.Replace(victim, new_);
      if leftmost == victim {
        leftmost := new_;
      }
    }

    static lemma ItemsNodes(t: Shape<Node>)
      ensures forall n :: n in Nodes(t) ==> n in Inorder(t)
      ensures forall n :: n in Inorder(t) ==> n in Nodes(t)
    {
      InorderNodes(t);
    }

    /** `hev_rbtree_cached_erase` */
    method Erase(node: Node)
      requires Valid() && node in Nodes(base.shape)
      modifies this`leftmost, base
      modifies Nodes(base.shape)`parent, Nodes(base.shape)`color, Nodes(base.shape)`left, Nodes(base.shape)`right
      ensures Valid() && Items() == Without(old(Items()), node) && Nodes(base.shape) == old(Nodes(base.shape)) - {node}
    {
      hide Nodes, Distinct, Inorder, RedBlack;
      ItemsNodes(base.shape);
      if node == leftmost {
        leftmost := base.Next(node);
      }
      base.Erase(node);
    }

    /** The free link where a node with key `key` belongs: `root`, or the left or right link of `parent`. */
    method FindLink(key: int, ghost k: Keys<Node>) returns (parent: Node?, left: bool, first: bool, ghost c: Path<Node>)
      requires Valid() && Sorted(Items(), k) && forall n :: n in Nodes(base.shape) ==> n in k && k[n] == n.key
      ensures base.shape == Plug(c, Nil) && parent == HoleParent(c, null) && (parent != null ==> (left <==> c.LeftOf?))
      ensures Valid() && (first <==> Before(c) == [])
      ensures forall x :: x in Before(c) ==> At(k, x) <= key
      ensures forall x :: x in After(c) ==> key < At(k, x)
      ensures (if parent == null then base.root else if left then parent.left else parent.right) == null
    {
      hide Nodes, PathNodes, Distinct, Plug, Inorder, TreeAt, PathAt, RedBlack, Snap;
      ghost var m := Snap(Nodes(base.shape));
      SnapCell(Nodes(base.shape));
      var cur;
      cur, parent, left, first := base.root, null, false, true;
      ghost var sub;
      c, sub := Top, base.shape;
      TopHole(sub);
      while cur != null
        invariant base.shape == Plug(c, sub) && cur == Root(sub) && parent == HoleParent(c, null)
        invariant forall n :: n in Nodes(base.shape) ==> n in k && k[n] == n.key
        invariant parent != null ==> (left <==> c.LeftOf?)
        invariant first <==> Before(c) == []
        invariant forall x :: x in Before(c) ==> At(k, x) <= key
        invariant forall x :: x in After(c) ==> key < At(k, x)
        invariant cur == if parent == null then base.root else if left then parent.left else parent.right
        decreases sub
      {
        Neighbours(m, c, sub);
        assert sub == Fork(sub.left, cur, sub.color, sub.right);
        ForkOrder(c, sub.left, cur, sub.color, sub.right);
        SplitKeys(Before(c) + Inorder(sub.left), cur, Inorder(sub.right) + After(c), k);
        assert At(k, cur) == cur.key;
        parent := cur;
        if key < cur.key {
          cur := cur.left;
          left := true;
          ghost var rest := Inorder(sub.right) + After(c);
          c, sub := LeftOf(c, sub.node, sub.color, sub.right), sub.left;
          assert After(c) == [c.node] + rest;
        } else {
          cur := cur.right;
          left := false;
          first := false;
          c, sub := RightOf(c, sub.node, sub.color, sub.left), sub.right;
        }
        assert Plug(c, sub) == Plug(c.up, Joined(c, sub));
      }
    }

    /** `_hev_task_system_insert_task`: descend by key to a free link, link there and rebalance. */
    method Insert(task: Node, ghost k: Keys<Node>) returns (ghost depth: nat)
      requires Valid() && task !in Nodes(base.shape) && Sorted(Items(), k)
      requires forall n :: n in Nodes(base.shape) + {task} ==> n in k && k[n] == n.key
      modifies this`leftmost, base, task`parent, task`color, task`left, task`right
      modifies Nodes(base.shape)`parent, Nodes(base.shape)`color, Nodes(base.shape)`left, Nodes(base.shape)`right
      ensures Valid() && Items() == Stable(old(Items()), task, k) && Nodes(base.shape) == old(Nodes(base.shape)) + {task}
      ensures Pow2(depth) <= (|old(Items())| + 1) * (|old(Items())| + 1)
    {
      hide Nodes, PathNodes, Distinct, Plug, Inorder, TreeAt, RedBlack, Pow2, PathOk, Stable, Snap;
      var parent, left, first;
      ghost var c;
      parent, left, first, c := FindLink(task.key, k);
      depth := Depth(c);
      HoleOrder(c);
      DepthBound(c);
      StableSplit(Before(c), task, After(c), k);
      base.Link(task, parent, left, c);
      InsertColor(task, first, c);
    }

    static lemma HoleOrder(c: Path<Node>)
      ensures Inorder(Plug(c, Nil)) == Before(c) + After(c)
      ensures RedBlack(Plug(c, Nil)) ==> PathOk(c, 0)
    {
      PlugInorder(c, Nil);
      PlugRedBlack(c, Nil);
    }

    static lemma DepthBound(c: Path<Node>)
      ensures RedBlack(Plug(c, Nil)) ==> Pow2(Depth(c)) <= (|Inorder(Plug(c, Nil))| + 1) * (|Inorder(Plug(c, Nil))| + 1)
    {
      if RedBlack(Plug(c, Nil)) {
        HeightBound(Plug(c, Nil));
        DepthWithinHeight(c, Nil);
        Pow2Monotone(Depth(c), Height(Plug(c, Nil)));
      }
    }

    /** `hev_task_system_reinsert_current_task`: the key of `task` may have changed while it was linked. */
    method Reinsert(task: Node, ghost k: Keys<Node>)
      requires Valid() && task in Nodes(base.shape) && Sorted(Without(Items(), task), k)
      requires forall n :: n in Nodes(base.shape) ==> n in k && k[n] == n.key
      modifies this`leftmost, base
      modifies Nodes(base.shape)`parent, Nodes(base.shape)`color, Nodes(base.shape)`left, Nodes(base.shape)`right
      ensures Valid() && Items() == Stable(Without(old(Items()), task), task, k) && Nodes(base.shape) == old(Nodes(base.shape))
    {
      hide Nodes, Distinct, Inorder, TreeAt, RedBlack, Snap, Stable, Without;
      Erase(task);
      ghost var depth := Insert(task, k);
    }
  }
}
