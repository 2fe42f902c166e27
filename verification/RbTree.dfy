/**
 `hev-rbtree.c` on node objects: linking, rebalancing after insertion and
 erasure, replacement and in-order walks, each stated by the in-order sequence
 of the tree and the red-black rules.
 */
module RbTree {
  import opened RbShape
  import opened RbCells
  import Cells = RbCells

  class Tree {
    var root: Node?
    /** The shape that the linked nodes spell out. */
    ghost var shape: Shape<Node>

    constructor ()
      ensures Rep() && shape == Nil
    {
      root, shape := null, Nil;
    }

    /** Root, parent and child links are consistent. */
    ghost predicate Rep()
      reads this, Nodes(shape)`parent, Nodes(shape)`color, Nodes(shape)`left, Nodes(shape)`right
    {
      root == Root(shape) && Distinct(shape) && TreeAt(Snap(Nodes(shape)), shape, null)
    }

    /** `hev_rbtree_change_child` */
    method ChangeChild(old_: Node, new_: Node?, parent: Node?)
      modifies this`root, (if parent == null then {} else {parent})`left, (if parent == null then {} else {parent})`right
      ensures parent == null ==> root == new_
      ensures parent != null ==> root == old(root)
      ensures parent != null && old(parent.left) == old_ ==> parent.left == new_ && parent.right == old(parent.right)
      ensures parent != null && old(parent.left) != old_ ==> parent.right == new_ && parent.left == old(parent.left)
    {
      if parent != null {
        if parent.left == old_ {
          parent.left := new_;
        } else {
          parent.right := new_;
        }
      } else {
        root := new_;
      }
    }

    /** `hev_rbtree_rotate_set_parents`: `new_` takes over the parent and colour of `old_`. */
    method RotateSetParents(old_: Node, new_: Node, color: Color)
      requires old_ != new_ && old_.parent != old_ && old_.parent != new_
      modifies this`root, old_`parent, old_`color, new_`parent, new_`color
      modifies (if old_.parent == null then {} else {old_.parent})`left, (if old_.parent == null then {} else {old_.parent})`right
      ensures new_.parent == old(old_.parent) && new_.color == old(old_.color)
      ensures old_.parent == new_ && old_.color == color
      ensures var p := old(old_.parent);
              && (p == null ==> root == new_)
              && (p != null ==> root == old(root))
              && (p != null && old(p.left) == old_ ==> p.left == new_ && p.right == old(p.right))
              && (p != null && old(p.left) != old_ ==> p.right == new_ && p.left == old(p.left))
    {
      var parent := old_.parent;
      new_.parent, new_.color := old_.parent, old_.color;
      old_.parent, old_.color := new_, color;
      ChangeChild(old_, new_, parent);
    }

    /** The writes shared by the right rotations: `p`, the left child of `g`, takes the place of `g`. */
    method PivotRight(g: Node, p: Node, tmp: Node?, color: Color, paint: bool, ghost all: set<Node>)
      requires PivotReady(Snap(all), g, p, tmp)
      modifies this`root, all`parent, all`color, all`left, all`right
      ensures PivotedRight(old(Snap(all)), Snap(all), g, p, tmp, color, paint)
      ensures root == if old(Snap(all))[g].parent == null then p else old(root)
    {
      g.left := tmp;
      p.right := g;
      if tmp != null {
        tmp.parent := g;
        if paint {
          tmp.color := Black;
        }
      }
      RotateSetParents(g, p, color);
    }

    /** The writes shared by the left rotations: `p`, the right child of `g`, takes the place of `g`. */
    method PivotLeft(g: Node, p: Node, tmp: Node?, color: Color, paint: bool, ghost all: set<Node>)
      requires PivotReady(Snap(all), g, p, tmp)
      modifies this`root, all`parent, all`color, all`left, all`right
      ensures PivotedLeft(old(Snap(all)), Snap(all), g, p, tmp, color, paint)
      ensures root == if old(Snap(all))[g].parent == null then p else old(root)
    {
      g.right := tmp;
      p.left := g;
      if tmp != null {
        tmp.parent := g;
        if paint {
          tmp.color := Black;
        }
      }
      RotateSetParents(g, p, color);
    }

    /** The first half of a double rotation: `node`, the right child of `parent`, moves above it. */
    method TuckLeft(node: Node, parent: Node, color: Color, ghost all: set<Node>)
      requires TuckReady(Snap(all), node, parent, node.left)
      modifies all`parent, all`color, all`left, all`right
      ensures TuckedLeft(old(Snap(all)), Snap(all), node, parent, color)
    {
      var tmp := node.left;
      parent.right := tmp;
      node.left := parent;
      if tmp != null {
        tmp.parent, tmp.color := parent, Black;
      }
      parent.parent, parent.color := node, color;
    }

    /** The first half of a double rotation: `node`, the left child of `parent`, moves above it. */
    method TuckRight(node: Node, parent: Node, color: Color, ghost all: set<Node>)
      requires TuckReady(Snap(all), node, parent, node.right)
      modifies all`parent, all`color, all`left, all`right
      ensures TuckedRight(old(Snap(all)), Snap(all), node, parent, color)
    {
      var tmp := node.right;
      parent.left := tmp;
      node.right := parent;
      if tmp != null {
        tmp.parent, tmp.color := parent, Black;
      }
      parent.parent, parent.color := node, color;
    }

    /** A right rotation at `gparent`; `paint` says that the subtree changing sides gets a black root. */
    method TurnRight(parent: Node, gparent: Node, color: Color, paint: bool, ghost c: Path<Node>,
                  ghost t: Shape<Node>, ghost s: Shape<Node>, ghost u: Shape<Node>, ghost pc: Color, ghost gc: Color)
      requires Rep() && t.Fork? && (paint ==> !s.IsRed())
      requires shape == Plug(c, Fork(Fork(t, parent, pc, s), gparent, gc, u))
      modifies this, Nodes(shape)`parent, Nodes(shape)`color, Nodes(shape)`left, Nodes(shape)`right
      ensures Rep() && Nodes(shape) == old(Nodes(shape)) && Inorder(shape) == old(Inorder(shape))
      ensures shape == Plug(c, Fork(t, parent, gc, Fork(s, gparent, color, u)))
    {
      hide Nodes, PathNodes, Distinct, PathDistinct, Plug, Inorder, PathAt, TreeAt, Clear, Snap, AllDiffer, Untouched;
      hide PivotReady, PivotedRight;
      ghost var all, m := Nodes(shape), Snap(Nodes(shape));
      ghost var x, y := Fork(Fork(t, parent, pc, s), gparent, gc, u), Fork(t, parent, gc, Fork(s, gparent, color, u));
      SnapAt(all, parent);
      TurnRightReady(m, c, t, parent, s, gparent, u, pc, gc);
      PivotRight(gparent, parent, parent.right, color, paint, all);
      Cells.TurnRight(m, Snap(all), c, t, parent, s, gparent, u, pc, gc, color, paint);
      shape := Plug(c, y);
      RotationOrder(t, parent, s, gparent, u, pc, gc, gc, color);
      Reshaped(c, x, y);
    }

    /** A left rotation at `gparent`; `paint` says that the subtree changing sides gets a black root. */
    method TurnLeft(parent: Node, gparent: Node, color: Color, paint: bool, ghost c: Path<Node>,
                  ghost t: Shape<Node>, ghost s: Shape<Node>, ghost u: Shape<Node>, ghost pc: Color, ghost gc: Color)
      requires Rep() && t.Fork? && (paint ==> !s.IsRed())
      requires shape == Plug(c, Fork(u, gparent, gc, Fork(s, parent, pc, t)))
      modifies this, Nodes(shape)`parent, Nodes(shape)`color, Nodes(shape)`left, Nodes(shape)`right
      ensures Rep() && Nodes(shape) == old(Nodes(shape)) && Inorder(shape) == old(Inorder(shape))
      ensures shape == Plug(c, Fork(Fork(u, gparent, color, s), parent, gc, t))
    {
      hide Nodes, PathNodes, Distinct, PathDistinct, Plug, Inorder, PathAt, TreeAt, Clear, Snap, AllDiffer, Untouched;
      hide PivotReady, PivotedLeft;
      ghost var all, m := Nodes(shape), Snap(Nodes(shape));
      ghost var x, y := Fork(u, gparent, gc, Fork(s, parent, pc, t)), Fork(Fork(u, gparent, color, s), parent, gc, t);
      SnapAt(all, parent);
      TurnLeftReady(m, c, t, parent, s, gparent, u, pc, gc);
      PivotLeft(gparent, parent, parent.left, color, paint, all);
      Cells.TurnLeft(m, Snap(all), c, t, parent, s, gparent, u, pc, gc, color, paint);
      shape := Plug(c, y);
      RotationOrder(u, gparent, s, parent, t, color, gc, gc, pc);
      Reshaped(c, x, y);
    }

    /** A double rotation: `node`, the right child of `parent`, itself the left child of `gparent`, moves above both. */
    method DoubleTurnRight(node: Node, parent: Node, gparent: Node, low: Color, color: Color, paint: bool, ghost c: Path<Node>,
                        ghost s: Shape<Node>, ghost b: Shape<Node>, ghost d: Shape<Node>, ghost u: Shape<Node>,
                        ghost pc: Color, ghost nc: Color, ghost gc: Color)
      requires Rep() && !b.IsRed() && (paint ==> !d.IsRed())
      requires shape == Plug(c, Fork(Fork(s, parent, pc, Fork(b, node, nc, d)), gparent, gc, u))
      modifies this, Nodes(shape)`parent, Nodes(shape)`color, Nodes(shape)`left, Nodes(shape)`right
      ensures Rep() && Nodes(shape) == old(Nodes(shape)) && Inorder(shape) == old(Inorder(shape))
      ensures shape == Plug(c, Fork(Fork(s, parent, low, b), node, gc, Fork(d, gparent, color, u)))
    {
      hide Nodes, PathNodes, Distinct, PathDistinct, Plug, Inorder, PathAt, TreeAt, Clear, Snap, AllDiffer, Untouched;
      hide PivotReady, PivotedRight, TuckReady, TuckedLeft;
      ghost var all, m := Nodes(shape), Snap(Nodes(shape));
      ghost var x := Fork(Fork(s, parent, pc, Fork(b, node, nc, d)), gparent, gc, u);
      ghost var y := Fork(Fork(s, parent, low, b), node, gc, Fork(d, gparent, color, u));
      SnapAt(all, node);
      DoubleTurnRightFirst(m, c, s, parent, b, node, d, gparent, u, pc, nc, gc);
      TuckLeft(node, parent, low, all);
      ghost var v := Snap(all);
      DoubleTurnRightSecond(m, v, c, s, parent, b, node, d, gparent, u, pc, nc, gc, low);
      SnapAt(all, node);
      PivotRight(gparent, node, node.right, color, paint, all);
      Cells.DoubleTurnRight(m, v, Snap(all), c, s, parent, b, node, d, gparent, u, pc, nc, gc, low, color, paint);
      shape := Plug(c, y);
      DoubleRotationOrder(s, parent, b, node, d, gparent, u, pc, nc, gc, low, gc, color);
      Reshaped(c, x, y);
    }

    /** A double rotation: `node`, the left child of `parent`, itself the right child of `gparent`, moves above both. */
    method DoubleTurnLeft(node: Node, parent: Node, gparent: Node, low: Color, color: Color, paint: bool, ghost c: Path<Node>,
                        ghost s: Shape<Node>, ghost b: Shape<Node>, ghost d: Shape<Node>, ghost u: Shape<Node>,
                        ghost pc: Color, ghost nc: Color, ghost gc: Color)
      requires Rep() && !b.IsRed() && (paint ==> !d.IsRed())
      requires shape == Plug(c, Fork(u, gparent, gc, Fork(Fork(d, node, nc, b), parent, pc, s)))
      modifies this, Nodes(shape)`parent, Nodes(shape)`color, Nodes(shape)`left, Nodes(shape)`right
      ensures Rep() && Nodes(shape) == old(Nodes(shape)) && Inorder(shape) == old(Inorder(shape))
      ensures shape == Plug(c, Fork(Fork(u, gparent, color, d), node, gc, Fork(b, parent, low, s)))
    {
      hide Nodes, PathNodes, Distinct, PathDistinct, Plug, Inorder, PathAt, TreeAt, Clear, Snap, AllDiffer, Untouched;
      hide PivotReady, PivotedLeft, TuckReady, TuckedRight;
      ghost var all, m := Nodes(shape), Snap(Nodes(shape));
      ghost var x := Fork(u, gparent, gc, Fork(Fork(d, node, nc, b), parent, pc, s));
      ghost var y := Fork(Fork(u, gparent, color, d), node, gc, Fork(b, parent, low, s));
      SnapAt(all, node);
      DoubleTurnLeftFirst(m, c, s, parent, b, node, d, gparent, u, pc, nc, gc);
      TuckRight(node, parent, low, all);
      ghost var v := Snap(all);
      DoubleTurnLeftSecond(m, v, c, s, parent, b, node, d, gparent, u, pc, nc, gc, low);
      SnapAt(all, node);
      PivotLeft(gparent, node, node.left, color, paint, all);
      Cells.DoubleTurnLeft(m, v, Snap(all), c, s, parent, b, node, d, gparent, u, pc, nc, gc, low, color, paint);
      shape := Plug(c, y);
      DoubleRotationOrder(u, gparent, d, node, b, parent, s, gc, nc, pc, color, gc, low);
      Reshaped(c, x, y);
    }

    method FlipColors(parent: Node, uncle: Node, gparent: Node, ghost all: set<Node>)
      requires parent in all && uncle in all && gparent in all && AllDiffer(parent, uncle, gparent, null, null, null)
      modifies all`parent, all`color
      ensures var m, w := old(Snap(all)), Snap(all);
              && w[parent] == m[parent].(parent := gparent, color := Black)
              && w[uncle] == m[uncle].(parent := gparent, color := Black)
              && w[gparent] == m[gparent].(color := Red)
              && Untouched(m, w, gparent, parent, uncle, null, null, null)
    {
      uncle.parent, uncle.color := gparent, Black;
      parent.parent, parent.color := gparent, Black;
      var node := gparent;
      var p := node.parent;
      node.parent, node.color := p, Red;
    }

    /** Case 1 of `hev_rbtree_insert_color`: parent and uncle turn black, the grandparent red. */
    method InsertFlip(parent: Node, uncle: Node, gparent: Node, ghost c: Path<Node>, ghost x: Shape<Node>, ghost y: Shape<Node>)
      requires Rep() && x.IsRed() && y.IsRed() && shape == Plug(c, Fork(x, gparent, Black, y))
      requires (parent == x.node && uncle == y.node) || (parent == y.node && uncle == x.node)
      modifies this, Nodes(shape)`parent, Nodes(shape)`color, Nodes(shape)`left, Nodes(shape)`right
      ensures Rep() && Nodes(shape) == old(Nodes(shape)) && Inorder(shape) == old(Inorder(shape))
      ensures shape == Plug(c, Fork(x.(color := Black), gparent, Red, y.(color := Black)))
    {
      hide Nodes, PathNodes, Distinct, PathDistinct, Plug, PathAt, TreeAt, Snap;
      ghost var all, m := Nodes(shape), Snap(Nodes(shape));
      ghost var s, t := Fork(x, gparent, Black, y), Fork(x.(color := Black), gparent, Red, y.(color := Black));
      SnapAt(all, gparent);
      ForkReady(m, c, x, gparent, Black, y);
      FlipColors(parent, uncle, gparent, all);
      SnapAt(all, gparent);
      Repainted(m, Snap(all), c, x, gparent, y, Black, Black, Red, Black);
      shape := Plug(c, t);
      Reshaped(c, s, t);
    }

    /** The top of the tree is reached: the root turns black. */
    method BlackenRoot(node: Node)
      requires Rep() && shape.Fork? && shape.node == node
      modifies this, Nodes(shape)`parent, Nodes(shape)`color, Nodes(shape)`left, Nodes(shape)`right
      ensures Rep() && Nodes(shape) == old(Nodes(shape)) && Inorder(shape) == old(Inorder(shape))
      ensures shape == old(shape).(color := Black)
    {
      hide Nodes, Distinct, TreeAt, Plug;
      ghost var all, m, s := Nodes(shape), Snap(Nodes(shape)), shape;
      TopHole(s);
      ForkReady(m, Top, s.left, node, s.color, s.right);
      node.parent, node.color := null, Black;
      Repainted(m, Snap(all), Top, s.left, node, s.right, s.color, if s.left.Nil? then Black else s.left.color, Black,
                if s.right.Nil? then Black else s.right.color);
      shape := s.(color := Black);
      TopHole(shape);
      Reshaped(Top, s, shape);
    }

    /** `hev_rbtree_insert_color`: a red leaf was linked in the hole of `c0`; restore the rules, keep the order. */
    method InsertColor(leaf: Node, ghost c0: Path<Node>)
      requires Rep() && shape == Plug(c0, Fork(Nil, leaf, Red, Nil)) && PathOk(c0, 0)
      modifies this, Nodes(shape)`parent, Nodes(shape)`color, Nodes(shape)`left, Nodes(shape)`right
      ensures Rep() && Nodes(shape) == old(Nodes(shape)) && Inorder(shape) == old(Inorder(shape))
      ensures RedBlack(shape)
    {
      hide Nodes, PathNodes, Distinct, PathDistinct, Plug, Inorder, TreeAt, PathAt, Snap, RedBlack;
      var node := leaf;
      ghost var c, t, h := c0, Fork(Nil, leaf, Red, Nil), 0;
      SnapAt(Nodes(shape), node);
      Neighbours(Snap(Nodes(shape)), c, t);
      var parent := node.parent;
      LeafFault(c0, leaf);
      while true
        invariant Rep() && shape == Plug(c, t) && RedFault(c, t, h)
        invariant node == t.node && parent == HoleParent(c, null)
        invariant Nodes(shape) == old(Nodes(shape)) && Inorder(shape) == old(Inorder(shape))
        decreases c
      {
        if parent == null {
          TopHole(t);
          BlackenRoot(node);
          BlackRootRule(t, h);
          break;
        }
        SnapCell(Nodes(shape));
        Neighbours(Snap(Nodes(shape)), c, t);
        if parent.color.Black? {
          Settled(c, t, h);
          break;
        }
        ghost var up, x := c.up, Joined(c, t);
        assert shape == Plug(up.up, Joined(up, x));
        Neighbours(Snap(Nodes(shape)), up, x);
        var gparent := parent.parent;
        var tmp := gparent.right;
        if parent != tmp {
          if tmp != null && tmp.color.Red? {
            InsertFlipRule(c, t, h);
            InsertFlip(parent, tmp, gparent, up.up, x, up.sibling);
            c, t, h := up.up, Fork(x.(color := Black), gparent, Red, up.sibling.(color := Black)), h + 1;
            SnapAt(Nodes(shape), gparent);
            Neighbours(Snap(Nodes(shape)), c, t);
            node := gparent;
            parent := node.parent;
            continue;
          }
          if node == parent.right {
            InsertInnerRule(up.up, gparent, up.sibling, parent, c.sibling, t.left, node, t.right, h);
            DoubleTurnRight(node, parent, gparent, Red, Red, true, up.up, c.sibling, t.left, t.right, up.sibling, Red, Red, Black);
          } else {
            InsertOuterRule(up.up, gparent, up.sibling, parent, c.sibling, t, h);
            TurnRight(parent, gparent, Red, true, up.up, t, c.sibling, up.sibling, Red, Black);
          }
          break;
        } else {
          tmp := gparent.left;
          if tmp != null && tmp.color.Red? {
            InsertFlipRule(c, t, h);
            InsertFlip(parent, tmp, gparent, up.up, up.sibling, x);
            c, t, h := up.up, Fork(up.sibling.(color := Black), gparent, Red, x.(color := Black)), h + 1;
            SnapAt(Nodes(shape), gparent);
            Neighbours(Snap(Nodes(shape)), c, t);
            node := gparent;
            parent := node.parent;
            continue;
          }
          if node == parent.left {
            InsertInnerRule(up.up, gparent, up.sibling, parent, c.sibling, t.right, node, t.left, h);
            DoubleTurnLeft(node, parent, gparent, Red, Red, true, up.up, c.sibling, t.right, t.left, up.sibling, Red, Red, Black);
          } else {
            InsertOuterRule(up.up, gparent, up.sibling, parent, c.sibling, t, h);
            TurnLeft(parent, gparent, Red, true, up.up, t, c.sibling, up.sibling, Red, Black);
          }
          break;
        }
      }
    }

    /** `node`, below `parent`, turns black. */
    method PaintBlack(node: Node, parent: Node, ghost c: Path<Node>, ghost t: Shape<Node>)
      requires Rep() && shape == Plug(c, t) && t.Fork? && t.node == node && !c.Top? && c.node == parent
      modifies this, Nodes(shape)`parent, Nodes(shape)`color, Nodes(shape)`left, Nodes(shape)`right
      ensures Rep() && Nodes(shape) == old(Nodes(shape)) && Inorder(shape) == old(Inorder(shape))
      ensures shape == Plug(c, t.(color := Black))
    {
      hide Nodes, PathNodes, Distinct, PathDistinct, Plug, PathAt, TreeAt;
      ghost var all, m := Nodes(shape), Snap(Nodes(shape));
      ForkReady(m, c, t.left, node, t.color, t.right);
      node.parent, node.color := parent, Black;
      Repainted(m, Snap(all), c, t.left, node, t.right, t.color, if t.left.Nil? then Black else t.left.color, Black,
                if t.right.Nil? then Black else t.right.color);
      shape := Plug(c, t.(color := Black));
      Reshaped(c, t, t.(color := Black));
    }

    method LightenColors(parent: Node, sibling: Node, ghost all: set<Node>) returns (settled: bool)
      requires parent in all && sibling in all && parent != sibling
      modifies all`parent, all`color
      ensures settled == old(parent.color).Red?
      ensures var m, w := old(Snap(all)), Snap(all);
              && w[sibling] == m[sibling].(parent := parent, color := Red)
              && w[parent] == m[parent].(color := Black)
              && Untouched(m, w, parent, sibling, null, null, null, null)
    {
      sibling.parent, sibling.color := parent, Red;
      settled := parent.color.Red?;
      if settled {
        parent.color := Black;
      }
    }

    /** Case 2 of `_hev_rbtree_erase_color`: the sibling turns red, a red parent black. */
    method Lighten(parent: Node, sibling: Node, ghost c: Path<Node>, ghost t: Shape<Node>) returns (settled: bool)
      requires Rep() && shape == Plug(c, t) && !c.Top? && c.node == parent && c.sibling.Fork? && c.sibling.node == sibling
      modifies this, Nodes(shape)`parent, Nodes(shape)`color, Nodes(shape)`left, Nodes(shape)`right
      ensures Rep() && Nodes(shape) == old(Nodes(shape)) && Inorder(shape) == old(Inorder(shape))
      ensures settled == c.color.Red? && shape == Plug(c.up, Lightened(c, t))
    {
      hide Nodes, PathNodes, Distinct, PathDistinct, Plug, PathAt, TreeAt, Snap;
      ghost var all, m := Nodes(shape), Snap(Nodes(shape));
      ghost var x := Joined(c, t);
      assert shape == Plug(c.up, x);
      ForkReady(m, c.up, x.left, parent, x.color, x.right);
      SnapAt(all, parent);
      settled := LightenColors(parent, sibling, all);
      SnapAt(all, parent);
      ghost var lc := if c.RightOf? then Red else if x.left.Nil? then Black else x.left.color;
      ghost var rc := if c.LeftOf? then Red else if x.right.Nil? then Black else x.right.color;
      Repainted(m, Snap(all), c.up, x.left, parent, x.right, x.color, lc, Black, rc);
      shape := Plug(c.up, Lightened(c, t));
      Reshaped(c.up, x, Lightened(c, t));
    }

    /** One round of `_hev_rbtree_erase_color` when the hole is the left child of `parent`. */
    method EraseRoundLeft(parent: Node, ghost c0: Path<Node>, ghost t: Shape<Node>, ghost h: int) returns (settled: bool)
      requires Rep() && shape == Plug(c0, t) && Deficit(c0, t, h) && c0.LeftOf? && c0.node == parent
      modifies this, Nodes(shape)`parent, Nodes(shape)`color, Nodes(shape)`left, Nodes(shape)`right
      ensures Rep() && Nodes(shape) == old(Nodes(shape)) && Inorder(shape) == old(Inorder(shape))
      ensures settled ==> RedBlack(shape)
      ensures !settled ==> shape == Plug(c0.up, Lightened(c0, t)) && (if c0.up.Top? then RedBlack(shape) else Deficit(c0.up, Lightened(c0, t), h + 1))
    {
      hide Nodes, PathNodes, Distinct, PathDistinct, Plug, Inorder, PathAt, TreeAt, Snap;
      hide RedBlack, PathOk, NoRedRed, BlackHeight;
      ghost var c := c0;
      DeficitSibling(c, t, h);
      SnapCell(Nodes(shape));
      Neighbours(Snap(Nodes(shape)), c, t);
      var sibling := parent.right;
      if sibling.color.Red? {
        ghost var s := c.sibling;
        SiblingReady(Snap(Nodes(shape)), c, t);
        RedSiblingRule(c, t, h);
        assert shape == Plug(c.up, Joined(c, t));
        var tmp1 := sibling.left;
        TurnLeft(sibling, parent, Red, true, c.up, s.right, s.left, t, Red, Black);
        c := LeftOf(LeftOf(c.up, s.node, Black, s.right), c.node, Red, s.left);
        assert shape == Plug(c.up.up, Joined(c.up, Joined(c, t)));
        sibling := tmp1;
        DeficitSibling(c, t, h);
      }
      settled := EraseSettleLeft(parent, sibling, c, t, h);
    }

    /** Cases 2 to 4: the sibling is black. */
    method EraseSettleLeft(parent: Node, sibling: Node, ghost c: Path<Node>, ghost t: Shape<Node>, ghost h: int) returns (settled: bool)
      requires Rep() && shape == Plug(c, t) && Deficit(c, t, h) && c.LeftOf? && c.node == parent
      requires !c.sibling.IsRed() && Root(c.sibling) == sibling
      modifies this, Nodes(shape)`parent, Nodes(shape)`color, Nodes(shape)`left, Nodes(shape)`right
      ensures Rep() && Nodes(shape) == old(Nodes(shape)) && Inorder(shape) == old(Inorder(shape))
      ensures settled ==> RedBlack(shape)
      ensures !settled ==> c.color.Black? && shape == Plug(c.up, Lightened(c, t))
      ensures !settled ==> if c.up.Top? then RedBlack(shape) else Deficit(c.up, Lightened(c, t), h + 1)
    {
      hide Nodes, PathNodes, Distinct, PathDistinct, Plug, Inorder, PathAt, TreeAt, Snap;
      hide RedBlack, PathOk, NoRedRed, BlackHeight, Deficit;
      ghost var s := c.sibling;
      SnapCell(Nodes(shape));
      SiblingReady(Snap(Nodes(shape)), c, t);
      assert shape == Plug(c.up, Joined(c, t));
      var tmp1 := sibling.right;
      if tmp1 == null || tmp1.color.Black? {
        var tmp2 := sibling.left;
        if tmp2 == null || tmp2.color.Black? {
          LightenRule(c, t, h);
          settled := Lighten(parent, sibling, c, t);
          return;
        }
        InnerNephewRule(c, t, sibling, s.left.left, tmp2, s.left.right, s.right, h);
        InnerNephewColors(c, t, h);
        DoubleTurnLeft(tmp2, sibling, parent, Black, Black, false, c.up, s.right, s.left.right, s.left.left, t, Black, Red, c.color);
        return true;
      }
      OuterNephewRule(c, t, sibling, s.left, s.right, h);
      ghost var e := RightOf(RightOf(c.up, parent, c.color, t), sibling, Black, s.left);
      assert shape == Plug(e.up.up, Joined(e.up, Joined(e, s.right)));
      PaintBlack(tmp1, sibling, e, s.right);
      assert shape == Plug(e.up.up, Joined(e.up, Joined(e, s.right.(color := Black))));
      TurnLeft(sibling, parent, Black, false, c.up, s.right.(color := Black), s.left, t, Black, c.color);
      return true;
    }

    /** One round of `_hev_rbtree_erase_color` when the hole is the right child of `parent`. */
    method EraseRoundRight(parent: Node, ghost c0: Path<Node>, ghost t: Shape<Node>, ghost h: int) returns (settled: bool)
      requires Rep() && shape == Plug(c0, t) && Deficit(c0, t, h) && c0.RightOf? && c0.node == parent
      modifies this, Nodes(shape)`parent, Nodes(shape)`color, Nodes(shape)`left, Nodes(shape)`right
      ensures Rep() && Nodes(shape) == old(Nodes(shape)) && Inorder(shape) == old(Inorder(shape))
      ensures settled ==> RedBlack(shape)
      ensures !settled ==> shape == Plug(c0.up, Lightened(c0, t)) && (if c0.up.Top? then RedBlack(shape) else Deficit(c0.up, Lightened(c0, t), h + 1))
    {
      hide Nodes, PathNodes, Distinct, PathDistinct, Plug, Inorder, PathAt, TreeAt, Snap;
      hide RedBlack, PathOk, NoRedRed, BlackHeight;
      ghost var c := c0;
      DeficitSibling(c, t, h);
      SnapCell(Nodes(shape));
      Neighbours(Snap(Nodes(shape)), c, t);
      var sibling := parent.left;
      if sibling.color.Red? {
        ghost var s := c.sibling;
        SiblingReady(Snap(Nodes(shape)), c, t);
        RedSiblingRule(c, t, h);
        assert shape == Plug(c.up, Joined(c, t));
        var tmp1 := sibling.right;
        TurnRight(sibling, parent, Red, true, c.up, s.left, s.right, t, Red, Black);
        c := RightOf(RightOf(c.up, s.node, Black, s.left), c.node, Red, s.right);
        assert shape == Plug(c.up.up, Joined(c.up, Joined(c, t)));
        sibling := tmp1;
        DeficitSibling(c, t, h);
      }
      settled := EraseSettleRight(parent, sibling, c, t, h);
    }

    /** Cases 2 to 4: the sibling is black. */
    method EraseSettleRight(parent: Node, sibling: Node, ghost c: Path<Node>, ghost t: Shape<Node>, ghost h: int) returns (settled: bool)
      requires Rep() && shape == Plug(c, t) && Deficit(c, t, h) && c.RightOf? && c.node == parent
      requires !c.sibling.IsRed() && Root(c.sibling) == sibling
      modifies this, Nodes(shape)`parent, Nodes(shape)`color, Nodes(shape)`left, Nodes(shape)`right
      ensures Rep() && Nodes(shape) == old(Nodes(shape)) && Inorder(shape) == old(Inorder(shape))
      ensures settled ==> RedBlack(shape)
      ensures !settled ==> c.color.Black? && shape == Plug(c.up, Lightened(c, t))
      ensures !settled ==> if c.up.Top? then RedBlack(shape) else Deficit(c.up, Lightened(c, t), h + 1)
    {
      hide Nodes, PathNodes, Distinct, PathDistinct, Plug, Inorder, PathAt, TreeAt, Snap;
      hide RedBlack, PathOk, NoRedRed, BlackHeight, Deficit;
      ghost var s := c.sibling;
      SnapCell(Nodes(shape));
      SiblingReady(Snap(Nodes(shape)), c, t);
      assert shape == Plug(c.up, Joined(c, t));
      var tmp1 := sibling.left;
      if tmp1 == null || tmp1.color.Black? {
        var tmp2 := sibling.right;
        if tmp2 == null || tmp2.color.Black? {
          LightenRule(c, t, h);
          settled := Lighten(parent, sibling, c, t);
          return;
        }
        InnerNephewRule(c, t, sibling, s.right.right, tmp2, s.right.left, s.left, h);
        InnerNephewColors(c, t, h);
        DoubleTurnRight(tmp2, sibling, parent, Black, Black, false, c.up, s.left, s.right.left, s.right.right, t, Black, Red, c.color);
        return true;
      }
      OuterNephewRule(c, t, sibling, s.right, s.left, h);
      ghost var e := LeftOf(LeftOf(c.up, parent, c.color, t), sibling, Black, s.right);
      assert shape == Plug(e.up.up, Joined(e.up, Joined(e, s.left)));
      PaintBlack(tmp1, sibling, e, s.left);
      assert shape == Plug(e.up.up, Joined(e.up, Joined(e, s.left.(color := Black))));
      TurnRight(sibling, parent, Black, false, c.up, s.left.(color := Black), s.right, t, Black, c.color);
      return true;
    }

    /** `_hev_rbtree_erase_color`: the hole below `rebalance` lacks one black node; restore the rules, keep the order. */
    method EraseColor(rebalance: Node, ghost c0: Path<Node>)
      requires Rep() && shape == Plug(c0, Nil) && Deficit(c0, Nil, 0) && rebalance == c0.node
      modifies this, Nodes(shape)`parent, Nodes(shape)`color, Nodes(shape)`left, Nodes(shape)`right
      ensures Rep() && Nodes(shape) == old(Nodes(shape)) && Inorder(shape) == old(Inorder(shape))
      ensures RedBlack(shape)
    {
      hide Nodes, PathNodes, Distinct, PathDistinct, Plug, Inorder, PathAt, TreeAt, Snap;
      hide RedBlack, PathOk, NoRedRed, BlackHeight;
      var node: Node?, parent := null, rebalance;
      ghost var c: Path<Node>, t: Shape<Node>, h := c0, Nil, 0;
      while true
        invariant Rep() && shape == Plug(c, t) && Deficit(c, t, h)
        invariant node == Root(t) && parent == c.node
        invariant Nodes(shape) == old(Nodes(shape)) && Inorder(shape) == old(Inorder(shape))
        decreases c
      {
        DeficitSibling(c, t, h);
        SnapCell(Nodes(shape));
        Neighbours(Snap(Nodes(shape)), c, t);
        var settled;
        if node != parent.right {
          settled := EraseRoundLeft(parent, c, t, h);
        } else {
          settled := EraseRoundRight(parent, c, t, h);
        }
        if settled {
          break;
        }
        ghost var x := Lightened(c, t);
        SnapCell(Nodes(shape));
        Neighbours(Snap(Nodes(shape)), c.up, x);
        node := parent;
        var p := node.parent;
        if p == null {
          break;
        }
        parent := p;
        c, t, h := c.up, x, h + 1;
      }
    }

    // ---------- Erasure ----------

    /** The last part of `_hev_rbtree_erase`: `successor` takes over the left child, parent and colour of `node`. */
    method TakeOver(node: Node, successor: Node, parent: Node, child2: Node?) returns (rebalance: Node?)
      requires node.left != null && AllDiffer(node, successor, node.left, child2, node.parent, null)
      requires parent != node.left && parent != child2 && parent != node && parent != node.parent
      modifies this`root, successor`left, successor`parent, successor`color, node.left`parent
      modifies (if child2 == null then {} else {child2})`parent, (if child2 == null then {} else {child2})`color
      modifies (if node.parent == null then {} else {node.parent})`left, (if node.parent == null then {} else {node.parent})`right
      ensures successor.left == node.left && node.left.parent == successor
      ensures successor.parent == node.parent && successor.color == node.color
      ensures child2 != null ==> child2.parent == parent && child2.color == Black
      ensures rebalance == if child2 == null && old(successor.color).Black? then parent else null
      ensures var h := node.parent;
              && (h == null ==> root == successor)
              && (h != null ==> root == old(root))
              && (h != null && old(h.left) == node ==> h.left == successor && h.right == old(h.right))
              && (h != null && old(h.left) != node ==> h.right == successor && h.left == old(h.left))
    {
      var tmp := node.left;
      successor.left := tmp;
      tmp.parent := successor;
      tmp := node.parent;
      ChangeChild(node, successor, tmp);
      if child2 != null {
        child2.parent, child2.color := parent, Black;
        rebalance := null;
      } else {
        rebalance := if successor.color.Black? then parent else null;
      }
      successor.parent, successor.color := node.parent, node.color;
    }

    method SpliceOut(node: Node, x: Node?, ghost all: set<Node>) returns (rebalance: Node?)
      requires node in all && (x != null ==> x in all) && (node.parent != null ==> node.parent in all)
      requires AllDiffer(node, x, node.parent, null, null, null)
      modifies this`root, all`parent, all`color, all`left, all`right
      ensures SplicedOut(old(Snap(all)), Snap(all), node, x)
      ensures rebalance == if x == null && old(node.color).Black? then old(node.parent) else null
      ensures root == if old(node.parent) == null then x else old(root)
    {
      var parent, color := node.parent, node.color;
      ChangeChild(node, x, parent);
      if x != null {
        x.parent, x.color := parent, color;
        rebalance := null;
      } else {
        rebalance := if color.Black? then parent else null;
      }
    }

    method SwapNear(node: Node, successor: Node, ghost all: set<Node>) returns (rebalance: Node?)
      requires node in all && successor in all && node.left != null && node.left in all
      requires (successor.right != null ==> successor.right in all) && (node.parent != null ==> node.parent in all)
      requires AllDiffer(node, successor, node.left, successor.right, node.parent, null)
      modifies this`root, all`parent, all`color, all`left, all`right
      ensures NearSwapped(old(Snap(all)), Snap(all), node, successor, old(node.left), old(successor.right))
      ensures rebalance == if old(successor.right) == null && old(successor.color).Black? then successor else null
      ensures root == if old(node.parent) == null then successor else old(root)
    {
      rebalance := TakeOver(node, successor, successor, successor.right);
    }

    method SwapFar(node: Node, child: Node, successor: Node, parent: Node, ghost all: set<Node>) returns (rebalance: Node?)
      requires node in all && child in all && successor in all && parent in all && node.left != null && node.left in all
      requires (successor.right != null ==> successor.right in all) && (node.parent != null ==> node.parent in all)
      requires AllDiffer(node, successor, node.left, successor.right, node.parent, parent)
      requires AllDiffer(node, successor, node.left, successor.right, node.parent, child)
      modifies this`root, all`parent, all`color, all`left, all`right
      ensures FarSwapped(old(Snap(all)), Snap(all), node, successor, old(node.left), child, parent, old(successor.right))
      ensures rebalance == if old(successor.right) == null && old(successor.color).Black? then parent else null
      ensures root == if old(node.parent) == null then successor else old(root)
    {
      var child2 := successor.right;
      parent.left := child2;
      successor.right := child;
      child.parent := successor;
      rebalance := TakeOver(node, successor, parent, child2);
    }

    /** Case 1 of `_hev_rbtree_erase`: at most one child. */
    method EraseOne(node: Node, x: Node?, ghost c: Path<Node>, ghost l: Shape<Node>, ghost col: Color, ghost r: Shape<Node>)
      returns (rebalance: Node?)
      requires Rep() && shape == Plug(c, Fork(l, node, col, r)) && (l.Nil? || r.Nil?) && x == Root(if l.Nil? then r else l)
      modifies this, Nodes(shape)`parent, Nodes(shape)`color, Nodes(shape)`left, Nodes(shape)`right
      ensures Rep() && Nodes(shape) == old(Nodes(shape)) - {node}
      ensures shape == Plug(c, Recolored(if l.Nil? then r else l, col))
      ensures rebalance == if x == null && col.Black? then HoleParent(c, null) else null
    {
      hide Nodes, PathNodes, Distinct, PathDistinct, Plug, PathAt, TreeAt, Snap, SplicedOut;
      ghost var all, m, y := Nodes(shape), Snap(Nodes(shape)), if l.Nil? then r else l;
      SnapCell(all);
      ForkReady(m, c, l, node, col, r);
      UpReady(m, c, Fork(l, node, col, r));
      rebalance := SpliceOut(node, x, all);
      Spliced(m, Snap(all), c, l, node, col, r);
      PlugRoot(c, Fork(l, node, col, r), Recolored(y, col));
      shape := Plug(c, Recolored(y, col));
      Restricted(all, shape);
    }

    /** Case 2 of `_hev_rbtree_erase`: the successor is the right child. */
    method EraseNear(node: Node, successor: Node, ghost c: Path<Node>, ghost l: Shape<Node>, ghost col: Color, ghost sc: Color, ghost x: Shape<Node>)
      returns (rebalance: Node?)
      requires Rep() && l.Fork? && shape == Plug(c, Fork(l, node, col, Fork(Nil, successor, sc, x)))
      modifies this, Nodes(shape)`parent, Nodes(shape)`color, Nodes(shape)`left, Nodes(shape)`right
      ensures Rep() && Nodes(shape) == old(Nodes(shape)) - {node}
      ensures shape == Plug(c, Fork(l, successor, col, Recolored(x, Black)))
      ensures rebalance == if x.Nil? && sc.Black? then successor else null
    {
      hide Nodes, PathNodes, Distinct, PathDistinct, Plug, PathAt, TreeAt, Snap, NearSwapped;
      ghost var all, m := Nodes(shape), Snap(Nodes(shape));
      ghost var t, u := Fork(l, node, col, Fork(Nil, successor, sc, x)), Fork(l, successor, col, Recolored(x, Black));
      SnapCell(all);
      NearReady(m, c, l, node, col, successor, sc, x);
      UpReady(m, c, t);
      rebalance := SwapNear(node, successor, all);
      NearSwap(m, Snap(all), c, l, node, col, successor, sc, x);
      PlugRoot(c, t, u);
      shape := Plug(c, u);
      Restricted(all, shape);
    }

    /** Case 3 of `_hev_rbtree_erase`: the successor is the leftmost node below the right child. */
    method EraseFar(node: Node, child: Node, successor: Node, parent: Node, ghost c: Path<Node>, ghost l: Shape<Node>, ghost col: Color,
                    ghost d: Path<Node>, ghost sc: Color, ghost x: Shape<Node>) returns (rebalance: Node?)
      requires Rep() && l.Fork? && d.LeftOf? && shape == Plug(c, Fork(l, node, col, Plug(d, Fork(Nil, successor, sc, x))))
      requires child == TopNode(d) && parent == d.node
      modifies this, Nodes(shape)`parent, Nodes(shape)`color, Nodes(shape)`left, Nodes(shape)`right
      ensures Rep() && Nodes(shape) == old(Nodes(shape)) - {node}
      ensures shape == Plug(c, Fork(l, successor, col, Plug(d, Recolored(x, Black))))
      ensures rebalance == if x.Nil? && sc.Black? then parent else null
    {
      hide Nodes, PathNodes, Distinct, PathDistinct, Plug, PathAt, TreeAt, Snap, FarSwapped;
      ghost var all, m := Nodes(shape), Snap(Nodes(shape));
      ghost var t, u := Fork(l, node, col, Plug(d, Fork(Nil, successor, sc, x))), Fork(l, successor, col, Plug(d, Recolored(x, Black)));
      SnapCell(all);
      FarReady(m, c, l, node, col, d, successor, sc, x);
      UpReady(m, c, t);
      rebalance := SwapFar(node, child, successor, parent, all);
      FarSwap(m, Snap(all), c, l, node, col, d, successor, sc, x);
      FarNodes(c, l, node, col, d, successor, sc, x);
      PlugRoot(c, t, u);
      shape := Plug(c, u);
      Restricted(all, shape);
    }

    /** The leftmost node below `child`, the right child of `node`; no `parent` if that is `child` itself. */
    method FindSuccessor(child: Node, ghost node: Node, ghost c: Path<Node>, ghost l: Shape<Node>, ghost col: Color, ghost r: Shape<Node>)
      returns (successor: Node, parent: Node?, ghost d: Path<Node>, ghost sub: Shape<Node>)
      requires Rep() && shape == Plug(c, Fork(l, node, col, r)) && r.Fork? && r.node == child
      ensures r == Plug(d, sub) && sub.Fork? && sub.left.Nil? && sub.node == successor && Before(d) == []
      ensures if parent == null then d.Top? && successor == child else d.LeftOf? && parent == d.node && TopNode(d) == child
      ensures successor.left == null && (parent != null ==> parent.left == successor)
    {
      hide Nodes, PathNodes, Distinct, PathDistinct, Plug, Inorder, PathAt, TreeAt, Snap;
      ghost var m := Snap(Nodes(shape));
      SnapCell(Nodes(shape));
      d, sub, parent, successor := Top, r, null, child;
      TopHole(r);
      SubReady(m, c, l, node, col, r, d, sub);
      var tmp := child.left;
      while tmp != null
        invariant r == Plug(d, sub) && sub.Fork? && sub.node == successor && Before(d) == [] && tmp == Root(sub.left)
        invariant if parent == null then d.Top? && successor == child else d.LeftOf? && parent == d.node && TopNode(d) == child
        invariant tmp == successor.left && (parent != null ==> parent.left == successor)
        decreases sub
      {
        parent := successor;
        successor := tmp;
        d, sub := LeftOf(d, sub.node, sub.color, sub.right), sub.left;
        assert Plug(d, sub) == Plug(d.up, Joined(d, sub));
        SubReady(m, c, l, node, col, r, d, sub);
        tmp := tmp.left;
      }
    }

    /** `_hev_rbtree_erase`: unlink `node`; a non-null result names the parent of a hole that lacks a black node. */
    method Unlink(node: Node) returns (rebalance: Node?, ghost hole: Path<Node>)
      requires Rep() && RedBlack(shape) && node in Nodes(shape)
      modifies this, Nodes(shape)`parent, Nodes(shape)`color, Nodes(shape)`left, Nodes(shape)`right
      ensures Rep() && Nodes(shape) == old(Nodes(shape)) - {node} && Inorder(shape) == Without(old(Inorder(shape)), node)
      ensures rebalance == null ==> RedBlack(shape)
      ensures rebalance != null ==> shape == Plug(hole, Nil) && Deficit(hole, Nil, 0) && hole.node == rebalance
    {
      hide Nodes, PathNodes, Distinct, PathDistinct, Plug, Inorder, PathAt, TreeAt, Snap, RedBlack, Deficit;
      ghost var c, s := Locate(shape, node);
      ghost var l, col, r := s.left, s.color, s.right;
      ghost var m := Snap(Nodes(shape));
      SnapCell(Nodes(shape));
      ForkReady(m, c, l, node, col, r);
      hole := c;
      var child, tmp := node.right, node.left;
      if tmp == null {
        rebalance := EraseOne(node, child, c, l, col, r);
        DropRule(c, node, col, r);
        DropOrder(c, l, node, col, r);
      } else if child == null {
        rebalance := EraseOne(node, tmp, c, l, col, r);
        DropRule(c, node, col, l);
        DropOrder(c, l, node, col, r);
      } else {
        var successor, parent;
        ghost var d, sub;
        successor, parent, d, sub := FindSuccessor(child, node, c, l, col, r);
        SuccessorRule(c, l, node, col, d, sub);
        SuccessorOrder(c, l, node, col, d, sub);
        if parent == null {
          TopHole(sub);
          TopHole(Recolored(sub.right, Black));
          rebalance := EraseNear(node, successor, c, l, col, sub.color, sub.right);
        } else {
          rebalance := EraseFar(node, child, successor, parent, c, l, col, d, sub.color, sub.right);
        }
        hole := Compose(RightOf(c, successor, col, l), d);
      }
    }

    /** `hev_rbtree_erase`: exactly `node` leaves, the rest keeps its order, and the rules hold again. */
    method Erase(node: Node)
      requires Rep() && RedBlack(shape) && node in Nodes(shape)
      modifies this, Nodes(shape)`parent, Nodes(shape)`color, Nodes(shape)`left, Nodes(shape)`right
      ensures Rep() && RedBlack(shape)
      ensures Nodes(shape) == old(Nodes(shape)) - {node} && Inorder(shape) == Without(old(Inorder(shape)), node)
    {
      var rebalance;
      ghost var hole;
      rebalance, hole := Unlink(node);
      if rebalance != null {
        EraseColor(rebalance, hole);
      }
    }

    // ---------- Walks, replacement, linking ----------

    /** `hev_rbtree_first` */
    method First() returns (n: Node?)
      requires Rep()
      ensures Rep() && n == FirstOf(Inorder(shape))
    {
      hide Nodes, PathNodes, Distinct, PathDistinct, Plug, Inorder, PathAt, TreeAt, Snap;
      n := root;
      NilOrder<Node>();
      if n == null {
        return;
      }
      ghost var d: Path<Node>, sub := Top, shape;
      TopHole(shape);
      SnapCell(Nodes(shape));
      Neighbours(Snap(Nodes(shape)), d, sub);
      while n.left != null
        invariant shape == Plug(d, sub) && sub.Fork? && sub.node == n && Before(d) == [] && n.left == Root(sub.left)
        decreases sub
      {
        n := n.left;
        d, sub := LeftOf(d, sub.node, sub.color, sub.right), sub.left;
        assert Plug(d, sub) == Plug(d.up, Joined(d, sub));
        Neighbours(Snap(Nodes(shape)), d, sub);
      }
      ForkOrder(d, sub.left, n, sub.color, sub.right);
    }

    /** `hev_rbtree_last` */
    method Last() returns (n: Node?)
      requires Rep()
      ensures Rep() && n == LastOf(Inorder(shape))
    {
      hide Nodes, PathNodes, Distinct, PathDistinct, Plug, Inorder, PathAt, TreeAt, Snap;
      n := root;
      NilOrder<Node>();
      if n == null {
        return;
      }
      ghost var d: Path<Node>, sub := Top, shape;
      TopHole(shape);
      SnapCell(Nodes(shape));
      Neighbours(Snap(Nodes(shape)), d, sub);
      while n.right != null
        invariant shape == Plug(d, sub) && sub.Fork? && sub.node == n && After(d) == [] && n.right == Root(sub.right)
        decreases sub
      {
        n := n.right;
        d, sub := RightOf(d, sub.node, sub.color, sub.left), sub.right;
        assert Plug(d, sub) == Plug(d.up, Joined(d, sub));
        Neighbours(Snap(Nodes(shape)), d, sub);
      }
      ForkOrder(d, sub.left, n, sub.color, sub.right);
    }

    /** `hev_rbtree_node_next` */
    method Next(node: Node) returns (n: Node?)
      requires Rep() && (node in Nodes(shape) || node.Empty())
      ensures Rep() && (node.Empty() ==> n == null)
      ensures node in Nodes(shape) ==> n == NextIn(Inorder(shape), node)
    {
      hide Nodes, PathNodes, Distinct, PathDistinct, Plug, Inorder, PathAt, TreeAt, Snap;
      ghost var m := Snap(Nodes(shape));
      SnapCell(Nodes(shape));
      ghost var c: Path<Node>, s: Shape<Node> := Top, Nil;
      if node in Nodes(shape) {
        c, s := Locate(shape, node);
        ForkReady(m, c, s.left, node, s.color, s.right);
        ForkOrder(c, s.left, node, s.color, s.right);
        InorderDistinct(shape);
        NextOnce(Before(c) + Inorder(s.left), node, Inorder(s.right) + After(c));
      }
      if node.Empty() {
        return null;
      }
      NilOrder<Node>();
      if node.right != null {
        var x := node.right;
        ghost var d: Path<Node>, sub: Shape<Node> := Top, s.right;
        TopHole(s.right);
        BelowNext(m, c, s, d, sub);
        while x.left != null
          invariant s.right == Plug(d, sub) && sub.Fork? && sub.node == x && Before(d) == [] && x.left == Root(sub.left)
          decreases sub
        {
          x := x.left;
          d, sub := LeftOf(d, sub.node, sub.color, sub.right), sub.left;
          assert Plug(d, sub) == Plug(d.up, Joined(d, sub));
          BelowNext(m, c, s, d, sub);
        }
        ForkOrder(d, sub.left, x, sub.color, sub.right);
        return x;
      }
      var x, parent := node, node.parent;
      ghost var d, sub := c, s;
      Neighbours(m, d, sub);
      while parent != null && x == parent.right
        invariant shape == Plug(d, sub) && sub.Fork? && sub.node == x && After(d) == After(c) && parent == HoleParent(d, null)
        decreases d
      {
        Neighbours(m, d, sub);
        x := parent;
        d, sub := d.up, Joined(d, sub);
        Neighbours(m, d, sub);
        parent := x.parent;
      }
      Neighbours(m, d, sub);
      return parent;
    }

    /** `hev_rbtree_node_prev` */
    method Prev(node: Node) returns (n: Node?)
      requires Rep() && (node in Nodes(shape) || node.Empty())
      ensures Rep() && (node.Empty() ==> n == null)
      ensures node in Nodes(shape) ==> n == PrevIn(Inorder(shape), node)
    {
      hide Nodes, PathNodes, Distinct, PathDistinct, Plug, Inorder, PathAt, TreeAt, Snap;
      ghost var m := Snap(Nodes(shape));
      SnapCell(Nodes(shape));
      ghost var c: Path<Node>, s: Shape<Node> := Top, Nil;
      if node in Nodes(shape) {
        c, s := Locate(shape, node);
        ForkReady(m, c, s.left, node, s.color, s.right);
        ForkOrder(c, s.left, node, s.color, s.right);
        InorderDistinct(shape);
        PrevOnce(Before(c) + Inorder(s.left), node, Inorder(s.right) + After(c));
      }
      if node.Empty() {
        return null;
      }
      NilOrder<Node>();
      if node.left != null {
        var x := node.left;
        ghost var d: Path<Node>, sub: Shape<Node> := Top, s.left;
        TopHole(s.left);
        BelowPrev(m, c, s, d, sub);
        while x.right != null
          invariant s.left == Plug(d, sub) && sub.Fork? && sub.node == x && After(d) == [] && x.right == Root(sub.right)
          decreases sub
        {
          x := x.right;
          d, sub := RightOf(d, sub.node, sub.color, sub.left), sub.right;
          assert Plug(d, sub) == Plug(d.up, Joined(d, sub));
          BelowPrev(m, c, s, d, sub);
        }
        ForkOrder(d, sub.left, x, sub.color, sub.right);
        return x;
      }
      var x, parent := node, node.parent;
      ghost var d, sub := c, s;
      Neighbours(m, d, sub);
      while parent != null && x == parent.left
        invariant shape == Plug(d, sub) && sub.Fork? && sub.node == x && Before(d) == Before(c) && parent == HoleParent(d, null)
        decreases d
      {
        Neighbours(m, d, sub);
        x := parent;
        d, sub := d.up, Joined(d, sub);
        Neighbours(m, d, sub);
        parent := x.parent;
      }
      Neighbours(m, d, sub);
      return parent;
    }

    /** `hev_rbtree_node_link`: the new red leaf fills the hole of `c`; the link is `root` or a child link of `parent`. */
    method Link(node: Node, parent: Node?, left: bool, ghost c: Path<Node>)
      requires Rep() && shape == Plug(c, Nil) && node !in Nodes(shape)
      requires parent == HoleParent(c, null) && (parent != null ==> (left <==> c.LeftOf?))
      modifies this, node`parent, node`color, node`left, node`right, Nodes(shape)`left, Nodes(shape)`right
      ensures Rep() && Nodes(shape) == old(Nodes(shape)) + {node}
      ensures shape == Plug(c, Fork(Nil, node, Red, Nil)) && Inorder(shape) == Before(c) + [node] + After(c)
    {
      hide Nodes, PathNodes, Distinct, PathDistinct, Plug, PathAt, TreeAt, Snap;
      ghost var old_, m, t := Nodes(shape), Snap(Nodes(shape)), Fork(Nil, node, Red, Nil);
      SnapCell(old_);
      UpReady(m, c, Nil);
      LinkWrites(node, parent, left, old_);
      LinkedLeaf(m, Snap(old_ + {node}), c, node);
      shape := Plug(c, t);
      PlugInorder(c, t);
      PlugRoot(c, Nil, t);
    }

    method LinkWrites(node: Node, parent: Node?, left: bool, ghost all: set<Node>)
      requires node !in all && (parent != null ==> parent in all)
      modifies this`root, node`parent, node`color, node`left, node`right, all`left, all`right
      ensures LeafLinked(old(Snap(all)), Snap(all + {node}), node, parent, left)
      ensures root == if parent == null then node else old(root)
    {
      node.parent, node.color := parent, Red;
      node.left, node.right := null, null;
      if parent == null {
        root := node;
      } else if left {
        parent.left := node;
      } else {
        parent.right := node;
      }
    }

    /** `hev_rbtree_replace`: `new_` takes the place, links and colour of `victim`. */
    method Replace(victim: Node, new_: Node)
      requires Rep() && victim in Nodes(shape) && new_ !in Nodes(shape)
      modifies this, new_`parent, new_`color, new_`left, new_`right
      modifies Nodes(shape)`parent, Nodes(shape)`left, Nodes(shape)`right
      ensures Rep() && Nodes(shape) == old(Nodes(shape)) - {victim} + {new_}
      ensures Inorder(shape) == Renamed(old(Inorder(shape)), victim, new_)
      ensures old(RedBlack(shape)) ==> RedBlack(shape)
    {
      hide Nodes, PathNodes, Distinct, PathDistinct, Plug, Inorder, PathAt, TreeAt, Snap, RedBlack;
      ghost var all, m := Nodes(shape), Snap(Nodes(shape));
      ghost var c, s := Locate(shape, victim);
      ghost var u := Fork(s.left, new_, s.color, s.right);
      SnapCell(all);
      ForkReady(m, c, s.left, victim, s.color, s.right);
      UpReady(m, c, s);
      ReplaceWrites(victim, new_, all);
      Substituted(m, Snap(all + {new_}), c, s.left, victim, new_, s.color, s.right);
      SubstitutedOrder(c, s.left, victim, new_, s.color, s.right);
      SubstitutedRule(c, s.left, victim, new_, s.color, s.right);
      PlugRoot(c, s, u);
      shape := Plug(c, u);
      Restricted(all + {new_}, shape);
    }

    method ReplaceWrites(victim: Node, new_: Node, ghost all: set<Node>)
      requires victim in all && new_ !in all
      requires (victim.parent != null ==> victim.parent in all)
      requires (victim.left != null ==> victim.left in all) && (victim.right != null ==> victim.right in all)
      requires AllDiffer(victim, victim.left, victim.right, victim.parent, null, null)
      modifies this`root, new_`parent, new_`color, new_`left, new_`right, all`parent, all`left, all`right
      ensures NodeReplaced(old(Snap(all)), Snap(all + {new_}), victim, new_)
      ensures root == if old(victim.parent) == null then new_ else old(root)
    {
      var parent := victim.parent;
      new_.parent, new_.color, new_.left, new_.right := victim.parent, victim.color, victim.left, victim.right;
      if victim.left != null {
        victim.left.parent := new_;
      }
      if victim.right != null {
        victim.right.parent := new_;
      }
      ChangeChild(victim, new_, parent);
    }
  }
}
