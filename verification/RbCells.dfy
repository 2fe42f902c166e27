/**
 The link from node objects to shapes.

 `Snap` takes the link fields of a set of nodes as one value, and `TreeAt` says
 that these fields spell out a given shape. The rewiring lemmas below then say,
 about two such values, what each group of pointer writes of `hev-rbtree.c`
 does to the shape.
 */
module RbCells {
  import opened RbShape

  /** `HevRBTreeNode`, with `__parent_color` as two fields; `key` orders the record that embeds the node. */
  class Node {
    var key: int
    var parent: Node?
    var color: Color
    var left: Node?
    var right: Node?

    constructor (key: int)
      ensures this.key == key && parent == null && left == null && right == null && color == Red
    {
      this.key := key;
      parent, left, right, color := null, null, null, Red;
    }

    /** `hev_rbtree_node_empty`: the parent-and-colour word equals the node's own address. */
    predicate Empty()
      reads this
    {
      parent == this && color == Red
    }
  }

  datatype Cell = Cell(parent: Node?, color: Color, left: Node?, right: Node?)

  type Cells = map<Node, Cell>

  ghost function Snap(s: set<Node>): (m: Cells)
    reads s`parent, s`color, s`left, s`right
  {
    map n | n in s :: Cell(n.parent, n.color, n.left, n.right)
  }

  lemma SnapCell(s: set<Node>)
    ensures Snap(s).Keys == s
    ensures forall n :: n in s ==> Snap(s)[n] == Cell(n.parent, n.color, n.left, n.right)
  {
  }

  lemma SnapAt(s: set<Node>, n: Node)
    ensures Snap(s).Keys == s
    ensures n in s ==> Snap(s)[n] == Cell(n.parent, n.color, n.left, n.right)
  {
  }

  ghost function Root(t: Shape<Node>): Node? {
    if t.Nil? then null else t.node
  }

  ghost function HoleParent(c: Path<Node>, base: Node?): Node? {
    if c.Top? then base else c.node
  }

  function FirstOf(s: seq<Node>): Node? {
    if s == [] then null else s[0]
  }

  function LastOf(s: seq<Node>): Node? {
    if s == [] then null else s[|s| - 1]
  }

  /** What follows, and what precedes, the first (last) occurrence of `n`. */
  ghost function NextIn(s: seq<Node>, n: Node): Node? {
    if s == [] then null else if s[0] == n then FirstOf(s[1..]) else NextIn(s[1..], n)
  }

  ghost function PrevIn(s: seq<Node>, n: Node): Node? {
    if s == [] then null else if s[|s| - 1] == n then LastOf(s[..|s| - 1]) else PrevIn(s[..|s| - 1], n)
  }

  lemma {:induction false} NextOnce(a: seq<Node>, n: Node, b: seq<Node>)
    requires NoRepeat(a + [n] + b)
    ensures NextIn(a + [n] + b, n) == FirstOf(b)
  {
    var s := a + [n] + b;
    if a == [] {
      assert s[1..] == b;
    } else {
      assert s[|a|] == n && s[1..] == a[1..] + [n] + b;
      NextOnce(a[1..], n, b);
    }
  }

  lemma {:induction false} PrevOnce(a: seq<Node>, n: Node, b: seq<Node>)
    requires NoRepeat(a + [n] + b)
    ensures PrevIn(a + [n] + b, n) == LastOf(a)
  {
    var s := a + [n] + b;
    if b == [] {
      assert s[..|s| - 1] == a;
    } else {
      assert s[|a|] == n && s[..|s| - 1] == a + [n] + b[..|b| - 1];
      PrevOnce(a, n, b[..|b| - 1]);
    }
  }

  /** The fields spell out `t`, hanging below `p`. */
  ghost predicate TreeAt(m: Cells, t: Shape<Node>, p: Node?) {
    match t
    case Nil => true
    case Fork(l, n, col, r) =>
      n in m && m[n] == Cell(p, col, Root(l), Root(r)) && TreeAt(m, l, n) && TreeAt(m, r, n)
  }

  /** The fields spell out the path `c` below `base`, with `x` linked in its hole. */
  ghost predicate PathAt(m: Cells, c: Path<Node>, base: Node?, x: Node?) {
    match c
    case Top => true
    case LeftOf(up, n, col, s) =>
      && n in m && m[n] == Cell(HoleParent(up, base), col, x, Root(s))
      && TreeAt(m, s, n) && PathAt(m, up, base, n)
    case RightOf(up, n, col, s) =>
      && n in m && m[n] == Cell(HoleParent(up, base), col, Root(s), x)
      && TreeAt(m, s, n) && PathAt(m, up, base, n)
  }

  /** The fields spell out the whole tree `t`, each node once. */
  ghost predicate Held(m: Cells, t: Shape<Node>) {
    TreeAt(m, t, null) && Distinct(t)
  }

  ghost predicate CellIs(m: Cells, n: Node, p: Node?, col: Color, l: Node?, r: Node?) {
    n in m && m[n] == Cell(p, col, l, r)
  }

  /** The root of `t`, if any, hangs below `p`. */
  ghost predicate Hangs(m: Cells, t: Shape<Node>, p: Node?) {
    t.Fork? ==> t.node in m && m[t.node].parent == p && m[t.node].color == t.color
  }

  /** Of the two links of the node above the hole, just the one into the hole leads to `x`. */
  ghost predicate HoleHolds(m: Cells, c: Path<Node>, x: Node) {
    !c.Top? ==> c.node in m && (if c.LeftOf? then m[c.node].left == x else m[c.node].right == x && m[c.node].left != x)
  }

  lemma {:induction false} PlugAt(m: Cells, c: Path<Node>, t: Shape<Node>, base: Node?)
    ensures TreeAt(m, Plug(c, t), base) <==> PathAt(m, c, base, Root(t)) && TreeAt(m, t, HoleParent(c, base))
  {
    match c
    case Top =>
    case LeftOf(up, n, col, s) => PlugAt(m, up, Fork(t, n, col, s), base);
    case RightOf(up, n, col, s) => PlugAt(m, up, Fork(s, n, col, t), base);
  }

  lemma {:induction false} PlugRoot(c: Path<Node>, t: Shape<Node>, u: Shape<Node>)
    ensures !c.Top? || Root(t) == Root(u) ==> Root(Plug(c, t)) == Root(Plug(c, u))
    ensures c.Top? ==> Plug(c, u) == u
  {
    match c
    case Top =>
    case LeftOf(up, n, col, s) => PlugRoot(up, Fork(t, n, col, s), Fork(u, n, col, s));
    case RightOf(up, n, col, s) => PlugRoot(up, Fork(s, n, col, t), Fork(s, n, col, u));
  }

  ghost predicate Agree(m: Cells, w: Cells, s: set<Node>) {
    forall n :: n in s && n in m ==> n in w && w[n] == m[n]
  }

  /** The root of `t`, if any, now hangs below `p` with colour `col`. */
  ghost predicate Moved(m: Cells, w: Cells, t: Shape<Node>, p: Node?, col: Color) {
    t.Fork? && t.node in m ==> t.node in w && w[t.node] == m[t.node].(parent := p, color := col)
  }

  lemma {:induction false} TreeKept(m: Cells, w: Cells, t: Shape<Node>, p: Node?)
    requires TreeAt(m, t, p) && Agree(m, w, Nodes(t))
    ensures TreeAt(w, t, p)
  {
    match t
    case Nil =>
    case Fork(l, n, _, r) => TreeKept(m, w, l, n); TreeKept(m, w, r, n);
  }

  lemma TreeMoved(m: Cells, w: Cells, t: Shape<Node>, p: Node?, q: Node?, col: Color)
    requires TreeAt(m, t, p) && Distinct(t)
    requires Agree(m, w, Nodes(t) - {Root(t)}) && Moved(m, w, t, q, col)
    ensures TreeAt(w, Recolored(t, col), q)
  {
    if t.Fork? {
      TreeKept(m, w, t.left, t.node);
      TreeKept(m, w, t.right, t.node);
    }
  }

  /** Only the link into the hole of `c` changed. */
  ghost predicate Relinked(m: Cells, w: Cells, c: Path<Node>, y: Node?) {
    !c.Top? && c.node in m ==>
      c.node in w &&
      w[c.node] == if c.LeftOf? then m[c.node].(left := y) else m[c.node].(right := y)
  }

  lemma {:induction false} PathKept(m: Cells, w: Cells, c: Path<Node>, base: Node?, x: Node?, y: Node?)
    requires PathAt(m, c, base, x) && PathDistinct(c)
    requires Agree(m, w, PathNodes(c) - {HoleParent(c, base)}) && Relinked(m, w, c, y)
    ensures PathAt(w, c, base, y)
  {
    if !c.Top? {
      TreeKept(m, w, c.sibling, c.node);
      PathKept(m, w, c.up, base, c.node, c.node);
    }
  }

  // ---------- One constructor at a time, for proofs that hide the definitions ----------

  lemma ForkAt(m: Cells, l: Shape<Node>, n: Node, col: Color, r: Shape<Node>, p: Node?)
    ensures TreeAt(m, Fork(l, n, col, r), p) <==>
            n in m && m[n] == Cell(p, col, Root(l), Root(r)) && TreeAt(m, l, n) && TreeAt(m, r, n)
  {
  }

  lemma RootAt(m: Cells, t: Shape<Node>, p: Node?)
    requires TreeAt(m, t, p)
    ensures Hangs(m, t, p)
  {
  }

  lemma ForkNodes(l: Shape<Node>, n: Node, col: Color, r: Shape<Node>)
    ensures Nodes(Fork(l, n, col, r)) == {n} + Nodes(l) + Nodes(r)
    ensures Distinct(Fork(l, n, col, r)) <==>
            Distinct(l) && Distinct(r) && n !in Nodes(l) && n !in Nodes(r) && Nodes(l) !! Nodes(r)
  {
  }

  lemma RootIn(t: Shape<Node>)
    ensures t.Fork? ==> t.node in Nodes(t)
  {
  }

  lemma TopHole(t: Shape<Node>)
    ensures Plug(Top, t) == t
  {
  }

  lemma HoleIn(c: Path<Node>)
    ensures !c.Top? ==> c.node in PathNodes(c)
  {
  }

  /** The hole's link is the only one of its parent that leads to the subtree in the hole. */
  lemma HoleAt(m: Cells, c: Path<Node>, base: Node?, x: Node)
    requires PathAt(m, c, base, x) && x !in PathNodes(c)
    ensures HoleHolds(m, c, x)
  {
    if !c.Top? { RootIn(c.sibling); }
  }

  // ---------- What a group of writes leaves alone ----------

  /** The cells of all nodes but these six are kept. */
  ghost predicate Untouched(m: Cells, w: Cells, p: Node?, q: Node?, r: Node?, x: Node?, y: Node?, z: Node?) {
    forall n :: n in m && n != p && n != q && n != r && n != x && n != y && n != z ==> n in w && w[n] == m[n]
  }

  ghost predicate Clear(s: set<Node>, p: Node?, q: Node?, r: Node?, x: Node?, y: Node?, z: Node?) {
    p !in s && q !in s && r !in s && x !in s && y !in s && z !in s
  }

  ghost predicate AllDiffer(p: Node?, q: Node?, r: Node?, x: Node?, y: Node?, z: Node?) {
    && (p != null ==> p != q && p != r && p != x && p != y && p != z)
    && (q != null ==> q != r && q != x && q != y && q != z)
    && (r != null ==> r != x && r != y && r != z)
    && (x != null ==> x != y && x != z)
    && (y != null ==> y != z)
  }

  lemma ClearAgree(m: Cells, w: Cells, s: set<Node>, p: Node?, q: Node?, r: Node?, x: Node?, y: Node?, z: Node?)
    requires Untouched(m, w, p, q, r, x, y, z) && Clear(s, p, q, r, x, y, z)
    ensures Agree(m, w, s)
  {
  }

  ghost predicate SameCell(m: Cells, w: Cells, n: Node?) {
    n != null && n in m ==> n in w && w[n] == m[n]
  }

  lemma DifferParts(p: Node?, n: Node?, g: Node?, h: Node?, y: Node?, z: Node?)
    requires AllDiffer(p, n, g, h, y, z)
    ensures AllDiffer(p, n, y, null, null, null) && AllDiffer(n, g, h, z, null, null)
  {
  }

  lemma DifferPivot(p: Node?, g: Node?, h: Node?, x: Node?, y: Node?)
    requires AllDiffer(p, g, h, x, y, null)
    ensures AllDiffer(p, g, h, y, null, null)
  {
  }

  /** Two groups of writes after each other: the first touches p, n, y and the second n, g, h, z. */
  lemma TwoSteps(m: Cells, v: Cells, w: Cells, p: Node?, n: Node?, g: Node?, h: Node?, y: Node?, z: Node?)
    requires Untouched(m, v, p, n, y, null, null, null) && Untouched(v, w, n, g, h, z, null, null)
    requires AllDiffer(p, n, g, h, y, z)
    ensures SameCell(v, w, p) && SameCell(v, w, y) && SameCell(m, v, g) && SameCell(m, v, h) && SameCell(m, v, z)
    ensures Untouched(m, w, p, n, g, h, y, z)
  {
  }

  // ---------- Rotations ----------

  lemma ClearRight(c: Path<Node>, a: Shape<Node>, p: Node, b: Shape<Node>, g: Node, d: Shape<Node>, pc: Color, gc: Color)
    requires Distinct(Plug(c, Fork(Fork(a, p, pc, b), g, gc, d)))
    ensures PathDistinct(c) && g !in PathNodes(c) && Distinct(a) && Distinct(b) && Distinct(d)
    ensures var h := HoleParent(c, null);
            && AllDiffer(p, g, h, Root(a), Root(b), null)
            && Clear(Nodes(a) - {Root(a)}, p, g, h, Root(a), Root(b), null)
            && Clear(Nodes(b) - {Root(b)}, p, g, h, Root(a), Root(b), null)
            && Clear(Nodes(d), p, g, h, Root(a), Root(b), null)
            && Clear(PathNodes(c) - {h}, p, g, h, Root(a), Root(b), null)
  {
    hide Nodes, PathNodes, Distinct, PathDistinct, Plug;
    PlugNodes(c, Fork(Fork(a, p, pc, b), g, gc, d));
    ForkNodes(Fork(a, p, pc, b), g, gc, d);
    ForkNodes(a, p, pc, b);
    RootIn(a);
    RootIn(b);
    HoleIn(c);
  }

  /** ((a p b) g d) becomes (a p (b g d)), in the given colours. */
  lemma RotatedRight(m: Cells, w: Cells, c: Path<Node>, a: Shape<Node>, p: Node, b: Shape<Node>, g: Node, d: Shape<Node>,
                     pc: Color, gc: Color, pc': Color, gc': Color, ac: Color, bc: Color)
    requires Held(m, Plug(c, Fork(Fork(a, p, pc, b), g, gc, d)))
    requires Untouched(m, w, p, g, HoleParent(c, null), Root(a), Root(b), null)
    requires p in w && w[p] == Cell(HoleParent(c, null), pc', Root(a), g)
    requires g in w && w[g] == Cell(p, gc', Root(b), Root(d))
    requires Moved(m, w, a, p, ac) && Moved(m, w, b, g, bc) && Relinked(m, w, c, p)
    ensures TreeAt(w, Plug(c, Fork(Recolored(a, ac), p, pc', Fork(Recolored(b, bc), g, gc', d))), null)
  {
    hide TreeAt, PathAt, Nodes, PathNodes, Distinct, PathDistinct, Plug, Untouched, Clear;
    var t: Shape<Node> := Fork(Fork(a, p, pc, b), g, gc, d);
    var u: Shape<Node> := Fork(Recolored(a, ac), p, pc', Fork(Recolored(b, bc), g, gc', d));
    var h := HoleParent(c, null);
    ClearRight(c, a, p, b, g, d, pc, gc);
    PlugAt(m, c, t, null);
    ForkAt(m, Fork(a, p, pc, b), g, gc, d, h);
    ForkAt(m, a, p, pc, b, g);
    ClearAgree(m, w, Nodes(a) - {Root(a)}, p, g, h, Root(a), Root(b), null);
    TreeMoved(m, w, a, p, p, ac);
    ClearAgree(m, w, Nodes(b) - {Root(b)}, p, g, h, Root(a), Root(b), null);
    TreeMoved(m, w, b, p, g, bc);
    ClearAgree(m, w, Nodes(d), p, g, h, Root(a), Root(b), null);
    TreeKept(m, w, d, g);
    ForkAt(w, Recolored(b, bc), g, gc', d, p);
    ForkAt(w, Recolored(a, ac), p, pc', u.right, h);
    ClearAgree(m, w, PathNodes(c) - {h}, p, g, h, Root(a), Root(b), null);
    PathKept(m, w, c, null, g, p);
    PlugAt(w, c, u, null);
  }

  lemma ClearLeft(c: Path<Node>, a: Shape<Node>, p: Node, b: Shape<Node>, g: Node, d: Shape<Node>, pc: Color, gc: Color)
    requires Distinct(Plug(c, Fork(d, g, gc, Fork(b, p, pc, a))))
    ensures PathDistinct(c) && g !in PathNodes(c) && Distinct(a) && Distinct(b) && Distinct(d)
    ensures var h := HoleParent(c, null);
            && AllDiffer(p, g, h, Root(a), Root(b), null)
            && Clear(Nodes(a) - {Root(a)}, p, g, h, Root(a), Root(b), null)
            && Clear(Nodes(b) - {Root(b)}, p, g, h, Root(a), Root(b), null)
            && Clear(Nodes(d), p, g, h, Root(a), Root(b), null)
            && Clear(PathNodes(c) - {h}, p, g, h, Root(a), Root(b), null)
  {
    hide Nodes, PathNodes, Distinct, PathDistinct, Plug;
    PlugNodes(c, Fork(d, g, gc, Fork(b, p, pc, a)));
    ForkNodes(d, g, gc, Fork(b, p, pc, a));
    ForkNodes(b, p, pc, a);
    RootIn(a);
    RootIn(b);
    HoleIn(c);
  }

  /** (d g (b p a)) becomes ((d g b) p a), in the given colours. */
  lemma RotatedLeft(m: Cells, w: Cells, c: Path<Node>, a: Shape<Node>, p: Node, b: Shape<Node>, g: Node, d: Shape<Node>,
                     pc: Color, gc: Color, pc': Color, gc': Color, ac: Color, bc: Color)
    requires Held(m, Plug(c, Fork(d, g, gc, Fork(b, p, pc, a))))
    requires Untouched(m, w, p, g, HoleParent(c, null), Root(a), Root(b), null)
    requires p in w && w[p] == Cell(HoleParent(c, null), pc', g, Root(a))
    requires g in w && w[g] == Cell(p, gc', Root(d), Root(b))
    requires Moved(m, w, a, p, ac) && Moved(m, w, b, g, bc) && Relinked(m, w, c, p)
    ensures TreeAt(w, Plug(c, Fork(Fork(d, g, gc', Recolored(b, bc)), p, pc', Recolored(a, ac))), null)
  {
    hide TreeAt, PathAt, Nodes, PathNodes, Distinct, PathDistinct, Plug, Untouched, Clear;
    var t: Shape<Node> := Fork(d, g, gc, Fork(b, p, pc, a));
    var u: Shape<Node> := Fork(Fork(d, g, gc', Recolored(b, bc)), p, pc', Recolored(a, ac));
    var h := HoleParent(c, null);
    ClearLeft(c, a, p, b, g, d, pc, gc);
    PlugAt(m, c, t, null);
    ForkAt(m, d, g, gc, Fork(b, p, pc, a), h);
    ForkAt(m, b, p, pc, a, g);
    ClearAgree(m, w, Nodes(a) - {Root(a)}, p, g, h, Root(a), Root(b), null);
    TreeMoved(m, w, a, p, p, ac);
    ClearAgree(m, w, Nodes(b) - {Root(b)}, p, g, h, Root(a), Root(b), null);
    TreeMoved(m, w, b, p, g, bc);
    ClearAgree(m, w, Nodes(d), p, g, h, Root(a), Root(b), null);
    TreeKept(m, w, d, g);
    ForkAt(w, d, g, gc', Recolored(b, bc), p);
    ForkAt(w, u.left, p, pc', Recolored(a, ac), h);
    ClearAgree(m, w, PathNodes(c) - {h}, p, g, h, Root(a), Root(b), null);
    PathKept(m, w, c, null, g, p);
    PlugAt(w, c, u, null);
  }

  lemma ClearDoubleRight(c: Path<Node>, a: Shape<Node>, p: Node, b: Shape<Node>, n: Node, d: Shape<Node>, g: Node, e: Shape<Node>,
                         pc: Color, nc: Color, gc: Color)
    requires Distinct(Plug(c, Fork(Fork(a, p, pc, Fork(b, n, nc, d)), g, gc, e)))
    ensures PathDistinct(c) && g !in PathNodes(c) && Distinct(a) && Distinct(b) && Distinct(d) && Distinct(e)
    ensures var h := HoleParent(c, null);
            && AllDiffer(p, n, g, h, Root(b), Root(d))
            && Clear(Nodes(a), p, n, g, h, Root(b), Root(d))
            && Clear(Nodes(b) - {Root(b)}, p, n, g, h, Root(b), Root(d))
            && Clear(Nodes(d) - {Root(d)}, p, n, g, h, Root(b), Root(d))
            && Clear(Nodes(e), p, n, g, h, Root(b), Root(d))
            && Clear(PathNodes(c) - {h}, p, n, g, h, Root(b), Root(d))
  {
    hide Nodes, PathNodes, Distinct, PathDistinct, Plug;
    var s: Shape<Node> := Fork(b, n, nc, d);
    PlugNodes(c, Fork(Fork(a, p, pc, Fork(b, n, nc, d)), g, gc, e));
    ForkNodes(Fork(a, p, pc, s), g, gc, e);
    ForkNodes(a, p, pc, s);
    ForkNodes(b, n, nc, d);
    RootIn(b);
    RootIn(d);
    HoleIn(c);
  }

  /** ((a p (b n d)) g e) becomes ((a p b) n (d g e)), in the given colours. */
  lemma DoubleRotatedRight(m: Cells, w: Cells, c: Path<Node>, a: Shape<Node>, p: Node, b: Shape<Node>, n: Node, d: Shape<Node>,
                           g: Node, e: Shape<Node>, pc: Color, nc: Color, gc: Color, pc': Color, nc': Color, gc': Color,
                           bc: Color, dc: Color)
    requires Held(m, Plug(c, Fork(Fork(a, p, pc, Fork(b, n, nc, d)), g, gc, e)))
    requires Untouched(m, w, p, n, g, HoleParent(c, null), Root(b), Root(d))
    requires p in w && w[p] == Cell(n, pc', Root(a), Root(b))
    requires n in w && w[n] == Cell(HoleParent(c, null), nc', p, g)
    requires g in w && w[g] == Cell(n, gc', Root(d), Root(e))
    requires Moved(m, w, b, p, bc) && Moved(m, w, d, g, dc) && Relinked(m, w, c, n)
    ensures TreeAt(w, Plug(c, Fork(Fork(a, p, pc', Recolored(b, bc)), n, nc', Fork(Recolored(d, dc), g, gc', e))), null)
  {
    hide TreeAt, PathAt, Nodes, PathNodes, Distinct, PathDistinct, Plug, Untouched, Clear;
    var s: Shape<Node> := Fork(b, n, nc, d);
    var t: Shape<Node> := Fork(Fork(a, p, pc, Fork(b, n, nc, d)), g, gc, e);
    var u: Shape<Node> := Fork(Fork(a, p, pc', Recolored(b, bc)), n, nc', Fork(Recolored(d, dc), g, gc', e));
    var h := HoleParent(c, null);
    ClearDoubleRight(c, a, p, b, n, d, g, e, pc, nc, gc);
    PlugAt(m, c, t, null);
    ForkAt(m, Fork(a, p, pc, s), g, gc, e, h);
    ForkAt(m, a, p, pc, s, g);
    ForkAt(m, b, n, nc, d, p);
    ClearAgree(m, w, Nodes(a), p, n, g, h, Root(b), Root(d));
    TreeKept(m, w, a, p);
    ClearAgree(m, w, Nodes(b) - {Root(b)}, p, n, g, h, Root(b), Root(d));
    TreeMoved(m, w, b, n, p, bc);
    ClearAgree(m, w, Nodes(d) - {Root(d)}, p, n, g, h, Root(b), Root(d));
    TreeMoved(m, w, d, n, g, dc);
    ClearAgree(m, w, Nodes(e), p, n, g, h, Root(b), Root(d));
    TreeKept(m, w, e, g);
    ForkAt(w, Recolored(d, dc), g, gc', e, n);
    ForkAt(w, a, p, pc', Recolored(b, bc), n);
    ForkAt(w, u.left, n, nc', u.right, h);
    ClearAgree(m, w, PathNodes(c) - {h}, p, n, g, h, Root(b), Root(d));
    PathKept(m, w, c, null, g, n);
    PlugAt(w, c, u, null);
  }

  lemma ClearDoubleLeft(c: Path<Node>, a: Shape<Node>, p: Node, b: Shape<Node>, n: Node, d: Shape<Node>, g: Node, e: Shape<Node>,
                         pc: Color, nc: Color, gc: Color)
    requires Distinct(Plug(c, Fork(e, g, gc, Fork(Fork(d, n, nc, b), p, pc, a))))
    ensures PathDistinct(c) && g !in PathNodes(c) && Distinct(a) && Distinct(b) && Distinct(d) && Distinct(e)
    ensures var h := HoleParent(c, null);
            && AllDiffer(p, n, g, h, Root(b), Root(d))
            && Clear(Nodes(a), p, n, g, h, Root(b), Root(d))
            && Clear(Nodes(b) - {Root(b)}, p, n, g, h, Root(b), Root(d))
            && Clear(Nodes(d) - {Root(d)}, p, n, g, h, Root(b), Root(d))
            && Clear(Nodes(e), p, n, g, h, Root(b), Root(d))
            && Clear(PathNodes(c) - {h}, p, n, g, h, Root(b), Root(d))
  {
    hide Nodes, PathNodes, Distinct, PathDistinct, Plug;
    var s: Shape<Node> := Fork(d, n, nc, b);
    PlugNodes(c, Fork(e, g, gc, Fork(Fork(d, n, nc, b), p, pc, a)));
    ForkNodes(e, g, gc, Fork(s, p, pc, a));
    ForkNodes(s, p, pc, a);
    ForkNodes(d, n, nc, b);
    RootIn(b);
    RootIn(d);
    HoleIn(c);
  }

  /** (e g ((d n b) p a)) becomes ((e g d) n (b p a)), in the given colours. */
  lemma DoubleRotatedLeft(m: Cells, w: Cells, c: Path<Node>, a: Shape<Node>, p: Node, b: Shape<Node>, n: Node, d: Shape<Node>,
                           g: Node, e: Shape<Node>, pc: Color, nc: Color, gc: Color, pc': Color, nc': Color, gc': Color,
                           bc: Color, dc: Color)
    requires Held(m, Plug(c, Fork(e, g, gc, Fork(Fork(d, n, nc, b), p, pc, a))))
    requires Untouched(m, w, p, n, g, HoleParent(c, null), Root(b), Root(d))
    requires p in w && w[p] == Cell(n, pc', Root(b), Root(a))
    requires n in w && w[n] == Cell(HoleParent(c, null), nc', g, p)
    requires g in w && w[g] == Cell(n, gc', Root(e), Root(d))
    requires Moved(m, w, b, p, bc) && Moved(m, w, d, g, dc) && Relinked(m, w, c, n)
    ensures TreeAt(w, Plug(c, Fork(Fork(e, g, gc', Recolored(d, dc)), n, nc', Fork(Recolored(b, bc), p, pc', a))), null)
  {
    hide TreeAt, PathAt, Nodes, PathNodes, Distinct, PathDistinct, Plug, Untouched, Clear;
    var s: Shape<Node> := Fork(d, n, nc, b);
    var t: Shape<Node> := Fork(e, g, gc, Fork(Fork(d, n, nc, b), p, pc, a));
    var u: Shape<Node> := Fork(Fork(e, g, gc', Recolored(d, dc)), n, nc', Fork(Recolored(b, bc), p, pc', a));
    var h := HoleParent(c, null);
    ClearDoubleLeft(c, a, p, b, n, d, g, e, pc, nc, gc);
    PlugAt(m, c, t, null);
    ForkAt(m, e, g, gc, Fork(s, p, pc, a), h);
    ForkAt(m, s, p, pc, a, g);
    ForkAt(m, d, n, nc, b, p);
    ClearAgree(m, w, Nodes(a), p, n, g, h, Root(b), Root(d));
    TreeKept(m, w, a, p);
    ClearAgree(m, w, Nodes(b) - {Root(b)}, p, n, g, h, Root(b), Root(d));
    TreeMoved(m, w, b, n, p, bc);
    ClearAgree(m, w, Nodes(d) - {Root(d)}, p, n, g, h, Root(b), Root(d));
    TreeMoved(m, w, d, n, g, dc);
    ClearAgree(m, w, Nodes(e), p, n, g, h, Root(b), Root(d));
    TreeKept(m, w, e, g);
    ForkAt(w, e, g, gc', Recolored(d, dc), n);
    ForkAt(w, Recolored(b, bc), p, pc', a, n);
    ForkAt(w, u.left, n, nc', u.right, h);
    ClearAgree(m, w, PathNodes(c) - {h}, p, n, g, h, Root(b), Root(d));
    PathKept(m, w, c, null, g, n);
    PlugAt(w, c, u, null);
  }

  // ---------- Recolouring ----------

  lemma ForkReady(m: Cells, c: Path<Node>, x: Shape<Node>, g: Node, gc: Color, y: Shape<Node>)
    requires Held(m, Plug(c, Fork(x, g, gc, y)))
    ensures CellIs(m, g, HoleParent(c, null), gc, Root(x), Root(y)) && Hangs(m, x, g) && Hangs(m, y, g)
    ensures AllDiffer(g, Root(x), Root(y), HoleParent(c, null), null, null)
  {
    hide TreeAt, PathAt, Nodes, PathNodes, Distinct, PathDistinct, Plug;
    var t: Shape<Node> := Fork(x, g, gc, y);
    PlugAt(m, c, t, null);
    ForkAt(m, x, g, gc, y, HoleParent(c, null));
    RootAt(m, x, g);
    RootAt(m, y, g);
    PlugNodes(c, t);
    ForkNodes(x, g, gc, y);
    RootIn(x);
    RootIn(y);
    HoleIn(c);
  }

  /** The fields around a hole: the subtree in it, the node above it and the sibling. */
  lemma Neighbours(m: Cells, c: Path<Node>, t: Shape<Node>)
    requires TreeAt(m, Plug(c, t), null) && Distinct(Plug(c, t))
    ensures t.Fork? ==> t.node in m && m[t.node] == Cell(HoleParent(c, null), t.color, Root(t.left), Root(t.right))
    ensures !c.Top? ==>
              && c.node in m && m[c.node].color == c.color && m[c.node].parent == HoleParent(c.up, null)
              && (if c.LeftOf? then m[c.node].left == Root(t) && m[c.node].right == Root(c.sibling)
                  else m[c.node].right == Root(t) && m[c.node].left == Root(c.sibling))
              && (c.sibling.Fork? ==> c.sibling.node in m && m[c.sibling.node].color == c.sibling.color && c.sibling.node != Root(t))
  {
    hide PathAt, Nodes, PathNodes, Distinct, PathDistinct, Plug;
    PlugAt(m, c, t, null);
    assert !c.Top? ==> Plug(c, t) == Plug(c.up, Joined(c, t));
    if c.LeftOf? {
      ForkReady(m, c.up, t, c.node, c.color, c.sibling);
    } else if c.RightOf? {
      ForkReady(m, c.up, c.sibling, c.node, c.color, t);
    }
  }

  /** The fields of the sibling of a hole and of its children. */
  lemma SiblingReady(m: Cells, c: Path<Node>, t: Shape<Node>)
    requires Held(m, Plug(c, t)) && !c.Top? && c.sibling.Fork?
    ensures var s := c.sibling;
            CellIs(m, s.node, c.node, s.color, Root(s.left), Root(s.right)) && Hangs(m, s.left, s.node) && Hangs(m, s.right, s.node)
  {
    hide PathAt, Nodes, PathNodes, Distinct, PathDistinct, Plug, TreeAt;
    var s := c.sibling;
    assert Plug(c, t) == Plug(c.up, Joined(c, t));
    var d := if c.LeftOf? then RightOf(c.up, c.node, c.color, t) else LeftOf(c.up, c.node, c.color, t);
    assert Plug(d, s) == Plug(d.up, Joined(d, s));
    ForkReady(m, d, s.left, s.node, s.color, s.right);
  }

  /** New colours for `g` and the roots of its subtrees, no link changed. */
  lemma Repainted(m: Cells, w: Cells, c: Path<Node>, x: Shape<Node>, g: Node, y: Shape<Node>,
                  gc: Color, xc: Color, gc': Color, yc: Color)
    requires Held(m, Plug(c, Fork(x, g, gc, y)))
    requires Untouched(m, w, g, Root(x), Root(y), null, null, null)
    requires g in w && g in m && w[g] == m[g].(color := gc')
    requires Moved(m, w, x, g, xc) && Moved(m, w, y, g, yc)
    ensures TreeAt(w, Plug(c, Fork(Recolored(x, xc), g, gc', Recolored(y, yc))), null)
  {
    hide TreeAt, PathAt, Nodes, PathNodes, Distinct, PathDistinct, Plug;
    var t: Shape<Node> := Fork(x, g, gc, y);
    var u: Shape<Node> := Fork(Recolored(x, xc), g, gc', Recolored(y, yc));
    var h := HoleParent(c, null);
    PlugNodes(c, t);
    ForkNodes(x, g, gc, y);
    RootIn(x);
    RootIn(y);
    HoleIn(c);
    PlugAt(m, c, t, null);
    ForkAt(m, x, g, gc, y, h);
    TreeMoved(m, w, x, g, g, xc);
    TreeMoved(m, w, y, g, g, yc);
    ForkAt(w, Recolored(x, xc), g, gc', Recolored(y, yc), h);
    HoleAt(m, c, null, g);
    PathKept(m, w, c, null, g, g);
    PlugAt(w, c, u, null);
  }

  /** A subtree replaced by one with the same in-order sequence: what that keeps. */
  lemma Reshaped(c: Path<Node>, x: Shape<Node>, y: Shape<Node>)
    requires Distinct(Plug(c, x)) && Inorder(x) == Inorder(y)
    ensures Inorder(Plug(c, y)) == Inorder(Plug(c, x)) && Nodes(Plug(c, y)) == Nodes(Plug(c, x))
    ensures Distinct(Plug(c, y))
    ensures Root(Plug(c, y)) == if c.Top? then Root(y) else Root(Plug(c, x))
    ensures c.Top? ==> Plug(c, x) == x
  {
    PlugInorder(c, x);
    PlugInorder(c, y);
    SameOrder(Plug(c, x), Plug(c, y));
    PlugRoot(c, x, y);
  }

  // ---------- Groups of writes ----------

  ghost predicate TuckReady(m: Cells, node: Node, parent: Node, tmp: Node?) {
    node in m && parent in m && (tmp != null ==> tmp in m) && AllDiffer(parent, node, tmp, null, null, null)
  }

  ghost predicate PivotReady(m: Cells, g: Node, p: Node, tmp: Node?) {
    && g in m && p in m && (tmp != null ==> tmp in m) && (m[g].parent != null ==> m[g].parent in m)
    && AllDiffer(p, g, m[g].parent, tmp, null, null)
  }

  /** What a right rotation writes: `p`, the left child of `g`, takes the place of `g`. */
  ghost predicate PivotedRight(m: Cells, w: Cells, g: Node, p: Node, tmp: Node?, color: Color, paint: bool) {
    && PivotReady(m, g, p, tmp) && w.Keys == m.Keys
    && var h := m[g].parent;
    && w[p] == Cell(m[g].parent, m[g].color, m[p].left, g)
    && w[g] == Cell(p, color, tmp, m[g].right)
    && (tmp != null ==> w[tmp] == m[tmp].(parent := g, color := if paint then Black else m[tmp].color))
    && (h != null ==> w[h] == if m[h].left == g then m[h].(left := p) else m[h].(right := p))
    && Untouched(m, w, p, g, h, tmp, null, null)
  }

  /** What a left rotation writes: `p`, the right child of `g`, takes the place of `g`. */
  ghost predicate PivotedLeft(m: Cells, w: Cells, g: Node, p: Node, tmp: Node?, color: Color, paint: bool) {
    && PivotReady(m, g, p, tmp) && w.Keys == m.Keys
    && var h := m[g].parent;
    && w[p] == Cell(m[g].parent, m[g].color, g, m[p].right)
    && w[g] == Cell(p, color, m[g].left, tmp)
    && (tmp != null ==> w[tmp] == m[tmp].(parent := g, color := if paint then Black else m[tmp].color))
    && (h != null ==> w[h] == if m[h].left == g then m[h].(left := p) else m[h].(right := p))
    && Untouched(m, w, p, g, h, tmp, null, null)
  }

  /** What the first half of a double rotation writes: `node`, the right child of `parent`, moves above it. */
  ghost predicate TuckedLeft(m: Cells, w: Cells, node: Node, parent: Node, color: Color)
    requires node in m
  {
    && TuckReady(m, node, parent, m[node].left) && w.Keys == m.Keys
    && var tmp := m[node].left;
    && w[parent] == Cell(node, color, m[parent].left, m[node].left)
    && w[node] == m[node].(left := parent)
    && (tmp != null ==> w[tmp] == m[tmp].(parent := parent, color := Black))
    && Untouched(m, w, parent, node, tmp, null, null, null)
  }

  /** What the first half of a double rotation writes: `node`, the left child of `parent`, moves above it. */
  ghost predicate TuckedRight(m: Cells, w: Cells, node: Node, parent: Node, color: Color)
    requires node in m
  {
    && TuckReady(m, node, parent, m[node].right) && w.Keys == m.Keys
    && var tmp := m[node].right;
    && w[parent] == Cell(node, color, m[node].right, m[parent].right)
    && w[node] == m[node].(right := parent)
    && (tmp != null ==> w[tmp] == m[tmp].(parent := parent, color := Black))
    && Untouched(m, w, parent, node, tmp, null, null, null)
  }

  lemma TurnRightReady(m: Cells, c: Path<Node>, t: Shape<Node>, parent: Node, s: Shape<Node>, gparent: Node, u: Shape<Node>, pc: Color, gc: Color)
    requires t.Fork? && Held(m, Plug(c, Fork(Fork(t, parent, pc, s), gparent, gc, u)))
    ensures AllDiffer(parent, gparent, HoleParent(c, null), t.node, Root(s), null)
    ensures Hangs(m, t, parent) && Hangs(m, s, parent) && HoleHolds(m, c, gparent)
    ensures CellIs(m, parent, gparent, pc, Root(t), Root(s))
    ensures CellIs(m, gparent, HoleParent(c, null), gc, parent, Root(u))
    ensures PivotReady(m, gparent, parent, Root(s))
  {
    hide Nodes, PathNodes, Distinct, PathDistinct, Plug, PathAt, TreeAt, Clear;
    hide AllDiffer;
    var x: Shape<Node> := Fork(Fork(t, parent, pc, s), gparent, gc, u);
    PlugAt(m, c, x, null);
    ForkAt(m, Fork(t, parent, pc, s), gparent, gc, u, HoleParent(c, null));
    ForkAt(m, t, parent, pc, s, gparent);
    RootAt(m, s, parent);
    RootAt(m, t, parent);
    ClearRight(c, t, parent, s, gparent, u, pc, gc);
    HoleAt(m, c, null, gparent);
    DifferPivot(parent, gparent, HoleParent(c, null), t.node, Root(s));
  }

  /** The writes of a single right rotation turn ((t p s) g u) into (t p (s g u)). */
  lemma TurnRight(m: Cells, w: Cells, c: Path<Node>, t: Shape<Node>, parent: Node, s: Shape<Node>, gparent: Node, u: Shape<Node>,
                 pc: Color, gc: Color, vc: Color, paint: bool)
    requires t.Fork? && Held(m, Plug(c, Fork(Fork(t, parent, pc, s), gparent, gc, u)))
    requires (paint ==> !s.IsRed()) && PivotedRight(m, w, gparent, parent, Root(s), vc, paint)
    ensures TreeAt(w, Plug(c, Fork(t, parent, gc, Fork(s, gparent, vc, u))), null)
  {
    hide Nodes, PathNodes, Distinct, PathDistinct, Plug, PathAt, TreeAt, Clear;
    TurnRightReady(m, c, t, parent, s, gparent, u, pc, gc);
    RotatedRight(m, w, c, t, parent, s, gparent, u, pc, gc, gc, vc, t.color, if s.Nil? then Black else s.color);
  }

  lemma TurnLeftReady(m: Cells, c: Path<Node>, t: Shape<Node>, parent: Node, s: Shape<Node>, gparent: Node, u: Shape<Node>, pc: Color, gc: Color)
    requires t.Fork? && Held(m, Plug(c, Fork(u, gparent, gc, Fork(s, parent, pc, t))))
    ensures AllDiffer(parent, gparent, HoleParent(c, null), t.node, Root(s), null)
    ensures Hangs(m, t, parent) && Hangs(m, s, parent) && HoleHolds(m, c, gparent)
    ensures CellIs(m, parent, gparent, pc, Root(s), Root(t))
    ensures CellIs(m, gparent, HoleParent(c, null), gc, Root(u), parent)
    ensures PivotReady(m, gparent, parent, Root(s))
  {
    hide Nodes, PathNodes, Distinct, PathDistinct, Plug, PathAt, TreeAt, Clear;
    hide AllDiffer;
    var x: Shape<Node> := Fork(u, gparent, gc, Fork(s, parent, pc, t));
    PlugAt(m, c, x, null);
    ForkAt(m, u, gparent, gc, Fork(s, parent, pc, t), HoleParent(c, null));
    ForkAt(m, s, parent, pc, t, gparent);
    RootAt(m, s, parent);
    RootAt(m, t, parent);
    ClearLeft(c, t, parent, s, gparent, u, pc, gc);
    HoleAt(m, c, null, gparent);
    DifferPivot(parent, gparent, HoleParent(c, null), t.node, Root(s));
  }

  /** The writes of a single left rotation turn (u g (s p t)) into ((u g s) p t). */
  lemma TurnLeft(m: Cells, w: Cells, c: Path<Node>, t: Shape<Node>, parent: Node, s: Shape<Node>, gparent: Node, u: Shape<Node>,
                 pc: Color, gc: Color, vc: Color, paint: bool)
    requires t.Fork? && Held(m, Plug(c, Fork(u, gparent, gc, Fork(s, parent, pc, t))))
    requires (paint ==> !s.IsRed()) && PivotedLeft(m, w, gparent, parent, Root(s), vc, paint)
    ensures TreeAt(w, Plug(c, Fork(Fork(u, gparent, vc, s), parent, gc, t)), null)
  {
    hide Nodes, PathNodes, Distinct, PathDistinct, Plug, PathAt, TreeAt, Clear;
    TurnLeftReady(m, c, t, parent, s, gparent, u, pc, gc);
    RotatedLeft(m, w, c, t, parent, s, gparent, u, pc, gc, gc, vc, t.color, if s.Nil? then Black else s.color);
  }

  lemma DoubleTurnRightReady(m: Cells, c: Path<Node>, s: Shape<Node>, parent: Node, b: Shape<Node>, node: Node, d: Shape<Node>, gparent: Node, u: Shape<Node>,
                              pc: Color, nc: Color, gc: Color)
    requires Held(m, Plug(c, Fork(Fork(s, parent, pc, Fork(b, node, nc, d)), gparent, gc, u)))
    ensures AllDiffer(parent, node, gparent, HoleParent(c, null), Root(b), Root(d))
    ensures CellIs(m, parent, gparent, pc, Root(s), node)
    ensures CellIs(m, gparent, HoleParent(c, null), gc, parent, Root(u))
    ensures CellIs(m, node, parent, nc, Root(b), Root(d))
    ensures Hangs(m, b, node) && Hangs(m, d, node) && HoleHolds(m, c, gparent)
  {
    hide Nodes, PathNodes, Distinct, PathDistinct, Plug, PathAt, TreeAt, Clear;
    var x: Shape<Node> := Fork(Fork(s, parent, pc, Fork(b, node, nc, d)), gparent, gc, u);
    PlugAt(m, c, x, null);
    ForkAt(m, Fork(s, parent, pc, Fork(b, node, nc, d)), gparent, gc, u, HoleParent(c, null));
    ForkAt(m, s, parent, pc, Fork(b, node, nc, d), gparent);
    ForkAt(m, b, node, nc, d, parent);
    RootAt(m, b, node);
    RootAt(m, d, node);
    ClearDoubleRight(c, s, parent, b, node, d, gparent, u, pc, nc, gc);
    HoleAt(m, c, null, gparent);
  }

  lemma DoubleTurnRightFirst(m: Cells, c: Path<Node>, s: Shape<Node>, parent: Node, b: Shape<Node>, node: Node, d: Shape<Node>, gparent: Node, u: Shape<Node>,
                              pc: Color, nc: Color, gc: Color)
    requires Held(m, Plug(c, Fork(Fork(s, parent, pc, Fork(b, node, nc, d)), gparent, gc, u)))
    ensures node in m && TuckReady(m, node, parent, Root(b)) && m[node].left == Root(b)
  {
    hide Nodes, PathNodes, Distinct, PathDistinct, Plug, PathAt, TreeAt, Clear;
    hide AllDiffer;
    DoubleTurnRightReady(m, c, s, parent, b, node, d, gparent, u, pc, nc, gc);
    DifferParts(parent, node, gparent, HoleParent(c, null), Root(b), Root(d));
  }

  lemma DoubleTurnRightSecond(m: Cells, v: Cells, c: Path<Node>, s: Shape<Node>, parent: Node, b: Shape<Node>, node: Node, d: Shape<Node>, gparent: Node, u: Shape<Node>,
                              pc: Color, nc: Color, gc: Color, tc: Color)
    requires Held(m, Plug(c, Fork(Fork(s, parent, pc, Fork(b, node, nc, d)), gparent, gc, u)))
    requires node in m && TuckedLeft(m, v, node, parent, tc)
    ensures PivotReady(v, gparent, node, Root(d)) && v[node].right == Root(d) && v[gparent].parent == HoleParent(c, null)
  {
    hide Nodes, PathNodes, Distinct, PathDistinct, Plug, PathAt, TreeAt, Clear;
    DoubleTurnRightReady(m, c, s, parent, b, node, d, gparent, u, pc, nc, gc);
  }

  /** The writes of a double rotation turn ((s p (b n d)) g u) into ((s p b) n (d g u)). */
  lemma DoubleTurnRight(m: Cells, v: Cells, w: Cells, c: Path<Node>, s: Shape<Node>, parent: Node, b: Shape<Node>, node: Node, d: Shape<Node>, gparent: Node, u: Shape<Node>,
                              pc: Color, nc: Color, gc: Color,
                       tc: Color, vc: Color, paint: bool)
    requires Held(m, Plug(c, Fork(Fork(s, parent, pc, Fork(b, node, nc, d)), gparent, gc, u)))
    requires !b.IsRed() && (paint ==> !d.IsRed())
    requires node in m && TuckedLeft(m, v, node, parent, tc) && PivotedRight(v, w, gparent, node, Root(d), vc, paint)
    ensures TreeAt(w, Plug(c, Fork(Fork(s, parent, tc, b), node, gc, Fork(d, gparent, vc, u))), null)
  {
    hide Nodes, PathNodes, Distinct, PathDistinct, Plug, PathAt, TreeAt, Clear;
    hide Untouched, AllDiffer;
    DoubleTurnRightReady(m, c, s, parent, b, node, d, gparent, u, pc, nc, gc);
    DoubleTurnRightSecond(m, v, c, s, parent, b, node, d, gparent, u, pc, nc, gc, tc);
    TwoSteps(m, v, w, parent, node, gparent, HoleParent(c, null), Root(b), Root(d));
    DoubleRotatedRight(m, w, c, s, parent, b, node, d, gparent, u, pc, nc, gc, tc, gc, vc, Black, if d.Nil? then Black else d.color);
  }

  lemma DoubleTurnLeftReady(m: Cells, c: Path<Node>, s: Shape<Node>, parent: Node, b: Shape<Node>, node: Node, d: Shape<Node>, gparent: Node, u: Shape<Node>,
                              pc: Color, nc: Color, gc: Color)
    requires Held(m, Plug(c, Fork(u, gparent, gc, Fork(Fork(d, node, nc, b), parent, pc, s))))
    ensures AllDiffer(parent, node, gparent, HoleParent(c, null), Root(b), Root(d))
    ensures CellIs(m, parent, gparent, pc, node, Root(s))
    ensures CellIs(m, gparent, HoleParent(c, null), gc, Root(u), parent)
    ensures CellIs(m, node, parent, nc, Root(d), Root(b))
    ensures Hangs(m, b, node) && Hangs(m, d, node) && HoleHolds(m, c, gparent)
  {
    hide Nodes, PathNodes, Distinct, PathDistinct, Plug, PathAt, TreeAt, Clear;
    var x: Shape<Node> := Fork(u, gparent, gc, Fork(Fork(d, node, nc, b), parent, pc, s));
    PlugAt(m, c, x, null);
    ForkAt(m, u, gparent, gc, Fork(Fork(d, node, nc, b), parent, pc, s), HoleParent(c, null));
    ForkAt(m, Fork(d, node, nc, b), parent, pc, s, gparent);
    ForkAt(m, d, node, nc, b, parent);
    RootAt(m, b, node);
    RootAt(m, d, node);
    ClearDoubleLeft(c, s, parent, b, node, d, gparent, u, pc, nc, gc);
    HoleAt(m, c, null, gparent);
  }

  lemma DoubleTurnLeftFirst(m: Cells, c: Path<Node>, s: Shape<Node>, parent: Node, b: Shape<Node>, node: Node, d: Shape<Node>, gparent: Node, u: Shape<Node>,
                              pc: Color, nc: Color, gc: Color)
    requires Held(m, Plug(c, Fork(u, gparent, gc, Fork(Fork(d, node, nc, b), parent, pc, s))))
    ensures node in m && TuckReady(m, node, parent, Root(b)) && m[node].right == Root(b)
  {
    hide Nodes, PathNodes, Distinct, PathDistinct, Plug, PathAt, TreeAt, Clear;
    hide AllDiffer;
    DoubleTurnLeftReady(m, c, s, parent, b, node, d, gparent, u, pc, nc, gc);
    DifferParts(parent, node, gparent, HoleParent(c, null), Root(b), Root(d));
  }

  lemma DoubleTurnLeftSecond(m: Cells, v: Cells, c: Path<Node>, s: Shape<Node>, parent: Node, b: Shape<Node>, node: Node, d: Shape<Node>, gparent: Node, u: Shape<Node>,
                              pc: Color, nc: Color, gc: Color, tc: Color)
    requires Held(m, Plug(c, Fork(u, gparent, gc, Fork(Fork(d, node, nc, b), parent, pc, s))))
    requires node in m && TuckedRight(m, v, node, parent, tc)
    ensures PivotReady(v, gparent, node, Root(d)) && v[node].left == Root(d) && v[gparent].parent == HoleParent(c, null)
  {
    hide Nodes, PathNodes, Distinct, PathDistinct, Plug, PathAt, TreeAt, Clear;
    DoubleTurnLeftReady(m, c, s, parent, b, node, d, gparent, u, pc, nc, gc);
  }

  /** The writes of a double rotation turn (u g ((d n b) p s)) into ((u g d) n (b p s)). */
  lemma DoubleTurnLeft(m: Cells, v: Cells, w: Cells, c: Path<Node>, s: Shape<Node>, parent: Node, b: Shape<Node>, node: Node, d: Shape<Node>, gparent: Node, u: Shape<Node>,
                              pc: Color, nc: Color, gc: Color,
                       tc: Color, vc: Color, paint: bool)
    requires Held(m, Plug(c, Fork(u, gparent, gc, Fork(Fork(d, node, nc, b), parent, pc, s))))
    requires !b.IsRed() && (paint ==> !d.IsRed())
    requires node in m && TuckedRight(m, v, node, parent, tc) && PivotedLeft(v, w, gparent, node, Root(d), vc, paint)
    ensures TreeAt(w, Plug(c, Fork(Fork(u, gparent, vc, d), node, gc, Fork(b, parent, tc, s))), null)
  {
    hide Nodes, PathNodes, Distinct, PathDistinct, Plug, PathAt, TreeAt, Clear;
    hide Untouched, AllDiffer;
    DoubleTurnLeftReady(m, c, s, parent, b, node, d, gparent, u, pc, nc, gc);
    DoubleTurnLeftSecond(m, v, c, s, parent, b, node, d, gparent, u, pc, nc, gc, tc);
    TwoSteps(m, v, w, parent, node, gparent, HoleParent(c, null), Root(b), Root(d));
    DoubleRotatedLeft(m, w, c, s, parent, b, node, d, gparent, u, pc, nc, gc, tc, gc, vc, Black, if d.Nil? then Black else d.color);
  }

  // ---------- Taking a node out ----------

  /** `n`, with at most the child `x`, leaves: `x` takes over its parent and colour. */
  ghost predicate SplicedOut(m: Cells, w: Cells, n: Node, x: Node?) {
    && n in m && w.Keys == m.Keys
    && var h := m[n].parent;
    && (h != null ==> h in m && w[h] == if m[h].left == n then m[h].(left := x) else m[h].(right := x))
    && (x != null ==> x in m && w[x] == m[x].(parent := h, color := m[n].color))
    && Untouched(m, w, h, x, null, null, null, null)
  }

  lemma Spliced(m: Cells, w: Cells, c: Path<Node>, l: Shape<Node>, n: Node, col: Color, r: Shape<Node>)
    requires Held(m, Plug(c, Fork(l, n, col, r))) && (l.Nil? || r.Nil?)
    requires SplicedOut(m, w, n, if l.Nil? then Root(r) else Root(l))
    ensures Held(w, Plug(c, Recolored(if l.Nil? then r else l, col)))
    ensures Nodes(Plug(c, Recolored(if l.Nil? then r else l, col))) == Nodes(Plug(c, Fork(l, n, col, r))) - {n}
  {
    hide TreeAt, PathAt, Nodes, PathNodes, Distinct, PathDistinct, Plug;
    var h, x := HoleParent(c, null), if l.Nil? then r else l;
    PlugAt(m, c, Fork(l, n, col, r), null);
    ForkAt(m, l, n, col, r, h);
    PlugNodes(c, Fork(l, n, col, r));
    ForkNodes(l, n, col, r);
    NilNodes();
    RootIn(x);
    HoleIn(c);
    HoleAt(m, c, null, n);
    TreeMoved(m, w, x, n, h, col);
    PathKept(m, w, c, null, n, Root(x));
    RecoloredNodes(x, col);
    PlugAt(w, c, Recolored(x, col), null);
    PlugNodes(c, Recolored(x, col));
  }

  lemma NilNodes()
    ensures Nodes<Node>(Nil) == {} && Distinct<Node>(Nil)
  {
  }

  lemma RecoloredNodes(t: Shape<Node>, col: Color)
    ensures Nodes(Recolored(t, col)) == Nodes(t) && Distinct(Recolored(t, col)) == Distinct(t)
    ensures Inorder(Recolored(t, col)) == Inorder(t)
  {
  }

  /** `s`, the right child of `n` and without a left child, takes the place of `n`. */
  ghost predicate NearSwapped(m: Cells, w: Cells, n: Node, s: Node, l: Node, x: Node?) {
    && n in m && s in m && l in m && w.Keys == m.Keys
    && var h := m[n].parent;
    && w[s] == Cell(h, m[n].color, l, x)
    && w[l] == m[l].(parent := s)
    && (x != null ==> x in m && w[x] == m[x].(parent := s, color := Black))
    && (h != null ==> h in m && w[h] == if m[h].left == n then m[h].(left := s) else m[h].(right := s))
    && Untouched(m, w, s, l, x, h, null, null)
  }

  lemma NearSwap(m: Cells, w: Cells, c: Path<Node>, l: Shape<Node>, n: Node, col: Color, s: Node, sc: Color, x: Shape<Node>)
    requires l.Fork? && Held(m, Plug(c, Fork(l, n, col, Fork(Nil, s, sc, x))))
    requires NearSwapped(m, w, n, s, l.node, Root(x))
    ensures Held(w, Plug(c, Fork(l, s, col, Recolored(x, Black))))
    ensures Nodes(Plug(c, Fork(l, s, col, Recolored(x, Black)))) == Nodes(Plug(c, Fork(l, n, col, Fork(Nil, s, sc, x)))) - {n}
  {
    hide TreeAt, PathAt, Nodes, PathNodes, Distinct, PathDistinct, Plug;
    var h := HoleParent(c, null);
    PlugAt(m, c, Fork(l, n, col, Fork(Nil, s, sc, x)), null);
    ForkAt(m, l, n, col, Fork(Nil, s, sc, x), h);
    ForkAt(m, Nil, s, sc, x, n);
    PlugNodes(c, Fork(l, n, col, Fork(Nil, s, sc, x)));
    ForkNodes(l, n, col, Fork(Nil, s, sc, x));
    ForkNodes(Nil, s, sc, x);
    NilNodes();
    RootIn(l);
    RootIn(x);
    HoleIn(c);
    HoleAt(m, c, null, n);
    RootAt(m, l, n);
    TreeMoved(m, w, l, n, s, l.color);
    TreeMoved(m, w, x, s, s, Black);
    PathKept(m, w, c, null, n, s);
    RecoloredNodes(x, Black);
    ForkAt(w, l, s, col, Recolored(x, Black), h);
    ForkNodes(l, s, col, Recolored(x, Black));
    PlugAt(w, c, Fork(l, s, col, Recolored(x, Black)), null);
    PlugNodes(c, Fork(l, s, col, Recolored(x, Black)));
  }

  ghost function TopNode(c: Path<Node>): Node
    requires !c.Top?
  {
    if c.up.Top? then c.node else TopNode(c.up)
  }

  lemma {:induction false} TopNodeIn(c: Path<Node>, t: Shape<Node>)
    requires !c.Top?
    ensures TopNode(c) in PathNodes(c) && Root(Plug(c, t)) == TopNode(c)
  {
    if !c.up.Top? { TopNodeIn(c.up, Joined(c, t)); }
  }

  lemma {:induction false} PathRebased(m: Cells, w: Cells, c: Path<Node>, base: Node?, other: Node?, x: Node?)
    requires !c.Top? && PathAt(m, c, base, x) && PathDistinct(c)
    requires Agree(m, w, PathNodes(c) - {TopNode(c)})
    requires TopNode(c) in m && TopNode(c) in w && w[TopNode(c)] == m[TopNode(c)].(parent := other)
    ensures PathAt(w, c, other, x)
  {
    if !c.up.Top? { TopNodeIn(c.up, Nil); }
    TreeKept(m, w, c.sibling, c.node);
    if !c.up.Top? { PathRebased(m, w, c.up, base, other, c.node); }
  }

  /** `s`, the leftmost node below `y`, the right child of `n`, takes the place of `n`; `p` was above `s`. */
  ghost predicate FarSwapped(m: Cells, w: Cells, n: Node, s: Node, l: Node, y: Node, p: Node, x: Node?) {
    && n in m && s in m && l in m && y in m && p in m && w.Keys == m.Keys
    && var h := m[n].parent;
    && w[s] == Cell(h, m[n].color, l, y)
    && w[l] == m[l].(parent := s)
    && w[p] == m[p].(left := x, parent := if p == y then s else m[p].parent)
    && w[y] == m[y].(parent := s, left := if p == y then x else m[y].left)
    && (x != null ==> x in m && w[x] == m[x].(parent := p, color := Black))
    && (h != null ==> h in m && w[h] == if m[h].left == n then m[h].(left := s) else m[h].(right := s))
    && Untouched(m, w, s, l, y, p, x, h)
  }

  /** The part below `n`, with `s` taken out of it, moved below `s`. */
  lemma FarBelow(m: Cells, w: Cells, n: Node, d: Path<Node>, s: Node, sc: Color, x: Shape<Node>, l: Node)
    requires d.LeftOf? && n in m && m[n].parent !in PathNodes(d) + Nodes(x)
    requires TreeAt(m, Plug(d, Fork(Nil, s, sc, x)), n) && Distinct(Plug(d, Fork(Nil, s, sc, x)))
    requires FarSwapped(m, w, n, s, l, TopNode(d), d.node, Root(x)) && l !in PathNodes(d) + Nodes(x)
    ensures TreeAt(w, Plug(d, Recolored(x, Black)), s)
  {
    hide TreeAt, PathAt, Nodes, PathNodes, Distinct, PathDistinct, Plug;
    var t, y := Fork(Nil, s, sc, x), TopNode(d);
    PlugAt(m, d, t, n);
    PlugNodes(d, t);
    ForkAt(m, Nil, s, sc, x, d.node);
    ForkNodes(Nil, s, sc, x);
    NilNodes();
    RootIn(x);
    HoleIn(d);
    TopNodeIn(d, t);
    var v := m[y := m[y].(parent := s)];
    PathRebased(m, v, d, n, s, s);
    PathKept(v, w, d, s, s, Root(x));
    TreeMoved(m, w, x, s, d.node, Black);
    PlugAt(w, d, Recolored(x, Black), s);
  }

  lemma FarSwap(m: Cells, w: Cells, c: Path<Node>, l: Shape<Node>, n: Node, col: Color, d: Path<Node>, s: Node, sc: Color, x: Shape<Node>)
    requires l.Fork? && d.LeftOf? && Held(m, Plug(c, Fork(l, n, col, Plug(d, Fork(Nil, s, sc, x)))))
    requires FarSwapped(m, w, n, s, l.node, TopNode(d), d.node, Root(x))
    ensures TreeAt(w, Plug(c, Fork(l, s, col, Plug(d, Recolored(x, Black)))), null)
  {
    hide TreeAt, PathAt, Nodes, PathNodes, Distinct, PathDistinct, Plug;
    var h, t := HoleParent(c, null), Fork(Nil, s, sc, x);
    var r := Plug(d, t);
    PlugAt(m, c, Fork(l, n, col, r), null);
    ForkAt(m, l, n, col, r, h);
    PlugNodes(c, Fork(l, n, col, r));
    ForkNodes(l, n, col, r);
    PlugNodes(d, t);
    ForkNodes(Nil, s, sc, x);
    RootIn(l);
    RootIn(x);
    HoleIn(c);
    HoleIn(d);
    TopNodeIn(d, t);
    TopNodeIn(d, Recolored(x, Black));
    HoleAt(m, c, null, n);
    RootAt(m, l, n);
    FarBelow(m, w, n, d, s, sc, x, l.node);
    TreeMoved(m, w, l, n, s, l.color);
    PathKept(m, w, c, null, n, s);
    ForkAt(w, l, s, col, Plug(d, Recolored(x, Black)), h);
    PlugAt(w, c, Fork(l, s, col, Plug(d, Recolored(x, Black))), null);
  }

  lemma FarNodes(c: Path<Node>, l: Shape<Node>, n: Node, col: Color, d: Path<Node>, s: Node, sc: Color, x: Shape<Node>)
    requires Distinct(Plug(c, Fork(l, n, col, Plug(d, Fork(Nil, s, sc, x)))))
    ensures var u := Plug(c, Fork(l, s, col, Plug(d, Recolored(x, Black))));
            Distinct(u) && Nodes(u) == Nodes(Plug(c, Fork(l, n, col, Plug(d, Fork(Nil, s, sc, x))))) - {n}
  {
    hide TreeAt, PathAt, Nodes, PathNodes, Distinct, PathDistinct, Plug;
    var r, q := Plug(d, Fork(Nil, s, sc, x)), Plug(d, Recolored(x, Black));
    PlugNodes(c, Fork(l, n, col, r));
    ForkNodes(l, n, col, r);
    PlugNodes(d, Fork(Nil, s, sc, x));
    ForkNodes(Nil, s, sc, x);
    NilNodes();
    RecoloredNodes(x, Black);
    PlugNodes(d, Recolored(x, Black));
    ForkNodes(l, s, col, q);
    PlugNodes(c, Fork(l, s, col, q));
  }

  // ---------- What an erasure reads ----------

  lemma UpReady(m: Cells, c: Path<Node>, t: Shape<Node>)
    requires TreeAt(m, Plug(c, t), null)
    ensures !c.Top? ==> c.node in m
  {
    PlugAt(m, c, t, null);
  }

  lemma NearReady(m: Cells, c: Path<Node>, l: Shape<Node>, n: Node, col: Color, s: Node, sc: Color, x: Shape<Node>)
    requires l.Fork? && Held(m, Plug(c, Fork(l, n, col, Fork(Nil, s, sc, x))))
    ensures CellIs(m, n, HoleParent(c, null), col, l.node, s) && CellIs(m, s, n, sc, null, Root(x))
    ensures l.node in m && Hangs(m, x, s) && AllDiffer(n, s, l.node, Root(x), HoleParent(c, null), null)
  {
    hide TreeAt, PathAt, Nodes, PathNodes, Distinct, PathDistinct, Plug;
    PlugAt(m, c, Fork(l, n, col, Fork(Nil, s, sc, x)), null);
    ForkAt(m, l, n, col, Fork(Nil, s, sc, x), HoleParent(c, null));
    ForkAt(m, Nil, s, sc, x, n);
    PlugNodes(c, Fork(l, n, col, Fork(Nil, s, sc, x)));
    ForkNodes(l, n, col, Fork(Nil, s, sc, x));
    ForkNodes(Nil, s, sc, x);
    RootIn(l);
    RootIn(x);
    HoleIn(c);
    RootAt(m, l, n);
    RootAt(m, x, s);
  }

  lemma FarReady(m: Cells, c: Path<Node>, l: Shape<Node>, n: Node, col: Color, d: Path<Node>, s: Node, sc: Color, x: Shape<Node>)
    requires l.Fork? && d.LeftOf? && Held(m, Plug(c, Fork(l, n, col, Plug(d, Fork(Nil, s, sc, x)))))
    ensures CellIs(m, n, HoleParent(c, null), col, l.node, TopNode(d)) && CellIs(m, s, d.node, sc, null, Root(x))
    ensures l.node in m && d.node in m && TopNode(d) in m && Hangs(m, x, s)
    ensures AllDiffer(n, s, l.node, Root(x), HoleParent(c, null), d.node)
    ensures AllDiffer(n, s, l.node, Root(x), HoleParent(c, null), TopNode(d))
  {
    hide TreeAt, PathAt, Nodes, PathNodes, Distinct, PathDistinct, Plug;
    var t := Fork(Nil, s, sc, x);
    var r := Plug(d, t);
    PlugAt(m, c, Fork(l, n, col, r), null);
    ForkAt(m, l, n, col, r, HoleParent(c, null));
    PlugAt(m, d, t, n);
    ForkAt(m, Nil, s, sc, x, d.node);
    PlugNodes(c, Fork(l, n, col, r));
    ForkNodes(l, n, col, r);
    PlugNodes(d, t);
    ForkNodes(Nil, s, sc, x);
    RootIn(l);
    RootIn(x);
    HoleIn(c);
    HoleIn(d);
    TopNodeIn(d, t);
    RootAt(m, l, n);
    RootAt(m, r, n);
    RootAt(m, x, s);
    PathHead(m, d, n, s);
  }

  lemma PathHead(m: Cells, c: Path<Node>, base: Node?, x: Node?)
    requires PathAt(m, c, base, x)
    ensures !c.Top? ==> c.node in m
  {
  }

  /** Fields of nodes that left the tree do not matter. */
  lemma Restricted(all: set<Node>, t: Shape<Node>)
    requires Nodes(t) <= all && TreeAt(Snap(all), t, null)
    ensures TreeAt(Snap(Nodes(t)), t, null)
  {
    TreeKept(Snap(all), Snap(Nodes(t)), t, null);
  }

  /** The fields of a node below the right child of `n`. */
  lemma SubReady(m: Cells, c: Path<Node>, l: Shape<Node>, n: Node, col: Color, r: Shape<Node>, d: Path<Node>, sub: Shape<Node>)
    requires Held(m, Plug(c, Fork(l, n, col, r))) && r == Plug(d, sub) && sub.Fork?
    ensures CellIs(m, sub.node, HoleParent(d, n), sub.color, Root(sub.left), Root(sub.right))
    ensures Hangs(m, sub.left, sub.node)
  {
    hide TreeAt, PathAt, Nodes, PathNodes, Distinct, PathDistinct, Plug;
    PlugAt(m, c, Fork(l, n, col, r), null);
    ForkAt(m, l, n, col, r, HoleParent(c, null));
    PlugAt(m, d, sub, n);
    ForkAt(m, sub.left, sub.node, sub.color, sub.right, HoleParent(d, n));
    RootAt(m, sub.left, sub.node);
  }

  lemma BelowNext(m: Cells, c: Path<Node>, s: Shape<Node>, d: Path<Node>, sub: Shape<Node>)
    requires Held(m, Plug(c, s)) && s.Fork? && s.right == Plug(d, sub) && sub.Fork?
    ensures CellIs(m, sub.node, HoleParent(d, s.node), sub.color, Root(sub.left), Root(sub.right))
  {
    SubReady(m, c, s.left, s.node, s.color, s.right, d, sub);
  }

  lemma BelowPrev(m: Cells, c: Path<Node>, s: Shape<Node>, d: Path<Node>, sub: Shape<Node>)
    requires Held(m, Plug(c, s)) && s.Fork? && s.left == Plug(d, sub) && sub.Fork?
    ensures CellIs(m, sub.node, HoleParent(d, s.node), sub.color, Root(sub.left), Root(sub.right))
  {
    hide TreeAt, PathAt, Nodes, PathNodes, Distinct, PathDistinct, Plug;
    PlugAt(m, c, s, null);
    ForkAt(m, s.left, s.node, s.color, s.right, HoleParent(c, null));
    PlugAt(m, d, sub, s.node);
    ForkAt(m, sub.left, sub.node, sub.color, sub.right, HoleParent(d, s.node));
  }

  // ---------- Linking and replacing ----------

  ghost predicate LeafLinked(m: Cells, w: Cells, n: Node, p: Node?, left: bool) {
    && w.Keys == m.Keys + {n} && n !in m && w[n] == Cell(p, Red, null, null)
    && (p != null ==> p in m && w[p] == if left then m[p].(left := n) else m[p].(right := n))
    && Untouched(m, w, p, null, null, null, null, null)
  }

  lemma LinkedLeaf(m: Cells, w: Cells, c: Path<Node>, n: Node)
    requires Held(m, Plug(c, Nil)) && m.Keys == Nodes(Plug(c, Nil))
    requires LeafLinked(m, w, n, HoleParent(c, null), c.LeftOf?)
    ensures Held(w, Plug(c, Fork(Nil, n, Red, Nil))) && Nodes(Plug(c, Fork(Nil, n, Red, Nil))) == m.Keys + {n}
  {
    hide TreeAt, PathAt, Nodes, PathNodes, Distinct, PathDistinct, Plug;
    var t := Fork(Nil, n, Red, Nil);
    NilNodes();
    PlugAt(m, c, Nil, null);
    PlugNodes(c, Nil);
    HoleIn(c);
    PathKept(m, w, c, null, null, n);
    NilAt(w, n);
    ForkAt(w, Nil, n, Red, Nil, HoleParent(c, null));
    ForkNodes(Nil, n, Red, Nil);
    PlugAt(w, c, t, null);
    PlugNodes(c, t);
  }

  lemma NilAt(m: Cells, p: Node?)
    ensures TreeAt(m, Nil, p)
  {
  }

  ghost predicate NodeReplaced(m: Cells, w: Cells, v: Node, n: Node) {
    && w.Keys == m.Keys + {n} && n !in m && v in m && w[n] == m[v]
    && var h, l, r := m[v].parent, m[v].left, m[v].right;
    && (l != null ==> l in m && w[l] == m[l].(parent := n))
    && (r != null ==> r in m && w[r] == m[r].(parent := n))
    && (h != null ==> h in m && w[h] == if m[h].left == v then m[h].(left := n) else m[h].(right := n))
    && Untouched(m, w, h, l, r, null, null, null)
  }

  lemma Substituted(m: Cells, w: Cells, c: Path<Node>, l: Shape<Node>, v: Node, n: Node, col: Color, r: Shape<Node>)
    requires Held(m, Plug(c, Fork(l, v, col, r))) && m.Keys == Nodes(Plug(c, Fork(l, v, col, r))) && NodeReplaced(m, w, v, n)
    ensures Held(w, Plug(c, Fork(l, n, col, r))) && Nodes(Plug(c, Fork(l, n, col, r))) == m.Keys - {v} + {n}
  {
    hide TreeAt, PathAt, Nodes, PathNodes, Distinct, PathDistinct, Plug;
    var h := HoleParent(c, null);
    PlugAt(m, c, Fork(l, v, col, r), null);
    ForkAt(m, l, v, col, r, h);
    PlugNodes(c, Fork(l, v, col, r));
    ForkNodes(l, v, col, r);
    RootIn(l);
    RootIn(r);
    HoleIn(c);
    HoleAt(m, c, null, v);
    RootAt(m, l, v);
    RootAt(m, r, v);
    TreeMoved(m, w, l, v, n, if l.Nil? then Black else l.color);
    TreeMoved(m, w, r, v, n, if r.Nil? then Black else r.color);
    PathKept(m, w, c, null, v, n);
    ForkAt(w, l, n, col, r, h);
    ForkNodes(l, n, col, r);
    PlugAt(w, c, Fork(l, n, col, r), null);
    PlugNodes(c, Fork(l, n, col, r));
  }

  ghost function Renamed(s: seq<Node>, v: Node, n: Node): seq<Node> {
    seq(|s|, i requires 0 <= i < |s| => if s[i] == v then n else s[i])
  }

  lemma SubstitutedOrder(c: Path<Node>, l: Shape<Node>, v: Node, n: Node, col: Color, r: Shape<Node>)
    requires Distinct(Plug(c, Fork(l, v, col, r)))
    ensures Inorder(Plug(c, Fork(l, n, col, r))) == Renamed(Inorder(Plug(c, Fork(l, v, col, r))), v, n)
  {
    ForkOrder(c, l, v, col, r);
    ForkOrder(c, l, n, col, r);
    InorderDistinct(Plug(c, Fork(l, v, col, r)));
    RenamedOnce(Before(c) + Inorder(l), v, n, Inorder(r) + After(c));
  }

  lemma RenamedOnce(a: seq<Node>, v: Node, n: Node, b: seq<Node>)
    requires NoRepeat(a + [v] + b)
    ensures Renamed(a + [v] + b, v, n) == a + [n] + b
  {
    var s := a + [v] + b;
    assert s[|a|] == v;
    forall i | 0 <= i < |s|
      ensures Renamed(s, v, n)[i] == (a + [n] + b)[i]
    {
      if i < |a| { assert s[i] != s[|a|]; } else if |a| < i { assert s[|a|] != s[i]; }
    }
  }

  lemma SubstitutedRule(c: Path<Node>, l: Shape<Node>, v: Node, n: Node, col: Color, r: Shape<Node>)
    ensures RedBlack(Plug(c, Fork(l, v, col, r))) ==> RedBlack(Plug(c, Fork(l, n, col, r)))
  {
    PlugRedBlack(c, Fork(l, v, col, r));
    PlugRedBlack(c, Fork(l, n, col, r));
  }
}
