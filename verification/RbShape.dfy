/**
 Red-black trees as values.

 `Shape` is the tree that the linked nodes of `hev-rbtree.c` spell out, and
 `Path` is the way from a subtree up to the root: a tree with a hole. The
 rebalancing loops walk a `Path` upwards, so their invariants are stated about
 a path and the subtree in its hole.
 */
module RbShape {

  datatype Color = Red | Black

  datatype Shape<N> = Nil | Fork(left: Shape<N>, node: N, color: Color, right: Shape<N>) {
    predicate IsRed() {
      Fork? && color.Red?
    }
  }

  /** A tree with a hole, seen from the hole: the hole is the left (right) child of `node`. */
  datatype Path<N> =
    | Top
    | LeftOf(up: Path<N>, node: N, color: Color, sibling: Shape<N>)
    | RightOf(up: Path<N>, node: N, color: Color, sibling: Shape<N>)
  {
    predicate IsRed() {
      !Top? && color.Red?
    }
  }

  // ---------- Contents ----------

  function Inorder<N>(t: Shape<N>): seq<N> {
    match t
    case Nil => []
    case Fork(l, n, _, r) => Inorder(l) + [n] + Inorder(r)
  }

  ghost function Nodes<N>(t: Shape<N>): set<N> {
    match t
    case Nil => {}
    case Fork(l, n, _, r) => {n} + Nodes(l) + Nodes(r)
  }

  /** No node occurs twice. */
  ghost predicate Distinct<N>(t: Shape<N>) {
    match t
    case Nil => true
    case Fork(l, n, _, r) =>
      Distinct(l) && Distinct(r) && n !in Nodes(l) && n !in Nodes(r) && Nodes(l) !! Nodes(r)
  }

  function Plug<N>(c: Path<N>, t: Shape<N>): Shape<N> {
    match c
    case Top => t
    case LeftOf(up, n, col, s) => Plug(up, Fork(t, n, col, s))
    case RightOf(up, n, col, s) => Plug(up, Fork(s, n, col, t))
  }

  ghost function PathNodes<N>(c: Path<N>): set<N> {
    match c
    case Top => {}
    case LeftOf(up, n, _, s) => {n} + Nodes(s) + PathNodes(up)
    case RightOf(up, n, _, s) => {n} + Nodes(s) + PathNodes(up)
  }

  ghost predicate PathDistinct<N>(c: Path<N>) {
    match c
    case Top => true
    case LeftOf(up, n, _, s) =>
      PathDistinct(up) && Distinct(s) && n !in Nodes(s) && n !in PathNodes(up) && Nodes(s) !! PathNodes(up)
    case RightOf(up, n, _, s) =>
      PathDistinct(up) && Distinct(s) && n !in Nodes(s) && n !in PathNodes(up) && Nodes(s) !! PathNodes(up)
  }

  /** What lies before, and after, the hole in order. */
  function Before<N>(c: Path<N>): seq<N> {
    match c
    case Top => []
    case LeftOf(up, _, _, _) => Before(up)
    case RightOf(up, n, _, s) => Before(up) + Inorder(s) + [n]
  }

  function After<N>(c: Path<N>): seq<N> {
    match c
    case Top => []
    case LeftOf(up, n, _, s) => [n] + Inorder(s) + After(up)
    case RightOf(up, _, _, _) => After(up)
  }

  /** `inner` put into the hole of `outer`. */
  function Compose<N>(outer: Path<N>, inner: Path<N>): Path<N> {
    match inner
    case Top => outer
    case LeftOf(up, n, col, s) => LeftOf(Compose(outer, up), n, col, s)
    case RightOf(up, n, col, s) => RightOf(Compose(outer, up), n, col, s)
  }

  lemma {:induction false} PlugNodes<N>(c: Path<N>, t: Shape<N>)
    ensures Nodes(Plug(c, t)) == PathNodes(c) + Nodes(t)
    ensures Distinct(Plug(c, t)) <==> PathDistinct(c) && Distinct(t) && PathNodes(c) !! Nodes(t)
  {
    match c
    case Top =>
    case LeftOf(up, n, col, s) => PlugNodes(up, Fork(t, n, col, s));
    case RightOf(up, n, col, s) => PlugNodes(up, Fork(s, n, col, t));
  }

  lemma {:induction false} PlugInorder<N>(c: Path<N>, t: Shape<N>)
    ensures Inorder(Plug(c, t)) == Before(c) + Inorder(t) + After(c)
  {
    match c
    case Top =>
    case LeftOf(up, n, col, s) => PlugInorder(up, Fork(t, n, col, s));
    case RightOf(up, n, col, s) => PlugInorder(up, Fork(s, n, col, t));
  }

  lemma RotationOrder<N>(a: Shape<N>, p: N, b: Shape<N>, g: N, d: Shape<N>, pc: Color, gc: Color, pc': Color, gc': Color)
    ensures Inorder(Fork(Fork(a, p, pc, b), g, gc, d)) == Inorder(Fork(a, p, pc', Fork(b, g, gc', d)))
  {
    var x, y, z := Inorder(a), Inorder(b), Inorder(d);
    assert Inorder(Fork(Fork(a, p, pc, b), g, gc, d)) == (x + [p] + y) + [g] + z;
    assert Inorder(Fork(a, p, pc', Fork(b, g, gc', d))) == x + [p] + (y + [g] + z);
  }

  lemma DoubleRotationOrder<N>(a: Shape<N>, p: N, b: Shape<N>, n: N, d: Shape<N>, g: N, e: Shape<N>,
                               pc: Color, nc: Color, gc: Color, pc': Color, nc': Color, gc': Color)
    ensures Inorder(Fork(Fork(a, p, pc, Fork(b, n, nc, d)), g, gc, e)) ==
            Inorder(Fork(Fork(a, p, pc', b), n, nc', Fork(d, g, gc', e)))
    ensures Inorder(Fork(a, p, pc, Fork(Fork(b, n, nc, d), g, gc, e))) ==
            Inorder(Fork(Fork(a, p, pc', b), n, nc', Fork(d, g, gc', e)))
  {
    var s := Fork(Fork(a, p, pc, b), n, nc', d);
    RotationOrder(a, p, b, n, d, pc, nc', pc, nc);
    RotationOrder(Fork(a, p, pc, b), n, d, g, e, nc', gc, nc', gc');
    RotationOrder(b, n, d, g, e, nc, gc, nc, gc);
    RotationOrder(a, p, b, n, Fork(d, g, gc, e), pc, nc, pc, nc);
    assert Inorder(Fork(Fork(a, p, pc, Fork(b, n, nc, d)), g, gc, e)) == Inorder(Fork(s, g, gc, e));
  }

  lemma {:induction false} PlugCompose<N>(outer: Path<N>, inner: Path<N>, t: Shape<N>)
    ensures Plug(Compose(outer, inner), t) == Plug(outer, Plug(inner, t))
  {
    match inner
    case Top =>
    case LeftOf(up, n, col, s) => PlugCompose(outer, up, Fork(t, n, col, s));
    case RightOf(up, n, col, s) => PlugCompose(outer, up, Fork(s, n, col, t));
  }

  lemma {:induction false} InorderNodes<N>(t: Shape<N>)
    ensures forall n :: n in Nodes(t) ==> n in Inorder(t)
    ensures forall n :: n in Inorder(t) ==> n in Nodes(t)
  {
    match t
    case Nil =>
    case Fork(l, n, _, r) => InorderNodes(l); InorderNodes(r);
  }

  /** Distinct nodes in the tree mean no repetition in the in-order sequence. */
  lemma {:induction false} InorderDistinct<N>(t: Shape<N>)
    requires Distinct(t)
    ensures NoRepeat(Inorder(t))
  {
    match t
    case Nil =>
    case Fork(l, n, _, r) =>
      InorderDistinct(l);
      InorderDistinct(r);
      InorderNodes(l);
      InorderNodes(r);
      var a, b := Inorder(l), Inorder(r);
      forall i, j | 0 <= i < j < |a| + 1 + |b|
        ensures (a + [n] + b)[i] != (a + [n] + b)[j]
      {
        var k := j - |a| - 1;
        if i < |a| {
          assert a[i] in a && a[i] in Nodes(l);
          if 0 <= k { assert b[k] in b && b[k] in Nodes(r); }
        } else {
          assert b[k] in b && b[k] in Nodes(r);
          if |a| < i { assert b[i - |a| - 1] != b[k]; }
        }
      }
  }

  ghost predicate NoRepeat<N>(s: seq<N>) {
    forall i, j :: 0 <= i < j < |s| ==> s[i] != s[j]
  }

  lemma {:induction false} NoRepeatDistinct<N>(t: Shape<N>)
    requires NoRepeat(Inorder(t))
    ensures Distinct(t)
  {
    match t
    case Nil =>
    case Fork(l, n, _, r) =>
      var a, b := Inorder(l), Inorder(r);
      var s := a + [n] + b;
      assert forall i :: 0 <= i < |b| ==> b[i] == s[|a| + 1 + i];
      assert forall i :: 0 <= i < |a| ==> a[i] == s[i];
      assert s[|a|] == n;
      NoRepeatDistinct(l);
      NoRepeatDistinct(r);
      InorderNodes(l);
      InorderNodes(r);
  }

  /** Two shapes with the same in-order sequence hold the same nodes. */
  lemma SameOrder<N>(t: Shape<N>, u: Shape<N>)
    requires Distinct(t) && Inorder(t) == Inorder(u)
    ensures Distinct(u) && Nodes(t) == Nodes(u)
  {
    InorderDistinct(t);
    NoRepeatDistinct(u);
    InorderNodes(t);
    InorderNodes(u);
  }

  /** Every node of a tree sits in the hole of some path. */
  lemma {:induction false} Locate<N>(t: Shape<N>, n: N) returns (c: Path<N>, s: Shape<N>)
    requires n in Nodes(t)
    ensures s.Fork? && s.node == n && t == Plug(c, s)
  {
    var Fork(l, m, col, r) := t;
    if n == m {
      c, s := Top, t;
    } else if n in Nodes(l) {
      var d;
      d, s := Locate(l, n);
      c := Compose(LeftOf(Top, m, col, r), d);
      PlugCompose(LeftOf(Top, m, col, r), d, s);
    } else {
      var d;
      d, s := Locate(r, n);
      c := Compose(RightOf(Top, m, col, l), d);
      PlugCompose(RightOf(Top, m, col, l), d, s);
    }
  }

  // ---------- Red-black rules ----------

  function Weight(c: Color): nat {
    if c.Black? then 1 else 0
  }

  /** Rule 4: no red node has a red child. */
  predicate NoRedRed<N>(t: Shape<N>) {
    match t
    case Nil => true
    case Fork(l, _, col, r) => NoRedRed(l) && NoRedRed(r) && (col.Red? ==> !l.IsRed() && !r.IsRed())
  }

  /** Rule 5: every way down to a missing child passes `h` black nodes. */
  predicate BlackHeight<N>(t: Shape<N>, h: int) {
    match t
    case Nil => h == 0
    case Fork(l, _, col, r) => BlackHeight(l, h - Weight(col)) && BlackHeight(r, h - Weight(col))
  }

  function LeftBlacks<N>(t: Shape<N>): nat {
    match t
    case Nil => 0
    case Fork(l, _, col, _) => LeftBlacks(l) + Weight(col)
  }

  predicate RedBlack<N>(t: Shape<N>) {
    !t.IsRed() && NoRedRed(t) && BlackHeight(t, LeftBlacks(t))
  }

  /** The path obeys the rules if the subtree put in its hole has black height `h`. */
  predicate PathOk<N>(c: Path<N>, h: int) {
    c.Top? ||
    (&& BlackHeight(c.sibling, h)
     && NoRedRed(c.sibling)
     && (c.color.Red? ==> !c.sibling.IsRed() && !c.up.Top? && c.up.color.Black?)
     && PathOk(c.up, h + Weight(c.color)))
  }

  /** A red subtree may hang only below a black node. */
  predicate Attaches<N>(c: Path<N>, t: Shape<N>) {
    t.IsRed() ==> !c.Top? && c.color.Black?
  }

  lemma {:induction false} BlackHeightUnique<N>(t: Shape<N>, h: int)
    requires BlackHeight(t, h)
    ensures h == LeftBlacks(t)
  {
    match t
    case Nil =>
    case Fork(l, _, col, _) => BlackHeightUnique(l, h - Weight(col));
  }

  /** The red-black rules of a whole tree, split at any hole. */
  lemma {:induction false} PlugRedBlack<N>(c: Path<N>, t: Shape<N>)
    ensures RedBlack(Plug(c, t)) <==>
            PathOk(c, LeftBlacks(t)) && NoRedRed(t) && BlackHeight(t, LeftBlacks(t)) && Attaches(c, t)
  {
    match c
    case Top =>
    case LeftOf(up, n, col, s) =>
      PlugRedBlack(up, Fork(t, n, col, s));
    case RightOf(up, n, col, s) =>
      PlugRedBlack(up, Fork(s, n, col, t));
      if BlackHeight(s, LeftBlacks(t)) { BlackHeightUnique(s, LeftBlacks(t)); }
      if BlackHeight(t, LeftBlacks(s)) { BlackHeightUnique(t, LeftBlacks(s)); }
  }

  // ---------- Rules kept by rebalancing an insertion ----------

  /** The rules hold but for a red subtree `t` that may hang below a red node or be the whole tree. */
  predicate RedFault<N>(c: Path<N>, t: Shape<N>, h: int) {
    t.IsRed() && NoRedRed(t) && BlackHeight(t, h) && PathOk(c, h)
  }

  /** The subtree one step up from the hole. */
  function Joined<N>(c: Path<N>, t: Shape<N>): (j: Shape<N>)
    requires !c.Top?
    ensures j.Fork? && j.color == c.color && Plug(c, t) == Plug(c.up, j)
  {
    if c.LeftOf? then Fork(t, c.node, c.color, c.sibling) else Fork(c.sibling, c.node, c.color, t)
  }

  lemma LeafFault<N>(c: Path<N>, n: N)
    requires PathOk(c, 0)
    ensures RedFault(c, Fork(Nil, n, Red, Nil), 0)
  {
    assert BlackHeight<N>(Nil, 0);
  }

  lemma Settled<N>(c: Path<N>, t: Shape<N>, h: int)
    requires NoRedRed(t) && BlackHeight(t, h) && PathOk(c, h) && Attaches(c, t)
    ensures RedBlack(Plug(c, t))
  {
    BlackHeightUnique(t, h);
    PlugRedBlack(c, t);
  }

  lemma BlackRootRule<N>(t: Shape<N>, h: int)
    requires RedFault(Top, t, h)
    ensures RedBlack(t.(color := Black))
  {
    assert BlackHeight(t.(color := Black), h + 1);
    Settled(Top, t.(color := Black), h + 1);
  }

  lemma InsertFlipRule<N>(c: Path<N>, t: Shape<N>, h: int)
    requires RedFault(c, t, h) && c.IsRed() && c.up.sibling.IsRed()
    ensures var g := c.up;
            var x := Fork(Joined(c, t).left, c.node, Black, Joined(c, t).right);
            var y := g.sibling.(color := Black);
            RedFault(g.up, if g.LeftOf? then Fork(x, g.node, Red, y) else Fork(y, g.node, Red, x), h + 1)
  {
    assert PathOk(c.up, h) && PathOk(c.up.up, h + 1);
    assert BlackHeight(Joined(c, t), h);
    assert BlackHeight(c.up.sibling.(color := Black), h + 1);
  }

  lemma InsertOuterRule<N>(up: Path<N>, g: N, u: Shape<N>, p: N, s: Shape<N>, t: Shape<N>, h: int)
    requires !u.IsRed()
    requires var d, e := LeftOf(up, g, Black, u), RightOf(up, g, Black, u);
             RedFault(LeftOf(d, p, Red, s), t, h) || RedFault(RightOf(e, p, Red, s), t, h)
    ensures RedBlack(Plug(up, Fork(t, p, Black, Fork(s, g, Red, u))))
    ensures RedBlack(Plug(up, Fork(Fork(u, g, Red, s), p, Black, t)))
  {
    assert PathOk(LeftOf(up, g, Black, u), h) || PathOk(RightOf(up, g, Black, u), h);
    assert BlackHeight(Fork(s, g, Red, u), h) && BlackHeight(Fork(u, g, Red, s), h);
    Settled(up, Fork(t, p, Black, Fork(s, g, Red, u)), h + 1);
    Settled(up, Fork(Fork(u, g, Red, s), p, Black, t), h + 1);
  }

  lemma InsertInnerRule<N>(up: Path<N>, g: N, u: Shape<N>, p: N, s: Shape<N>, b: Shape<N>, n: N, d: Shape<N>, h: int)
    requires !u.IsRed()
    ensures RedFault(RightOf(LeftOf(up, g, Black, u), p, Red, s), Fork(b, n, Red, d), h) ==>
            RedBlack(Plug(up, Fork(Fork(s, p, Red, b), n, Black, Fork(d, g, Red, u))))
    ensures RedFault(LeftOf(RightOf(up, g, Black, u), p, Red, s), Fork(d, n, Red, b), h) ==>
            RedBlack(Plug(up, Fork(Fork(u, g, Red, d), n, Black, Fork(b, p, Red, s))))
  {
    if RedFault(RightOf(LeftOf(up, g, Black, u), p, Red, s), Fork(b, n, Red, d), h) {
      assert PathOk(LeftOf(up, g, Black, u), h);
      assert BlackHeight(Fork(s, p, Red, b), h) && BlackHeight(Fork(d, g, Red, u), h);
      Settled(up, Fork(Fork(s, p, Red, b), n, Black, Fork(d, g, Red, u)), h + 1);
    }
    if RedFault(LeftOf(RightOf(up, g, Black, u), p, Red, s), Fork(d, n, Red, b), h) {
      assert PathOk(RightOf(up, g, Black, u), h);
      assert BlackHeight(Fork(u, g, Red, d), h) && BlackHeight(Fork(b, p, Red, s), h);
      Settled(up, Fork(Fork(u, g, Red, d), n, Black, Fork(b, p, Red, s)), h + 1);
    }
  }

  // ---------- Rules kept by rebalancing an erasure ----------

  /** The rules hold but for one black node missing on every way through the hole. */
  predicate Deficit<N>(c: Path<N>, t: Shape<N>, h: int) {
    !c.Top? && !t.IsRed() && NoRedRed(t) && BlackHeight(t, h) && PathOk(c, h + 1)
  }

  function Recolored<N>(t: Shape<N>, col: Color): Shape<N> {
    if t.Nil? then t else t.(color := col)
  }

  /** The missing black node is made up for by the sibling, one step up. */
  function Lightened<N>(c: Path<N>, t: Shape<N>): Shape<N>
    requires !c.Top?
  {
    var s := Recolored(c.sibling, Red);
    if c.LeftOf? then Fork(t, c.node, Black, s) else Fork(s, c.node, Black, t)
  }

  /** The hole has a sibling, and a red sibling has two black children. */
  lemma DeficitSibling<N>(c: Path<N>, t: Shape<N>, h: int)
    requires Deficit(c, t, h)
    ensures h >= 0 && c.sibling.Fork?
    ensures c.sibling.IsRed() ==>
              && c.color.Black? && c.sibling.left.Fork? && c.sibling.right.Fork?
              && !c.sibling.left.IsRed() && !c.sibling.right.IsRed()
  {
    BlackHeightUnique(t, h);
    BlackHeightUnique(c.sibling, h + 1);
    if c.sibling.IsRed() {
      BlackHeightUnique(c.sibling.left, h + 1);
      BlackHeightUnique(c.sibling.right, h + 1);
    }
  }

  /** Case 1: after the rotation the hole has a red parent and a black sibling. */
  lemma RedSiblingRule<N>(c: Path<N>, t: Shape<N>, h: int)
    requires Deficit(c, t, h) && c.sibling.IsRed()
    ensures var s := c.sibling;
            Deficit(if c.LeftOf? then LeftOf(LeftOf(c.up, s.node, Black, s.right), c.node, Red, s.left)
                    else RightOf(RightOf(c.up, s.node, Black, s.left), c.node, Red, s.right), t, h)
  {
    DeficitSibling(c, t, h);
    var s := c.sibling;
    assert PathOk(c.up, h + 2);
    assert PathOk(LeftOf(c.up, s.node, Black, s.right), h + 1);
    assert PathOk(RightOf(c.up, s.node, Black, s.left), h + 1);
  }

  /** Case 2: the sibling turns red; a red parent settles it, a black one passes it on. */
  lemma LightenRule<N>(c: Path<N>, t: Shape<N>, h: int)
    requires Deficit(c, t, h) && !c.sibling.IsRed()
    requires c.sibling.Fork? ==> !c.sibling.left.IsRed() && !c.sibling.right.IsRed()
    ensures c.color.Red? || c.up.Top? ==> RedBlack(Plug(c.up, Lightened(c, t)))
    ensures c.color.Black? && !c.up.Top? ==> Deficit(c.up, Lightened(c, t), h + 1)
  {
    DeficitSibling(c, t, h);
    assert BlackHeight(c.sibling.(color := Red), h);
    assert PathOk(c.up, h + 1 + Weight(c.color));
    if c.color.Red? || c.up.Top? {
      Settled(c.up, Lightened(c, t), h + 1);
    }
  }

  /** Case 4: the outer nephew is red. */
  lemma OuterNephewRule<N>(c: Path<N>, t: Shape<N>, s: N, b: Shape<N>, e: Shape<N>, h: int)
    requires Deficit(c, t, h) && e.IsRed()
    ensures c.LeftOf? && c.sibling == Fork(b, s, Black, e) ==>
              RedBlack(Plug(c.up, Fork(Fork(t, c.node, Black, b), s, c.color, e.(color := Black))))
    ensures c.RightOf? && c.sibling == Fork(e, s, Black, b) ==>
              RedBlack(Plug(c.up, Fork(e.(color := Black), s, c.color, Fork(b, c.node, Black, t))))
  {
    var k := h + 1 + Weight(c.color);
    assert PathOk(c.up, k);
    if c.LeftOf? && c.sibling == Fork(b, s, Black, e) {
      assert BlackHeight(e, h) && BlackHeight(b, h) && NoRedRed(e) && NoRedRed(b);
      assert BlackHeight(e.(color := Black), h + 1) && BlackHeight(Fork(t, c.node, Black, b), h + 1);
      Settled(c.up, Fork(Fork(t, c.node, Black, b), s, c.color, e.(color := Black)), k);
    }
    if c.RightOf? && c.sibling == Fork(e, s, Black, b) {
      assert BlackHeight(e, h) && BlackHeight(b, h) && NoRedRed(e) && NoRedRed(b);
      assert BlackHeight(e.(color := Black), h + 1) && BlackHeight(Fork(b, c.node, Black, t), h + 1);
      Settled(c.up, Fork(e.(color := Black), s, c.color, Fork(b, c.node, Black, t)), k);
    }
  }

  /** Cases 3 and 4: only the inner nephew is red. */
  lemma InnerNephewRule<N>(c: Path<N>, t: Shape<N>, s: N, b: Shape<N>, n: N, d: Shape<N>, e: Shape<N>, h: int)
    requires Deficit(c, t, h) && !e.IsRed()
    ensures c.LeftOf? && c.sibling == Fork(Fork(b, n, Red, d), s, Black, e) ==>
              RedBlack(Plug(c.up, Fork(Fork(t, c.node, Black, b), n, c.color, Fork(d, s, Black, e))))
    ensures c.RightOf? && c.sibling == Fork(e, s, Black, Fork(d, n, Red, b)) ==>
              RedBlack(Plug(c.up, Fork(Fork(e, s, Black, d), n, c.color, Fork(b, c.node, Black, t))))
  {
    var k := h + 1 + Weight(c.color);
    assert PathOk(c.up, k);
    if c.LeftOf? && c.sibling == Fork(Fork(b, n, Red, d), s, Black, e) {
      assert BlackHeight(Fork(b, n, Red, d), h) && NoRedRed(Fork(b, n, Red, d));
      assert NoRedRed(Fork(t, c.node, Black, b)) && NoRedRed(Fork(d, s, Black, e));
      assert BlackHeight(Fork(t, c.node, Black, b), h + 1) && BlackHeight(Fork(d, s, Black, e), h + 1);
      Settled(c.up, Fork(Fork(t, c.node, Black, b), n, c.color, Fork(d, s, Black, e)), k);
    }
    if c.RightOf? && c.sibling == Fork(e, s, Black, Fork(d, n, Red, b)) {
      assert BlackHeight(Fork(d, n, Red, b), h) && NoRedRed(Fork(d, n, Red, b));
      assert NoRedRed(Fork(b, c.node, Black, t)) && NoRedRed(Fork(e, s, Black, d));
      assert BlackHeight(Fork(b, c.node, Black, t), h + 1) && BlackHeight(Fork(e, s, Black, d), h + 1);
      Settled(c.up, Fork(Fork(e, s, Black, d), n, c.color, Fork(b, c.node, Black, t)), k);
    }
  }

  /** A red nephew has no red children. */
  lemma InnerNephewColors<N>(c: Path<N>, t: Shape<N>, h: int)
    requires Deficit(c, t, h) && c.sibling.Fork?
    ensures c.sibling.left.IsRed() ==> !c.sibling.left.left.IsRed() && !c.sibling.left.right.IsRed()
    ensures c.sibling.right.IsRed() ==> !c.sibling.right.left.IsRed() && !c.sibling.right.right.IsRed()
  {
    assert NoRedRed(c.sibling.left) && NoRedRed(c.sibling.right);
  }

  /** Taking out a node with at most one child. */
  lemma DropRule<N>(c: Path<N>, n: N, col: Color, x: Shape<N>)
    requires RedBlack(Plug(c, Fork(Nil, n, col, x))) || RedBlack(Plug(c, Fork(x, n, col, Nil)))
    ensures x.Fork? ==> col.Black? && x.IsRed() && RedBlack(Plug(c, x.(color := Black)))
    ensures x.Nil? && (col.Red? || c.Top?) ==> RedBlack(Plug(c, Nil))
    ensures x.Nil? && col.Black? && !c.Top? ==> Deficit(c, Nil, 0)
  {
    PlugRedBlack(c, Fork(Nil, n, col, x));
    PlugRedBlack(c, Fork(x, n, col, Nil));
    assert BlackHeight(x, 0) by {
      if RedBlack(Plug(c, Fork(x, n, col, Nil))) { BlackHeightUnique(x, LeftBlacks(x)); }
    }
    BlackHeightUnique(x, 0);
    if x.Fork? {
      BlackHeightUnique(x.left, 0 - Weight(x.color));
      Settled(c, x.(color := Black), 1);
    } else if col.Red? || c.Top? {
      Settled(c, Nil, 0);
    }
  }

  lemma {:induction false} RenamedPath<N>(c: Path<N>, l: Shape<N>, col: Color, n: N, s: N, d: Path<N>, h: int)
    ensures PathOk(Compose(RightOf(c, n, col, l), d), h) == PathOk(Compose(RightOf(c, s, col, l), d), h)
  {
    if !d.Top? { RenamedPath(c, l, col, n, s, d.up, h + Weight(d.color)); }
  }

  /** Taking out a node with two children: its successor leaves its own place and takes over that of the node. */
  lemma SuccessorRule<N>(c: Path<N>, l: Shape<N>, n: N, col: Color, d: Path<N>, sub: Shape<N>)
    requires RedBlack(Plug(c, Fork(l, n, col, Plug(d, sub)))) && sub.Fork? && sub.left.Nil?
    ensures var s, x, hole := sub.node, sub.right, Compose(RightOf(c, sub.node, col, l), d);
            && Plug(hole, Recolored(x, Black)) == Plug(c, Fork(l, s, col, Plug(d, Recolored(x, Black))))
            && (x.Fork? || sub.color.Red? ==> RedBlack(Plug(hole, Recolored(x, Black))))
            && (x.Nil? && sub.color.Black? ==> Deficit(hole, Nil, 0) && hole.node == if d.Top? then s else d.node)
  {
    var s, x := sub.node, sub.right;
    var o, q := RightOf(c, n, col, l), RightOf(c, s, col, l);
    PlugCompose(o, d, sub);
    PlugRedBlack(Compose(o, d), sub);
    RenamedPath(c, l, col, n, s, d, LeftBlacks(sub));
    PlugRedBlack(Compose(q, d), sub);
    PlugCompose(q, d, Recolored(x, Black));
    DropRule(Compose(q, d), s, sub.color, x);
  }

  // ---------- Order after an erasure ----------

  /** `s` without the first occurrence of `n`. */
  ghost function Without<N>(s: seq<N>, n: N): seq<N> {
    if s == [] then [] else if s[0] == n then s[1..] else [s[0]] + Without(s[1..], n)
  }

  lemma {:induction false} WithoutMiddle<N>(a: seq<N>, n: N, b: seq<N>)
    requires n !in a
    ensures Without(a + [n] + b, n) == a + b
  {
    if a == [] {
      assert (a + [n] + b)[1..] == b;
    } else {
      WithoutMiddle(a[1..], n, b);
      assert (a + [n] + b)[1..] == a[1..] + [n] + b;
    }
  }

  lemma WithoutOnce<N>(a: seq<N>, n: N, b: seq<N>)
    requires NoRepeat(a + [n] + b)
    ensures Without(a + [n] + b, n) == a + b
  {
    assert (a + [n] + b)[|a|] == n;
    assert forall i :: 0 <= i < |a| ==> (a + [n] + b)[i] == a[i];
    WithoutMiddle(a, n, b);
  }

  lemma DropOrder<N>(c: Path<N>, l: Shape<N>, n: N, col: Color, r: Shape<N>)
    requires (l.Nil? || r.Nil?) && Distinct(Plug(c, Fork(l, n, col, r)))
    ensures Inorder(Plug(c, Recolored(if l.Nil? then r else l, col))) == Without(Inorder(Plug(c, Fork(l, n, col, r))), n)
  {
    var x := if l.Nil? then r else l;
    ForkOrder(c, l, n, col, r);
    PlugInorder(c, Recolored(x, col));
    InorderDistinct(Plug(c, Fork(l, n, col, r)));
    var a, b := Before(c) + Inorder(l), Inorder(r) + After(c);
    WithoutOnce(a, n, b);
    assert Inorder(Plug(c, Recolored(x, col))) == a + b;
  }

  lemma SuccessorOrder<N>(c: Path<N>, l: Shape<N>, n: N, col: Color, d: Path<N>, sub: Shape<N>)
    requires Distinct(Plug(c, Fork(l, n, col, Plug(d, sub)))) && sub.Fork? && sub.left.Nil? && Before(d) == []
    ensures Inorder(Plug(c, Fork(l, sub.node, col, Plug(d, Recolored(sub.right, Black))))) ==
            Without(Inorder(Plug(c, Fork(l, n, col, Plug(d, sub)))), n)
  {
    var x, q := sub.right, Plug(d, Recolored(sub.right, Black));
    SuccessorFirst(d, sub);
    var t, u := Fork(l, n, col, Plug(d, sub)), Fork(l, sub.node, col, q);
    ForkOrder(c, l, n, col, Plug(d, sub));
    ForkOrder(c, l, sub.node, col, q);
    InorderDistinct(Plug(c, t));
    WithoutOnce(Before(c) + Inorder(l), n, Inorder(Plug(d, sub)) + After(c));
    assert Inorder(Plug(c, u)) == (Before(c) + Inorder(l)) + ([sub.node] + Inorder(q) + After(c));
  }

  lemma NilOrder<N>()
    ensures Inorder<N>(Nil) == []
  {
  }

  /** The leftmost node of a tree comes first, and without it the rest follows in order. */
  lemma SuccessorFirst<N>(d: Path<N>, sub: Shape<N>)
    requires sub.Fork? && sub.left.Nil? && Before(d) == []
    ensures Inorder(Plug(d, sub)) == [sub.node] + Inorder(Plug(d, Recolored(sub.right, Black)))
  {
    PlugInorder(d, sub);
    PlugInorder(d, Recolored(sub.right, Black));
  }

  lemma ForkOrder<N>(c: Path<N>, l: Shape<N>, n: N, col: Color, r: Shape<N>)
    ensures Inorder(Plug(c, Fork(l, n, col, r))) == (Before(c) + Inorder(l)) + [n] + (Inorder(r) + After(c))
  {
    PlugInorder(c, Fork(l, n, col, r));
  }

  // ---------- Height ----------

  function Height<N>(t: Shape<N>): nat {
    match t
    case Nil => 0
    case Fork(l, _, _, r) => 1 + (if Height(l) < Height(r) then Height(r) else Height(l))
  }

  function Depth<N>(c: Path<N>): nat {
    if c.Top? then 0 else 1 + Depth(c.up)
  }

  function Pow2(n: nat): nat {
    if n == 0 then 1 else 2 * Pow2(n - 1)
  }

  lemma {:induction false} DepthWithinHeight<N>(c: Path<N>, t: Shape<N>)
    ensures Depth(c) + Height(t) <= Height(Plug(c, t))
  {
    match c
    case Top =>
    case LeftOf(up, n, col, s) => DepthWithinHeight(up, Fork(t, n, col, s));
    case RightOf(up, n, col, s) => DepthWithinHeight(up, Fork(s, n, col, t));
  }

  lemma {:induction false} Pow2Monotone(a: nat, b: nat)
    requires a <= b
    ensures 1 <= Pow2(a) <= Pow2(b)
  {
    if a < b { Pow2Monotone(a, b - 1); } else if a > 0 { Pow2Monotone(a - 1, a - 1); }
  }

  lemma {:induction false} Pow2Sum(a: nat, b: nat)
    ensures Pow2(a + b) == Pow2(a) * Pow2(b)
  {
    if b > 0 {
      Pow2Sum(a, b - 1);
      calc {
        Pow2(a + b);
        2 * Pow2(a + (b - 1));
        2 * (Pow2(a) * Pow2(b - 1));
        Pow2(a) * Pow2(b);
      }
    }
  }

  lemma {:induction false} HeightWithinBlacks<N>(t: Shape<N>, h: nat)
    requires NoRedRed(t) && BlackHeight(t, h)
    ensures Height(t) <= 2 * h + (if t.IsRed() then 1 else 0)
    ensures Pow2(h) <= |Inorder(t)| + 1
  {
    match t
    case Nil =>
    case Fork(l, _, col, r) =>
      BlackHeightUnique(l, h - Weight(col));
      HeightWithinBlacks(l, h - Weight(col));
      HeightWithinBlacks(r, h - Weight(col));
  }

  /** A red-black tree of n nodes has height at most 2 * log2(n + 1). */
  lemma HeightBound<N>(t: Shape<N>)
    requires RedBlack(t)
    ensures Pow2(Height(t)) <= (|Inorder(t)| + 1) * (|Inorder(t)| + 1)
  {
    var h := LeftBlacks(t);
    var n := |Inorder(t)| + 1;
    HeightWithinBlacks(t, h);
    Pow2Monotone(Height(t), h + h);
    Pow2Sum(h, h);
    Squares(Pow2(h), n);
  }

  lemma Squares(a: nat, b: nat)
    requires a <= b
    ensures a * a <= b * b
  {
    assert a * a <= a * b <= b * b;
  }
}
