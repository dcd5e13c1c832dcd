/** Rebalancing a red-black tree after a node was linked in (rbtree_algorithms.hpp). */
module RbInsertion {
  import opened NodeTraits
  import opened Trees
  import opened TreeGraph
  import opened Rotations
  import opened RedBlack

  /** All is well except that the red root of `t` may have a red parent. */
  ghost predicate RedRed(c: Ctx, t: Tree) {
    IsRed(t) && Balanced(t) && Takes(c, false, BH(t))
  }

  /** The subtree of the grandparent of the root of `t`. */
  ghost function Grand(c: Ctx, t: Tree): (g: Tree)
    requires !c.Top? && !c.up.Top?
    ensures g.Bin? && g.n == c.up.n
  {
    Parented(c.up, Parented(c, t))
  }

  ghost function Uncle(c: Ctx): Tree
    requires !c.Top? && !c.up.Top?
  {
    if c.up.InL? then c.up.r else c.up.l
  }

  /** Both children of the root black, the root red. */
  ghost function Flip(g: Tree): Tree
    requires g.Bin?
  {
    Bin(Blacken(g.l), g.n, true, Blacken(g.r))
  }

  /** The two rotations that end the repair: an inner one if the node and its parent lie
      on different sides, then the outer one. */
  ghost function Turned(c: Ctx, t: Tree): Tree
    requires t.Bin? && !c.Top? && !c.up.Top?
  {
    var g := Colored(Grand(c, t), true);
    if c.up.InL? then TurnR(if c.InR? then g.(l := TurnL(g.l)) else g)
    else TurnL(if c.InL? then g.(r := TurnR(g.r)) else g)
  }

  lemma FlipRedRed(c: Ctx, t: Tree)
    requires RedRed(c, t) && !c.Top? && !c.up.Top? && c.red && IsRed(Uncle(c))
    ensures RedRed(c.up.up, Flip(Grand(c, t)))
    ensures InOrder(Flip(Grand(c, t))) == InOrder(Grand(c, t))
  {
    var p, u := Parented(c, t), Uncle(c);
    assert Takes(c.up, true, BH(t));
    assert Balanced(Blacken(p)) && BH(Blacken(p)) == BH(t) + 1;
    assert Balanced(Blacken(u)) && BH(Blacken(u)) == BH(t) + 1;
    assert InOrder(Blacken(p)) == InOrder(p) && InOrder(Blacken(u)) == InOrder(u);
  }

  lemma TurnedBalanced(c: Ctx, t: Tree)
    requires RedRed(c, t) && !c.Top? && !c.up.Top? && c.red && !IsRed(Uncle(c))
    ensures Balanced(Blacken(Turned(c, t))) && Takes(c.up.up, false, BH(Blacken(Turned(c, t))))
    ensures RB(Blacken(Plug(c.up.up, Blacken(Turned(c, t)))))
  {
    assert Takes(c.up, true, BH(t));
    PlugBalanced(c.up.up, Blacken(Turned(c, t)));
  }

  lemma TurnedOrder(c: Ctx, t: Tree)
    requires t.Bin? && !c.Top? && !c.up.Top?
    ensures InOrder(Blacken(Turned(c, t))) == InOrder(Grand(c, t))
    ensures Nodes(Blacken(Turned(c, t))) == Nodes(Grand(c, t))
  {
    var g := Colored(Grand(c, t), true);
    if c.up.InL? {
      var g' := if c.InR? then g.(l := TurnL(g.l)) else g;
      if c.InR? { TurnLKeeps(g.l); }
      TurnRKeeps(g');
    } else {
      var g' := if c.InL? then g.(r := TurnR(g.r)) else g;
      if c.InL? { TurnRKeeps(g.r); }
      TurnLKeeps(g');
    }
  }

  ghost function Repainted(m: Cells, g: Node, x: Node, p: Node): Cells
    requires g in m && x in m && p in m
  {
    var m1: Cells := m[g := m[g].(red := true)];
    var m2: Cells := m1[x := m1[x].(red := false)];
    m2[p := m2[p].(red := false)]
  }

  /** What repainting the grandparent red, the uncle and the parent black does to the tree. */
  lemma Flipped(m: Cells, h: Node, c: Ctx, g: Tree, x: Node, p: Node)
    requires Zip(m, h, c, g) && g.Bin? && g.l.Bin? && g.r.Bin?
    requires (x == g.l.n && p == g.r.n) || (x == g.r.n && p == g.l.n)
    ensures g.n in m && x in m && p in m
    ensures var m' := Repainted(m, g.n, x, p); Zip(m', h, c, Flip(g)) && Reshaped(m, m', h, Foot(h, c, g))
    ensures Foot(h, c, Flip(g)) == Foot(h, c, g)
  {
    var m1: Cells := m[g.n := m[g.n].(red := true)];
    Recolored(m, m1, h, c, g, true);
    var c2 := InL(c, g.n, true, g.r);
    ZipUp(m1, h, c2, g.l);
    var m2: Cells := m1[g.l.n := m1[g.l.n].(red := false)];
    Recolored(m1, m2, h, c2, g.l, false);
    ZipUp(m2, h, c2, Blacken(g.l));
    var c3 := InR(c, Blacken(g.l), g.n, true);
    ZipUp(m2, h, c3, g.r);
    var m3: Cells := m2[g.r.n := m2[g.r.n].(red := false)];
    Recolored(m2, m3, h, c3, g.r, false);
    ZipUp(m3, h, c3, Blacken(g.r));
    assert Repainted(m, g.n, x, p) == m3;
  }

  /** The outer rotation to the right, after which the new root is painted black. */
  method RaiseLeft(T: Traits, h: Node, p: Node, q: Node, ghost c: Ctx, ghost t: Tree, ghost l: Tree)
    requires T.Valid() && LooseLeft(T.cells, h, c, t, l) && p == t.n && q == l.n
    modifies T, T.cells.Keys
    ensures T.Valid() && Zip(T.cells, h, c, Blacken(TurnR(t.(l := l)))) && T.turns == old(T.turns) + 1
    ensures Reshaped(old(T.cells), T.cells, h, Foot(h, c, t.(l := l)))
  {
    OuterRightTurn(T.cells, h, c, t, l);
    TurnRKeeps(t.(l := l));
    RotateRight(T, p, q, p.parent, h, c);
    Recolored(T.cells, T.cells[q := T.cells[q].(red := false)], h, c, TurnR(t.(l := l)), false);
    T.SetColor(q, false);
  }

  /** The final step for a parent that is a left child. */
  method FinishLeft(T: Traits, h: Node, p: Node, pParent: Node, pGrandparent: Node, ghost c: Ctx, ghost t: Tree)
    requires T.Valid() && t.Bin? && !c.Top? && c.up.InL?
    requires Zip(T.cells, h, c.up.up, Colored(Grand(c, t), true))
    requires p == t.n && pParent == c.n && pGrandparent == c.up.n
    modifies T, T.cells.Keys
    ensures T.Valid() && Zip(T.cells, h, c.up.up, Blacken(Turned(c, t)))
    ensures Reshaped(old(T.cells), T.cells, h, Foot(h, c.up.up, Colored(Grand(c, t), true)))
    ensures T.turns <= old(T.turns) + 2
  {
    ghost var up, g := c.up.up, Colored(Grand(c, t), true);
    ChildSideOf(T.cells, h, c, t, g);
    if pParent.left == p {
      Loose(T.cells, h, up, g);
      RaiseLeft(T, h, pGrandparent, pParent, up, g, g.l);
    } else {
      InnerLeftTurn(T.cells, h, up, g);
      RotateLeftNoParentFix(T, pParent, p);
      RaiseLeft(T, h, pGrandparent, p, up, g, TurnL(g.l));
    }
  }

  /** The outer rotation to the left, after which the new root is painted black. */
  method RaiseRight(T: Traits, h: Node, p: Node, q: Node, ghost c: Ctx, ghost t: Tree, ghost r: Tree)
    requires T.Valid() && LooseRight(T.cells, h, c, t, r) && p == t.n && q == r.n
    modifies T, T.cells.Keys
    ensures T.Valid() && Zip(T.cells, h, c, Blacken(TurnL(t.(r := r)))) && T.turns == old(T.turns) + 1
    ensures Reshaped(old(T.cells), T.cells, h, Foot(h, c, t.(r := r)))
  {
    OuterLeftTurn(T.cells, h, c, t, r);
    TurnLKeeps(t.(r := r));
    RotateLeft(T, p, q, p.parent, h, c);
    Recolored(T.cells, T.cells[q := T.cells[q].(red := false)], h, c, TurnL(t.(r := r)), false);
    T.SetColor(q, false);
  }

  /** The final step for a parent that is a right child. */
  method FinishRight(T: Traits, h: Node, p: Node, pParent: Node, pGrandparent: Node, ghost c: Ctx, ghost t: Tree)
    requires T.Valid() && t.Bin? && !c.Top? && c.up.InR?
    requires Zip(T.cells, h, c.up.up, Colored(Grand(c, t), true))
    requires p == t.n && pParent == c.n && pGrandparent == c.up.n
    modifies T, T.cells.Keys
    ensures T.Valid() && Zip(T.cells, h, c.up.up, Blacken(Turned(c, t)))
    ensures Reshaped(old(T.cells), T.cells, h, Foot(h, c.up.up, Colored(Grand(c, t), true)))
    ensures T.turns <= old(T.turns) + 2
  {
    ghost var up, g := c.up.up, Colored(Grand(c, t), true);
    ChildSideOf(T.cells, h, c, t, g);
    if pParent.left == p {
      InnerRightTurn(T.cells, h, up, g);
      RotateRightNoParentFix(T, pParent, p);
      RaiseRight(T, h, pGrandparent, p, up, g, TurnR(g.r));
    } else {
      Loose(T.cells, h, up, g);
      RaiseRight(T, h, pGrandparent, pParent, up, g, g.r);
    }
  }

  lemma ChildSideOf(m: Cells, h: Node, c: Ctx, t: Tree, g: Tree)
    requires t.Bin? && !c.Top? && !c.up.Top? && g == Colored(Grand(c, t), true) && Zip(m, h, c.up.up, g)
    ensures c.n in m && c.up.n in m && (m[c.n].left == t.n <==> c.InL?) && m[c.up.n].parent == Parent(c.up.up, h)
  {
    var c1 := if c.up.InL? then InL(c.up.up, g.n, true, g.r) else InR(c.up.up, g.l, g.n, true);
    ZipUp(m, h, c1, Parented(c, t));
    var c2 := if c.InL? then InL(c1, c.n, c.red, c.r) else InR(c1, c.l, c.n, c.red);
    ZipUp(m, h, c2, t);
    ChildSide(m, h, c2, t);
  }

  /** Where the repair is over: the root painted black makes a red-black tree. */
  lemma RepairOver(c: Ctx, t: Tree)
    requires RedRed(c, t) && (c.Top? || !c.red || c.up.Top?)
    ensures RB(Blacken(Plug(c, t)))
  {
    if c.Top? {
    } else if !c.red {
      PlugBalanced(c, t);
    } else {
      assert Balanced(Blacken(Parented(c, t)));
    }
  }

  /** What the loop reads: the parent, the grandparent, the parent's colour. */
  lemma Upwards(m: Cells, h: Node, c: Ctx, t: Tree)
    requires Zip(m, h, c, t) && t.Bin?
    ensures t.n in m && m[t.n].parent == Parent(c, h) && Parent(c, h) in m
    ensures (c.Top? <==> Parent(c, h) == h) && (c.Top? ==> m[h].parent == t.n)
    ensures !c.Top? ==> m[c.n].parent == Parent(c.up, h) && m[c.n].red == c.red && (c.up.Top? <==> Parent(c.up, h) == h)
  {
    if !c.Top? {
      ZipUp(m, h, c, t);
    }
  }

  /** What the loop reads at the grandparent: its left child, and its other child, the uncle. */
  lemma AtGrandparent(m: Cells, h: Node, c: Ctx, t: Tree)
    requires Zip(m, h, c, t) && t.Bin? && !c.Top? && !c.up.Top?
    ensures Zip(m, h, c.up.up, Grand(c, t)) && Foot(h, c.up.up, Grand(c, t)) == Foot(h, c, t)
    ensures c.up.n in m && (m[c.up.n].left == c.n <==> c.up.InL?)
    ensures (if c.up.InL? then m[c.up.n].right else m[c.up.n].left) == Root(Uncle(c))
    ensures c.n in m && Uncle(c).Bin? ==> Uncle(c).n in m && m[Uncle(c).n].red == Uncle(c).red
    ensures c.n != c.up.n && Uncle(c) != Grand(c, t)
  {
    ZipUp(m, h, c, t);
    ZipUp(m, h, c.up, Parented(c, t));
    ChildSide(m, h, c.up, Parented(c, t));
    assert Linked(m, Uncle(c), c.up.n);
  }

  /** Red uncle: repaint, and go on two levels up. */
  method Repaint(T: Traits, h: Node, pParent: Node, pGrandparent: Node, x: Node, ghost c: Ctx, ghost g: Tree)
    requires T.Valid() && Zip(T.cells, h, c, g) && g.Bin? && g.l.Bin? && g.r.Bin? && pGrandparent == g.n
    requires (x == g.l.n && pParent == g.r.n) || (x == g.r.n && pParent == g.l.n)
    modifies T, T.cells.Keys
    ensures T.Valid() && T.turns == old(T.turns) && Zip(T.cells, h, c, Flip(g))
      && Reshaped(old(T.cells), T.cells, h, Foot(h, c, g))
  {
    Flipped(T.cells, h, c, g, x, pParent);
    T.SetColor(pGrandparent, true);
    T.SetColor(x, false);
    T.SetColor(pParent, false);
  }

  /** Black uncle: one or two rotations end the repair. */
  method Finish(T: Traits, h: Node, p: Node, pParent: Node, pGrandparent: Node, parentIsLeft: bool, ghost c: Ctx,
      ghost t: Tree)
    requires T.Valid() && Zip(T.cells, h, c, t) && RedRed(c, t) && !c.Top? && !c.up.Top? && c.red
    requires !IsRed(Uncle(c)) && (parentIsLeft <==> c.up.InL?)
    requires p == t.n && pParent == c.n && pGrandparent == c.up.n
    modifies T, T.cells.Keys
    ensures T.Valid() && Zip(T.cells, h, c.up.up, Blacken(Turned(c, t)))
    ensures Reshaped(old(T.cells), T.cells, h, Foot(h, c, t))
    ensures T.turns <= old(T.turns) + 2
  {
    AtGrandparent(T.cells, h, c, t);
    ghost var up, g := c.up.up, Grand(c, t);
    Recolored(T.cells, T.cells[g.n := T.cells[g.n].(red := true)], h, up, g, true);
    T.SetColor(pGrandparent, true);
    if parentIsLeft {
      FinishLeft(T, h, p, pParent, pGrandparent, c, t);
    } else {
      FinishRight(T, h, p, pParent, pGrandparent, c, t);
    }
  }

  /** One turn of the repair loop: the node to go on with, or null if the repair is over. */
  method RepairStep(T: Traits, h: Node, p: Node, ghost c: Ctx, ghost t: Tree)
      returns (next: Node?, ghost c': Ctx, ghost t': Tree)
    requires T.Valid() && Zip(T.cells, h, c, t) && RedRed(c, t) && p == t.n
    modifies T, T.cells.Keys
    ensures T.Valid() && Zip(T.cells, h, c', t')
    ensures Reshaped(old(T.cells), T.cells, h, Foot(h, c, t)) && Foot(h, c', t') == Foot(h, c, t)
    ensures InOrder(Plug(c', t')) == InOrder(Plug(c, t))
    ensures next != null ==> RedRed(c', t') && next == t'.n && Depth(c') < Depth(c) && T.turns == old(T.turns)
    ensures next == null ==> RB(Blacken(Plug(c', t'))) && T.turns <= old(T.turns) + 2
  {
    next, c', t' := null, c, t;
    Upwards(T.cells, h, c, t);
    var pParent := p.parent;
    var pGrandparent := pParent.parent;
    if pParent == h || !pParent.red || pGrandparent == h {
      RepairOver(c, t);
      return;
    }
    AtGrandparent(T.cells, h, c, t);
    c' := c.up.up;
    var pGrandparentLeft := pGrandparent.left;
    var pParentIsLeftChild := pParent == pGrandparentLeft;
    var x := if pParentIsLeftChild then pGrandparent.right else pGrandparentLeft;
    if x != null && x.red {
      Repaint(T, h, pParent, pGrandparent, x, c', Grand(c, t));
      FlipRedRed(c, t);
      next, t' := pGrandparent, Flip(Grand(c, t));
    } else {
      Finish(T, h, p, pParent, pGrandparent, pParentIsLeftChild, c, t);
      TurnedBalanced(c, t);
      TurnedOrder(c, t);
      t' := Blacken(Turned(c, t));
    }
    SameInOrder(c', Grand(c, t), t');
  }

  /** Repairs the tree below `h` after the red node `p` was linked in at the end of `c`. */
  method RebalanceAfterInsertion(T: Traits, h: Node, node: Node, ghost c0: Ctx, ghost t0: Tree) returns (ghost t': Tree)
    requires T.Valid() && Zip(T.cells, h, c0, t0) && t0.Bin? && node == t0.n
    requires RedRed(c0, Colored(t0, true))
    modifies T, T.cells.Keys
    ensures T.Valid() && Zip(T.cells, h, Top, t') && RB(t')
    ensures InOrder(t') == InOrder(Plug(c0, t0))
    ensures Reshaped(old(T.cells), T.cells, h, Foot(h, c0, t0))
    ensures T.turns <= old(T.turns) + 2
  {
    var p := node;
    ghost var m0, S, c, t := T.cells, Foot(h, c0, t0), c0, Colored(t0, true);
    Recolored(m0, m0[p := m0[p].(red := true)], h, c, t0, true);
    SameInOrder(c, t0, t);
    T.SetColor(p, true);
    while true
      invariant T.Valid() && Zip(T.cells, h, c, t) && RedRed(c, t) && p == t.n
      invariant InOrder(Plug(c, t)) == InOrder(Plug(c0, t0))
      invariant Reshaped(m0, T.cells, h, S) && Foot(h, c, t) == S && T.turns == old(T.turns)
      decreases Depth(c)
    {
      var next;
      next, c, t := RepairStep(T, h, p, c, t);
      if next == null {
        break;
      }
      p := next;
    }
    ZipPlug(T.cells, h, c, t);
    t' := Plug(c, t);
    Recolored(T.cells, T.cells[t'.n := T.cells[t'.n].(red := false)], h, Top, t', false);
    T.SetColor(h.parent, false);
    t' := Blacken(t');
  }
}
