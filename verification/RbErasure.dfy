/** Rebalancing a red-black tree after a node was unlinked (rbtree_algorithms.hpp). */
module RbErasure {
  import opened NodeTraits
  import opened Trees
  import opened TreeGraph
  import opened Rotations
  import opened RedBlack

  /** All is well except that the paths through `t` have one black node too few; painting the
      root of `t` black, if it is red, mends that. */
  ghost predicate Short(c: Ctx, t: Tree) {
    Balanced(Blacken(t)) && Takes(c, false, BH(t) + 1) && !TopRed(c, false)
  }

  ghost function Sibling(c: Ctx): Tree
    requires !c.Top?
  {
    if c.InL? then c.r else c.l
  }

  /** The child of the sibling on the side of the hole, and the one on the other side. */
  ghost function Near(c: Ctx): Tree
    requires !c.Top? && Sibling(c).Bin?
  {
    if c.InL? then Sibling(c).l else Sibling(c).r
  }

  ghost function Far(c: Ctx): Tree
    requires !c.Top? && Sibling(c).Bin?
  {
    if c.InL? then Sibling(c).r else Sibling(c).l
  }

  /** A red sibling becomes the grandparent, the parent red. */
  ghost function SiblingUp(c: Ctx): Ctx
    requires !c.Top? && Sibling(c).Bin?
  {
    var w := Sibling(c);
    if c.InL? then InL(InL(c.up, w.n, false, w.r), c.n, true, w.l)
    else InR(InR(c.up, w.l, w.n, false), w.r, c.n, true)
  }

  /** A black sibling turned red makes the parent's subtree short instead. */
  ghost function SiblingRed(c: Ctx, t: Tree): Tree
    requires !c.Top? && Sibling(c).Bin?
  {
    var w := Sibling(c);
    if c.InL? then Bin(t, c.n, c.red, Colored(w, true)) else Bin(Colored(w, true), c.n, c.red, t)
  }

  /** A red near child of the sibling takes its place, and the sibling becomes the far child. */
  ghost function NearUp(c: Ctx): Ctx
    requires !c.Top? && Sibling(c).Bin? && Near(c).Bin?
  {
    var w := Sibling(c);
    if c.InL? then InL(c.up, c.n, c.red, TurnR(Bin(Colored(w.l, false), w.n, true, w.r)))
    else InR(c.up, TurnL(Bin(w.l, w.n, true, Colored(w.r, false))), c.n, c.red)
  }

  /** A red far child pays for the missing black node. */
  ghost function FarUp(c: Ctx, t: Tree): Tree
    requires !c.Top? && Sibling(c).Bin?
  {
    var w := Sibling(c);
    if c.InL? then TurnL(Bin(t, c.n, false, Bin(w.l, w.n, c.red, Blacken(w.r))))
    else TurnR(Bin(Bin(Blacken(w.l), w.n, c.red, w.r), c.n, false, t))
  }

  lemma HasSibling(c: Ctx, t: Tree)
    requires Short(c, t) && !c.Top?
    ensures Sibling(c).Bin?
  {
  }

  lemma SiblingUpShort(c: Ctx, t: Tree)
    requires Short(c, t) && !IsRed(t) && !c.Top? && IsRed(Sibling(c))
    ensures Short(SiblingUp(c), t) && Sibling(SiblingUp(c)).Bin? && !IsRed(Sibling(SiblingUp(c)))
  {
  }

  lemma SiblingRedShort(c: Ctx, t: Tree)
    requires Short(c, t) && !IsRed(t) && !c.Top? && Sibling(c).Bin? && !Sibling(c).red
    requires !IsRed(Near(c)) && !IsRed(Far(c))
    ensures Short(c.up, SiblingRed(c, t))
  {
    var w := Colored(Sibling(c), true);
    assert Balanced(Near(c)) && Balanced(Far(c)) && BH(Near(c)) == BH(t) && BH(Far(c)) == BH(t);
    assert t == Blacken(t) && Balanced(w) && BH(w) == BH(t);
    assert BH(SiblingRed(c, t)) + 1 == BH(t) + 1 + if c.red then 0 else 1;
    TakesBlack(c.up, c.red, BH(SiblingRed(c, t)) + 1);
    assert TopRed(c, false) == TopRed(c.up, c.red);
    assert c.up.Top? || TopRed(c.up, c.red) == TopRed(c.up, false);
    assert Balanced(Blacken(SiblingRed(c, t)));
  }

  lemma NearUpShort(c: Ctx, t: Tree)
    requires Short(c, t) && !IsRed(t) && !c.Top? && Sibling(c).Bin? && !Sibling(c).red
    requires IsRed(Near(c)) && !IsRed(Far(c))
    ensures Short(NearUp(c), t) && Sibling(NearUp(c)).Bin? && !Sibling(NearUp(c)).red && IsRed(Far(NearUp(c)))
  {
    assert Balanced(Near(c)) && Balanced(Far(c)) && BH(Near(c)) == BH(t) && BH(Far(c)) == BH(t);
    assert Balanced(Near(c).l) && Balanced(Near(c).r) && BH(Near(c).l) == BH(t) && BH(Near(c).r) == BH(t);
    var w := Sibling(c);
    var low := if c.InL? then Bin(w.l.r, w.n, true, w.r) else Bin(w.l, w.n, true, w.r.l);
    assert Balanced(low) && BH(low) == BH(t);
    assert Balanced(Sibling(NearUp(c))) && BH(Sibling(NearUp(c))) == BH(w);
  }

  lemma FarUpOver(c: Ctx, t: Tree)
    requires Short(c, t) && !IsRed(t) && !c.Top? && Sibling(c).Bin? && !Sibling(c).red && IsRed(Far(c))
    ensures RB(Plug(c.up, FarUp(c, t)))
  {
    var r, k := FarUp(c, t), BH(t) + 1;
    assert Balanced(Near(c)) && Balanced(Far(c)) && BH(Near(c)) == BH(t) && BH(Far(c)) == BH(t);
    assert t == Blacken(t) && BH(Blacken(Far(c))) == k && Balanced(Blacken(Far(c)));
    assert BH(Bin(t, c.n, false, Near(c))) == k && BH(Bin(Near(c), c.n, false, t)) == k;
    var w := if c.InL? then Bin(t, c.n, false, Near(c)) else Bin(Near(c), c.n, false, t);
    assert Balanced(w) && BH(w) == k;
    assert r == if c.InL? then Bin(w, Sibling(c).n, c.red, Blacken(Far(c)))
      else Bin(Blacken(Far(c)), Sibling(c).n, c.red, w);
    assert Balanced(r) && r.red == c.red && BH(r) == k + if c.red then 0 else 1;
    PlugBalanced(c.up, r);
    PlugRed(c.up, FarUp(c, t));
  }

  lemma BlackenOver(c: Ctx, t: Tree)
    requires Short(c, t) && (c.Top? || IsRed(t))
    ensures RB(Plug(c, Blacken(t)))
  {
    PlugBalanced(c, Blacken(t));
    PlugRed(c, Blacken(t));
  }

  /** Red sibling of a left child. */
  method LiftSiblingLeft(T: Traits, h: Node, xParent: Node, w: Node, ghost c: Ctx, ghost t: Tree)
    requires T.Valid() && Zip(T.cells, h, c, t) && c.InL? && c.r.Bin? && xParent == c.n && w == c.r.n
    modifies T, T.cells.Keys
    ensures T.Valid() && Zip(T.cells, h, SiblingUp(c), t) && T.turns == old(T.turns) + 1
    ensures Reshaped(old(T.cells), T.cells, h, Foot(h, c, t)) && Foot(h, SiblingUp(c), t) == Foot(h, c, t)
    ensures InOrder(Plug(SiblingUp(c), t)) == InOrder(Plug(c, t))
  {
    ghost var f := Bin(t, c.n, true, Colored(c.r, false));
    ZipUp(T.cells, h, c, t);
    RecoloredRight(T.cells, h, c.up, Parented(c, t), false, true);
    T.SetColor(w, false);
    T.SetColor(xParent, true);
    LeftTurn(T.cells, h, c.up, f);
    RotateLeft(T, xParent, w, xParent.parent, h, c.up);
    TurnLKeeps(f);
    SameInOrder(c.up, Parented(c, t), TurnL(f));
    ZipUp(T.cells, h, SiblingUp(c).up, Parented(SiblingUp(c), t));
    ZipUp(T.cells, h, SiblingUp(c), t);
  }

  /** Red near child of the black sibling of a left child. */
  method LiftNearLeft(T: Traits, h: Node, w: Node, wLeft: Node, ghost c: Ctx, ghost t: Tree)
    requires T.Valid() && Zip(T.cells, h, c, t) && c.InL? && c.r.Bin? && c.r.l.Bin? && w == c.r.n && wLeft == c.r.l.n
    modifies T, T.cells.Keys
    ensures T.Valid() && Zip(T.cells, h, NearUp(c), t) && T.turns == old(T.turns) + 1
    ensures Reshaped(old(T.cells), T.cells, h, Foot(h, c, t)) && Foot(h, NearUp(c), t) == Foot(h, c, t)
    ensures InOrder(Plug(NearUp(c), t)) == InOrder(Plug(c, t))
  {
    ghost var c', f := InR(c.up, t, c.n, c.red), Bin(Colored(c.r.l, false), w, true, c.r.r);
    ZipUp(T.cells, h, c, t);
    ZipUp(T.cells, h, c', c.r);
    RecoloredLeft(T.cells, h, c', c.r, false, true);
    T.SetColor(wLeft, false);
    T.SetColor(w, true);
    RightTurn(T.cells, h, c', f);
    RotateRight(T, w, wLeft, w.parent, h, c');
    TurnRKeeps(f);
    SameInOrder(c', c.r, TurnR(f));
    ZipUp(T.cells, h, c', TurnR(f));
    ZipUp(T.cells, h, NearUp(c), t);
  }

  /** Red far child of the black sibling of a left child. */
  method LiftFarLeft(T: Traits, h: Node, xParent: Node, w: Node, ghost c: Ctx, ghost t: Tree)
    requires T.Valid() && Zip(T.cells, h, c, t) && c.InL? && c.r.Bin? && xParent == c.n && w == c.r.n
    modifies T, T.cells.Keys
    ensures T.Valid() && Zip(T.cells, h, c.up, FarUp(c, t)) && T.turns == old(T.turns) + 1
    ensures Reshaped(old(T.cells), T.cells, h, Foot(h, c, t)) && Foot(h, c.up, FarUp(c, t)) == Foot(h, c, t)
    ensures InOrder(FarUp(c, t)) == InOrder(Parented(c, t)) && Linked(T.cells, t, xParent)
  {
    ghost var up, b, d := c.up, Colored(c.r, c.red), Blacken(c.r.r);
    ghost var f := Bin(t, c.n, false, b);
    ZipUp(T.cells, h, c, t);
    RecoloredRight(T.cells, h, up, Parented(c, t), c.red, false);
    T.SetColor(w, xParent.red);
    T.SetColor(xParent, false);
    PaintFarRight(T, h, w, up, f);
    f := Bin(t, c.n, false, Bin(b.l, w, b.red, d));
    LeftTurn(T.cells, h, up, f);
    RotateLeft(T, xParent, xParent.right, xParent.parent, h, up);
    TurnLKeeps(f);
    assert InOrder(d) == InOrder(c.r.r);
    assert Linked(T.cells, FarUp(c, t).l, FarUp(c, t).n);
  }

  method PaintFarRight(T: Traits, h: Node, w: Node, ghost c: Ctx, ghost f: Tree)
    requires T.Valid() && Zip(T.cells, h, c, f) && f.Bin? && f.r.Bin? && w == f.r.n
    modifies T, T.cells.Keys
    ensures T.Valid() && T.turns == old(T.turns)
      && Zip(T.cells, h, c, Bin(f.l, f.n, f.red, Bin(f.r.l, f.r.n, f.r.red, Blacken(f.r.r))))
    ensures Reshaped(old(T.cells), T.cells, h, Foot(h, c, f))
    ensures Foot(h, c, Bin(f.l, f.n, f.red, Bin(f.r.l, f.r.n, f.r.red, Blacken(f.r.r)))) == Foot(h, c, f)
  {
    FarRightPainted(T.cells, h, c, f);
    var newWright := w.right;
    if newWright != null {
      T.SetColor(newWright, false);
    }
  }

  /** Red sibling of a right child. */
  method LiftSiblingRight(T: Traits, h: Node, xParent: Node, w: Node, ghost c: Ctx, ghost t: Tree)
    requires T.Valid() && Zip(T.cells, h, c, t) && c.InR? && c.l.Bin? && xParent == c.n && w == c.l.n
    modifies T, T.cells.Keys
    ensures T.Valid() && Zip(T.cells, h, SiblingUp(c), t) && T.turns == old(T.turns) + 1
    ensures Reshaped(old(T.cells), T.cells, h, Foot(h, c, t)) && Foot(h, SiblingUp(c), t) == Foot(h, c, t)
    ensures InOrder(Plug(SiblingUp(c), t)) == InOrder(Plug(c, t))
  {
    ghost var f := Bin(Colored(c.l, false), c.n, true, t);
    ZipUp(T.cells, h, c, t);
    RecoloredLeft(T.cells, h, c.up, Parented(c, t), false, true);
    T.SetColor(w, false);
    T.SetColor(xParent, true);
    RightTurn(T.cells, h, c.up, f);
    RotateRight(T, xParent, w, xParent.parent, h, c.up);
    TurnRKeeps(f);
    SameInOrder(c.up, Parented(c, t), TurnR(f));
    ZipUp(T.cells, h, SiblingUp(c).up, Parented(SiblingUp(c), t));
    ZipUp(T.cells, h, SiblingUp(c), t);
  }

  /** Red near child of the black sibling of a right child. */
  method LiftNearRight(T: Traits, h: Node, w: Node, wRight: Node, ghost c: Ctx, ghost t: Tree)
    requires T.Valid() && Zip(T.cells, h, c, t) && c.InR? && c.l.Bin? && c.l.r.Bin? && w == c.l.n && wRight == c.l.r.n
    modifies T, T.cells.Keys
    ensures T.Valid() && Zip(T.cells, h, NearUp(c), t) && T.turns == old(T.turns) + 1
    ensures Reshaped(old(T.cells), T.cells, h, Foot(h, c, t)) && Foot(h, NearUp(c), t) == Foot(h, c, t)
    ensures InOrder(Plug(NearUp(c), t)) == InOrder(Plug(c, t))
  {
    ghost var c', f := InL(c.up, c.n, c.red, t), Bin(c.l.l, w, true, Colored(c.l.r, false));
    ZipUp(T.cells, h, c, t);
    ZipUp(T.cells, h, c', c.l);
    RecoloredRight(T.cells, h, c', c.l, false, true);
    T.SetColor(wRight, false);
    T.SetColor(w, true);
    LeftTurn(T.cells, h, c', f);
    RotateLeft(T, w, wRight, w.parent, h, c');
    TurnLKeeps(f);
    SameInOrder(c', c.l, TurnL(f));
    ZipUp(T.cells, h, c', TurnL(f));
    ZipUp(T.cells, h, NearUp(c), t);
  }

  /** Red far child of the black sibling of a right child. */
  method LiftFarRight(T: Traits, h: Node, xParent: Node, w: Node, ghost c: Ctx, ghost t: Tree)
    requires T.Valid() && Zip(T.cells, h, c, t) && c.InR? && c.l.Bin? && xParent == c.n && w == c.l.n
    modifies T, T.cells.Keys
    ensures T.Valid() && Zip(T.cells, h, c.up, FarUp(c, t)) && T.turns == old(T.turns) + 1
    ensures Reshaped(old(T.cells), T.cells, h, Foot(h, c, t)) && Foot(h, c.up, FarUp(c, t)) == Foot(h, c, t)
    ensures InOrder(FarUp(c, t)) == InOrder(Parented(c, t)) && Linked(T.cells, t, xParent)
  {
    ghost var up, b, d := c.up, Colored(c.l, c.red), Blacken(c.l.l);
    ghost var f := Bin(b, c.n, false, t);
    ZipUp(T.cells, h, c, t);
    RecoloredLeft(T.cells, h, up, Parented(c, t), c.red, false);
    T.SetColor(w, xParent.red);
    T.SetColor(xParent, false);
    PaintFarLeft(T, h, w, up, f);
    f := Bin(Bin(d, w, b.red, b.r), c.n, false, t);
    RightTurn(T.cells, h, up, f);
    RotateRight(T, xParent, xParent.left, xParent.parent, h, up);
    TurnRKeeps(f);
    assert InOrder(d) == InOrder(c.l.l);
    assert Linked(T.cells, FarUp(c, t).r, FarUp(c, t).n);
  }

  method PaintFarLeft(T: Traits, h: Node, w: Node, ghost c: Ctx, ghost f: Tree)
    requires T.Valid() && Zip(T.cells, h, c, f) && f.Bin? && f.l.Bin? && w == f.l.n
    modifies T, T.cells.Keys
    ensures T.Valid() && T.turns == old(T.turns)
      && Zip(T.cells, h, c, Bin(Bin(Blacken(f.l.l), f.l.n, f.l.red, f.l.r), f.n, f.red, f.r))
    ensures Reshaped(old(T.cells), T.cells, h, Foot(h, c, f))
    ensures Foot(h, c, Bin(Bin(Blacken(f.l.l), f.l.n, f.l.red, f.l.r), f.n, f.red, f.r)) == Foot(h, c, f)
  {
    FarLeftPainted(T.cells, h, c, f);
    var newWleft := w.left;
    if newWleft != null {
      T.SetColor(newWleft, false);
    }
  }

  ghost function Painted(m: Cells, n: Node?): Cells
    requires n != null ==> n in m
  {
    if n == null then m else var n': Node := n; m[n' := m[n'].(red := false)]
  }

  lemma RootPainted(m: Cells, h: Node, c: Ctx, t: Tree)
    requires Zip(m, h, c, t)
    ensures t.Bin? ==> t.n in m
    ensures Zip(Painted(m, Root(t)), h, c, Blacken(t)) && Foot(h, c, Blacken(t)) == Foot(h, c, t)
    ensures Reshaped(m, Painted(m, Root(t)), h, Foot(h, c, t))
  {
    if t.Bin? {
      Recolored(m, Painted(m, Root(t)), h, c, t, false);
    }
  }

  lemma FarLeftPainted(m: Cells, h: Node, c: Ctx, f: Tree)
    requires Zip(m, h, c, f) && f.Bin? && f.l.Bin?
    ensures f.l.n in m && m[f.l.n].left == Root(f.l.l) && (f.l.l.Bin? ==> f.l.l.n in m)
    ensures var f', m' := Bin(Bin(Blacken(f.l.l), f.l.n, f.l.red, f.l.r), f.n, f.red, f.r), Painted(m, Root(f.l.l));
      Zip(m', h, c, f') && Reshaped(m, m', h, Foot(h, c, f)) && Foot(h, c, f') == Foot(h, c, f)
  {
    var c1 := InL(c, f.n, f.red, f.r);
    var c2 := InL(c1, f.l.n, f.l.red, f.l.r);
    ZipUp(m, h, c1, f.l);
    ZipUp(m, h, c2, f.l.l);
    RootPainted(m, h, c2, f.l.l);
    ZipUp(Painted(m, Root(f.l.l)), h, c2, Blacken(f.l.l));
    ZipUp(Painted(m, Root(f.l.l)), h, c1, Bin(Blacken(f.l.l), f.l.n, f.l.red, f.l.r));
  }

  lemma FarRightPainted(m: Cells, h: Node, c: Ctx, f: Tree)
    requires Zip(m, h, c, f) && f.Bin? && f.r.Bin?
    ensures f.r.n in m && m[f.r.n].right == Root(f.r.r) && (f.r.r.Bin? ==> f.r.r.n in m)
    ensures var f', m' := Bin(f.l, f.n, f.red, Bin(f.r.l, f.r.n, f.r.red, Blacken(f.r.r))), Painted(m, Root(f.r.r));
      Zip(m', h, c, f') && Reshaped(m, m', h, Foot(h, c, f)) && Foot(h, c, f') == Foot(h, c, f)
  {
    var c1 := InR(c, f.l, f.n, f.red);
    var c2 := InR(c1, f.r.l, f.r.n, f.r.red);
    ZipUp(m, h, c1, f.r);
    ZipUp(m, h, c2, f.r.r);
    RootPainted(m, h, c2, f.r.r);
    ZipUp(Painted(m, Root(f.r.r)), h, c2, Blacken(f.r.r));
    ZipUp(Painted(m, Root(f.r.r)), h, c1, Bin(f.r.l, f.r.n, f.r.red, Blacken(f.r.r)));
  }

  /** What the loop reads around the hole. */
  lemma Family(m: Cells, h: Node, c: Ctx, t: Tree)
    requires Zip(m, h, c, t) && Short(c, t) && !c.Top?
    ensures c.n in m && m[c.n].parent == Parent(c.up, h)
    ensures Sibling(c).Bin? && Sibling(c).n in m && m[Sibling(c).n].red == Sibling(c).red
    ensures (m[c.n].left == Root(t) <==> c.InL?) && Root(Sibling(c)) == if c.InL? then m[c.n].right else m[c.n].left
    ensures m[Sibling(c).n].left == Root(Sibling(c).l) && m[Sibling(c).n].right == Root(Sibling(c).r)
    ensures var w := Sibling(c); w.l.Bin? ==> w.l.n in m && m[w.l.n].red == w.l.red
    ensures var w := Sibling(c); w.r.Bin? ==> w.r.n in m && m[w.r.n].red == w.r.red
  {
    var w := Sibling(c);
    HasSibling(c, t);
    assert Linked(m, w, c.n) && Linked(m, w.l, w.n) && Linked(m, w.r, w.n);
    assert w.n in Nodes(w) && (t.Bin? ==> t.n in Nodes(t));
  }

  /** Both children of the black sibling are black or absent: the sibling turns red. */
  method PaintSibling(T: Traits, h: Node, w: Node, ghost c: Ctx, ghost t: Tree)
    requires T.Valid() && Zip(T.cells, h, c, t) && !c.Top? && Sibling(c).Bin? && w == Sibling(c).n
    modifies T, T.cells.Keys
    ensures T.Valid() && T.turns == old(T.turns) && Zip(T.cells, h, c.up, SiblingRed(c, t))
    ensures Reshaped(old(T.cells), T.cells, h, Foot(h, c, t)) && Foot(h, c.up, SiblingRed(c, t)) == Foot(h, c, t)
    ensures InOrder(SiblingRed(c, t)) == InOrder(Parented(c, t))
  {
    ghost var c' := if c.InL? then InR(c.up, t, c.n, c.red) else InL(c.up, c.n, c.red, t);
    ZipUp(T.cells, h, c, t);
    ZipUp(T.cells, h, c', Sibling(c));
    Recolored(T.cells, T.cells[w := T.cells[w].(red := true)], h, c', Sibling(c), true);
    T.SetColor(w, true);
    ZipUp(T.cells, h, c', Colored(Sibling(c), true));
  }

  /** A black sibling of a left child with a red far child ends the repair. */
  method PayLeft(T: Traits, h: Node, xParent: Node, w: Node, ghost c: Ctx, ghost t: Tree)
    requires T.Valid() && Zip(T.cells, h, c, t) && Short(c, t) && !IsRed(t) && c.InL? && xParent == c.n
    requires c.r.Bin? && !c.r.red && w == c.r.n && IsRed(c.r.r)
    modifies T, T.cells.Keys
    ensures T.Valid() && Zip(T.cells, h, c.up, FarUp(c, t)) && RB(Plug(c.up, FarUp(c, t)))
    ensures Reshaped(old(T.cells), T.cells, h, Foot(h, c, t)) && Foot(h, c.up, FarUp(c, t)) == Foot(h, c, t)
    ensures InOrder(Plug(c.up, FarUp(c, t))) == InOrder(Plug(c, t))
    ensures T.turns == old(T.turns) + 1 && Linked(T.cells, t, xParent)
  {
    LiftFarLeft(T, h, xParent, w, c, t);
    FarUpOver(c, t);
    SameInOrder(c.up, Parented(c, t), FarUp(c, t));
  }

  /** A red near child first takes the place of the sibling, so that the far child is red. */
  method TurnLeft(T: Traits, h: Node, xParent: Node, w: Node, ghost c: Ctx, ghost t: Tree) returns (w': Node)
    requires T.Valid() && Zip(T.cells, h, c, t) && Short(c, t) && !IsRed(t) && c.InL? && xParent == c.n
    requires c.r.Bin? && !c.r.red && w == c.r.n && IsRed(c.r.l) && !IsRed(c.r.r)
    modifies T, T.cells.Keys
    ensures T.Valid() && Zip(T.cells, h, NearUp(c), t) && Short(NearUp(c), t) && T.turns == old(T.turns) + 1
    ensures Reshaped(old(T.cells), T.cells, h, Foot(h, c, t)) && Foot(h, NearUp(c), t) == Foot(h, c, t)
    ensures InOrder(Plug(NearUp(c), t)) == InOrder(Plug(c, t))
    ensures var c' := NearUp(c); c'.r.Bin? && !c'.r.red && w' == c'.r.n && IsRed(c'.r.r)
  {
    Family(T.cells, h, c, t);
    LiftNearLeft(T, h, w, w.left, c, t);
    NearUpShort(c, t);
    Family(T.cells, h, NearUp(c), t);
    w' := xParent.right;
  }

  /** A black sibling without a red child turns red, and the parent's subtree is short instead. */
  method PassLeft(T: Traits, h: Node, w: Node, ghost c: Ctx, ghost t: Tree)
    requires T.Valid() && Zip(T.cells, h, c, t) && Short(c, t) && !IsRed(t) && c.InL?
    requires c.r.Bin? && !c.r.red && w == c.r.n && !IsRed(c.r.l) && !IsRed(c.r.r)
    modifies T, T.cells.Keys
    ensures T.Valid() && Zip(T.cells, h, c.up, SiblingRed(c, t)) && Short(c.up, SiblingRed(c, t))
    ensures T.turns == old(T.turns)
    ensures Reshaped(old(T.cells), T.cells, h, Foot(h, c, t)) && Foot(h, c.up, SiblingRed(c, t)) == Foot(h, c, t)
    ensures InOrder(Plug(c.up, SiblingRed(c, t))) == InOrder(Plug(c, t))
  {
    PaintSibling(T, h, w, c, t);
    SiblingRedShort(c, t);
    SameInOrder(c.up, Parented(c, t), SiblingRed(c, t));
  }

  /** One turn of the loop for a left child whose sibling is black. */
  method MendLeft(T: Traits, h: Node, xParent: Node, sibling: Node, ghost c: Ctx, ghost t: Tree)
      returns (done: bool, ghost c': Ctx, ghost t': Tree)
    requires T.Valid() && Zip(T.cells, h, c, t) && Short(c, t) && !IsRed(t) && c.InL? && xParent == c.n
    requires c.r.Bin? && !c.r.red && sibling == c.r.n
    modifies T, T.cells.Keys
    ensures T.Valid() && Zip(T.cells, h, c', t')
    ensures Reshaped(old(T.cells), T.cells, h, Foot(h, c, t)) && Foot(h, c', t') == Foot(h, c, t)
    ensures InOrder(Plug(c', t')) == InOrder(Plug(c, t))
    ensures !done ==>
      Short(c', t') && c' == c.up && t'.Bin? && t'.n == xParent && t'.red == c.red && T.turns == old(T.turns)
    ensures done ==> RB(Plug(c', t')) && T.turns <= old(T.turns) + 2 && Linked(T.cells, t, xParent)
  {
    Family(T.cells, h, c, t);
    var w := sibling;
    if (w.left == null || !w.left.red) && (w.right == null || !w.right.red) {
      PassLeft(T, h, w, c, t);
      return false, c.up, SiblingRed(c, t);
    }
    c' := c;
    if w.right == null || !w.right.red {
      w := TurnLeft(T, h, xParent, w, c, t);
      c' := NearUp(c);
    }
    PayLeft(T, h, xParent, w, c', t);
    done, c', t' := true, c'.up, FarUp(c', t);
  }

  /** A black sibling of a right child with a red far child ends the repair. */
  method PayRight(T: Traits, h: Node, xParent: Node, w: Node, ghost c: Ctx, ghost t: Tree)
    requires T.Valid() && Zip(T.cells, h, c, t) && Short(c, t) && !IsRed(t) && c.InR? && xParent == c.n
    requires c.l.Bin? && !c.l.red && w == c.l.n && IsRed(c.l.l)
    modifies T, T.cells.Keys
    ensures T.Valid() && Zip(T.cells, h, c.up, FarUp(c, t)) && RB(Plug(c.up, FarUp(c, t)))
    ensures Reshaped(old(T.cells), T.cells, h, Foot(h, c, t)) && Foot(h, c.up, FarUp(c, t)) == Foot(h, c, t)
    ensures InOrder(Plug(c.up, FarUp(c, t))) == InOrder(Plug(c, t))
    ensures T.turns == old(T.turns) + 1 && Linked(T.cells, t, xParent)
  {
    LiftFarRight(T, h, xParent, w, c, t);
    FarUpOver(c, t);
    SameInOrder(c.up, Parented(c, t), FarUp(c, t));
  }

  /** A red near child first takes the place of the sibling, so that the far child is red. */
  method TurnRight(T: Traits, h: Node, xParent: Node, w: Node, ghost c: Ctx, ghost t: Tree) returns (w': Node)
    requires T.Valid() && Zip(T.cells, h, c, t) && Short(c, t) && !IsRed(t) && c.InR? && xParent == c.n
    requires c.l.Bin? && !c.l.red && w == c.l.n && IsRed(c.l.r) && !IsRed(c.l.l)
    modifies T, T.cells.Keys
    ensures T.Valid() && Zip(T.cells, h, NearUp(c), t) && Short(NearUp(c), t) && T.turns == old(T.turns) + 1
    ensures Reshaped(old(T.cells), T.cells, h, Foot(h, c, t)) && Foot(h, NearUp(c), t) == Foot(h, c, t)
    ensures InOrder(Plug(NearUp(c), t)) == InOrder(Plug(c, t))
    ensures var c' := NearUp(c); c'.l.Bin? && !c'.l.red && w' == c'.l.n && IsRed(c'.l.l)
  {
    Family(T.cells, h, c, t);
    LiftNearRight(T, h, w, w.right, c, t);
    NearUpShort(c, t);
    Family(T.cells, h, NearUp(c), t);
    w' := xParent.left;
  }

  /** A black sibling without a red child turns red, and the parent's subtree is short instead. */
  method PassRight(T: Traits, h: Node, w: Node, ghost c: Ctx, ghost t: Tree)
    requires T.Valid() && Zip(T.cells, h, c, t) && Short(c, t) && !IsRed(t) && c.InR?
    requires c.l.Bin? && !c.l.red && w == c.l.n && !IsRed(c.l.l) && !IsRed(c.l.r)
    modifies T, T.cells.Keys
    ensures T.Valid() && Zip(T.cells, h, c.up, SiblingRed(c, t)) && Short(c.up, SiblingRed(c, t))
    ensures T.turns == old(T.turns)
    ensures Reshaped(old(T.cells), T.cells, h, Foot(h, c, t)) && Foot(h, c.up, SiblingRed(c, t)) == Foot(h, c, t)
    ensures InOrder(Plug(c.up, SiblingRed(c, t))) == InOrder(Plug(c, t))
  {
    PaintSibling(T, h, w, c, t);
    SiblingRedShort(c, t);
    SameInOrder(c.up, Parented(c, t), SiblingRed(c, t));
  }

  /** One turn of the loop for a right child whose sibling is black. */
  method MendRight(T: Traits, h: Node, xParent: Node, sibling: Node, ghost c: Ctx, ghost t: Tree)
      returns (done: bool, ghost c': Ctx, ghost t': Tree)
    requires T.Valid() && Zip(T.cells, h, c, t) && Short(c, t) && !IsRed(t) && c.InR? && xParent == c.n
    requires c.l.Bin? && !c.l.red && sibling == c.l.n
    modifies T, T.cells.Keys
    ensures T.Valid() && Zip(T.cells, h, c', t')
    ensures Reshaped(old(T.cells), T.cells, h, Foot(h, c, t)) && Foot(h, c', t') == Foot(h, c, t)
    ensures InOrder(Plug(c', t')) == InOrder(Plug(c, t))
    ensures !done ==>
      Short(c', t') && c' == c.up && t'.Bin? && t'.n == xParent && t'.red == c.red && T.turns == old(T.turns)
    ensures done ==> RB(Plug(c', t')) && T.turns <= old(T.turns) + 2 && Linked(T.cells, t, xParent)
  {
    Family(T.cells, h, c, t);
    var w := sibling;
    if (w.right == null || !w.right.red) && (w.left == null || !w.left.red) {
      PassRight(T, h, w, c, t);
      return false, c.up, SiblingRed(c, t);
    }
    c' := c;
    if w.left == null || !w.left.red {
      w := TurnRight(T, h, xParent, w, c, t);
      c' := NearUp(c);
    }
    PayRight(T, h, xParent, w, c', t);
    done, c', t' := true, c'.up, FarUp(c', t);
  }

  /** One turn of the loop. A red sibling is first made the grandparent; the turn then ends
      with the parent, which is red, so that the loop stops. */
  method MendStep(T: Traits, h: Node, x: Node?, xParent: Node, ghost c: Ctx, ghost t: Tree)
      returns (done: bool, ghost c': Ctx, ghost t': Tree)
    requires T.Valid() && Zip(T.cells, h, c, t) && Short(c, t) && !IsRed(t) && !c.Top? && xParent == c.n && x == Root(t)
    modifies T, T.cells.Keys
    ensures T.Valid() && Zip(T.cells, h, c', t')
    ensures Reshaped(old(T.cells), T.cells, h, Foot(h, c, t)) && Foot(h, c', t') == Foot(h, c, t)
    ensures InOrder(Plug(c', t')) == InOrder(Plug(c, t))
    ensures !done ==> Short(c', t') && t'.Bin? && t'.n == xParent
    ensures !done ==>
      if IsRed(t') then Depth(c') <= Depth(c) && T.turns <= old(T.turns) + 1
      else Depth(c') < Depth(c) && T.turns == old(T.turns)
    ensures done ==> RB(Plug(c', t')) && T.turns <= old(T.turns) + 3 && Linked(T.cells, t, xParent)
  {
    ghost var c1 := c;
    Family(T.cells, h, c, t);
    if x == xParent.left {
      var w := xParent.right;
      if w.red {
        LiftSiblingLeft(T, h, xParent, w, c, t);
        SiblingUpShort(c, t);
        c1 := SiblingUp(c);
        Family(T.cells, h, c1, t);
        w := xParent.right;
      }
      done, c', t' := MendLeft(T, h, xParent, w, c1, t);
    } else {
      var w := xParent.left;
      if w.red {
        LiftSiblingRight(T, h, xParent, w, c, t);
        SiblingUpShort(c, t);
        c1 := SiblingUp(c);
        Family(T.cells, h, c1, t);
        w := xParent.left;
      }
      done, c', t' := MendRight(T, h, xParent, w, c1, t);
    }
  }

  /** Repairs the tree below `h` after a black node was unlinked at the end of `c`.
      The loop goes on by the depth of `x_parent`, then by whether `x` is black. */
  method RestoreInvariants(T: Traits, h: Node, x0: Node?, xParent0: Node, ghost c0: Ctx, ghost t0: Tree)
      returns (ghost t': Tree)
    requires T.Valid() && Zip(T.cells, h, c0, t0) && Short(c0, t0) && x0 == Root(t0) && xParent0 == Parent(c0, h)
    modifies T, T.cells.Keys
    ensures T.Valid() && Zip(T.cells, h, Top, t') && RB(t')
    ensures InOrder(t') == InOrder(Plug(c0, t0))
    ensures Reshaped(old(T.cells), T.cells, h, Foot(h, c0, t0))
    ensures T.turns <= old(T.turns) + 3
  {
    var x, xParent := x0, xParent0;
    ghost var m0, S, c, t, over := T.cells, Foot(h, c0, t0), c0, t0, false;
    while true
      invariant T.Valid() && Zip(T.cells, h, c, t) && Short(c, t) && x == Root(t) && xParent == Parent(c, h)
      invariant InOrder(Plug(c, t)) == InOrder(Plug(c0, t0))
      invariant Reshaped(m0, T.cells, h, S) && Foot(h, c, t) == S
      invariant !over && (T.turns == old(T.turns) || (T.turns <= old(T.turns) + 1 && IsRed(t)))
      decreases Depth(c), !IsRed(t)
    {
      if xParent == h || (x != null && x.red) {
        break;
      }
      var done;
      done, c, t := MendStep(T, h, x, xParent, c, t);
      if done {
        over := true;
        break;
      }
      x := xParent;
      xParent := x.parent;
    }
    t' := PaintLast(T, h, x, over, c, t);
  }

  /** After the loop `x`, if any, is painted black; that changes nothing if rotations ended the repair. */
  method PaintLast(T: Traits, h: Node, x: Node?, ghost over: bool, ghost c: Ctx, ghost t: Tree) returns (ghost t': Tree)
    requires T.Valid() && Zip(T.cells, h, c, t)
    requires over ==> RB(Plug(c, t)) && (x != null ==> x in T.cells && !T.cells[x].red)
    requires !over ==> Short(c, t) && (c.Top? || IsRed(t)) && x == Root(t)
    modifies T, T.cells.Keys
    ensures T.Valid() && T.turns == old(T.turns) && Zip(T.cells, h, Top, t') && RB(t')
    ensures InOrder(t') == InOrder(Plug(c, t))
    ensures Reshaped(old(T.cells), T.cells, h, Foot(h, c, t))
  {
    ghost var u := if over then t else Blacken(t);
    if x != null {
      if !over {
        Recolored(T.cells, T.cells[x := T.cells[x].(red := false)], h, c, t, false);
      } else {
        assert T.cells[x := T.cells[x].(red := false)] == T.cells;
      }
      T.SetColor(x, false);
    }
    if !over {
      BlackenOver(c, t);
      SameInOrder(c, t, u);
    }
    ZipPlug(T.cells, h, c, u);
    t' := Plug(c, u);
  }
}
