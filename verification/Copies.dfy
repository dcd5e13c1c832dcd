/** Copies of trees in the making, and the two ends that cloning computes on the way. */
module Copies {
  import opened NodeTraits
  import opened Trees
  import opened RedBlack

  /** Other nodes, but the same shape, keys and colours. */
  ghost predicate Copy(t: Tree, s: Tree) {
    match t
    case Leaf => s.Leaf?
    case Bin(l, n, red, r) => s.Bin? && s.n.key == n.key && s.red == red && Copy(l, s.l) && Copy(r, s.r)
  }

  /** `d` is as much of a copy of `c` as is made when the copying is at its hole: everything left of the
      path, nothing right of it. */
  ghost predicate CopyCtx(c: Ctx, d: Ctx) {
    match c
    case Top => d.Top?
    case InL(up, n, red, _) => d.InL? && d.n.key == n.key && d.red == red && d.r.Leaf? && CopyCtx(up, d.up)
    case InR(up, l, n, red) => d.InR? && d.n.key == n.key && d.red == red && Copy(l, d.l) && CopyCtx(up, d.up)
  }

  /** `s` is as much of a copy of `t` as is made when the copying is at its root. */
  ghost predicate CopyPart(t: Tree, s: Tree) {
    && t.Bin? && s.Bin? && s.n.key == t.n.key && s.red == t.red
    && (s.l.Leaf? || Copy(t.l, s.l)) && (s.r.Leaf? || (Copy(t.r, s.r) && Copy(t.l, s.l)))
  }

  lemma {:induction false} CopyOrder(t: Tree, s: Tree)
    requires Copy(t, s)
    ensures |InOrder(s)| == |InOrder(t)| && forall i :: 0 <= i < |InOrder(t)| ==> InOrder(s)[i].key == InOrder(t)[i].key
    ensures BH(s) == BH(t) && (Balanced(t) ==> Balanced(s)) && IsRed(s) == IsRed(t)
  {
    if t.Bin? {
      CopyOrder(t.l, s.l);
      CopyOrder(t.r, s.r);
    }
  }

  /** How many nodes are still to be copied outside, and inside, the subtree in focus. */
  ghost function TodoCtx(c: Ctx): nat {
    match c
    case Top => 0
    case InL(up, _, _, r) => Size(r) + TodoCtx(up)
    case InR(up, _, _, _) => TodoCtx(up)
  }

  ghost function Todo(t: Tree, s: Tree): nat {
    if t.Leaf? || s.Leaf? then 0
    else (if s.l.Leaf? then Size(t.l) else 0) + if s.r.Leaf? then Size(t.r) else 0
  }

  /** The end of the last edge to the right that a copier goes along, or `x` if there is none. */
  ghost function LastRight(t: Tree, x: Node): Node {
    if t.Leaf? then x else if t.r.Bin? then LastRight(t.r, t.r.n) else LastRight(t.l, x)
  }

  ghost predicate NoRight(t: Tree) {
    t.Bin? ==> t.r.Leaf? && NoRight(t.l)
  }

  lemma {:induction false} LastRightIn(t: Tree, x: Node)
    ensures if NoRight(t) then LastRight(t, x) == x else LastRight(t, x) in Nodes(t)
  {
    if t.Bin? {
      if t.r.Bin? {
        LastRightIn(t.r, t.r.n);
      } else {
        LastRightIn(t.l, x);
      }
    }
  }

  /** The end of the last right edge is the rightmost node exactly if there is no right edge left of the latter. */
  lemma {:induction false} LastRightIsEnd(t: Tree)
    requires Distinct(t) && t.Bin?
    ensures LastRight(t, t.n) == RightEnd(t).n <==> NoRight(RightEnd(t).l)
  {
    if t.r.Bin? {
      LastRightIsEnd(t.r);
    } else {
      LastRightIn(t.l, t.n);
    }
  }

  lemma {:induction false} CopyNoRight(t: Tree, s: Tree)
    requires Copy(t, s)
    ensures NoRight(s) <==> NoRight(t)
  {
    if t.Bin? {
      CopyNoRight(t.l, s.l);
    }
  }

  lemma {:induction false} CopyRightEnd(t: Tree, s: Tree)
    requires Copy(t, s) && t.Bin?
    ensures NoRight(RightEnd(s).l) <==> NoRight(RightEnd(t).l)
  {
    if t.r.Bin? {
      CopyRightEnd(t.r, s.r);
    } else {
      CopyNoRight(t.l, s.l);
    }
  }

  /** A tree of three nodes for which it is not. */
  lemma LastRightNotEnd(a: Node, b: Node, c: Node)
    requires b != c
    ensures var t := Bin(Bin(Leaf, a, false, Bin(Leaf, b, false, Leaf)), c, false, Leaf);
      LastRight(t, t.n) == b && RightEnd(t).n == c
  {
    var l := Bin(Leaf, a, false, Bin(Leaf, b, false, Leaf));
    assert LastRight(l, c) == LastRight(l.r, b) == b;
  }

  /** In a red-black tree it is: left of the rightmost node there is at most one node. */
  lemma {:induction false} RbLastRight(t: Tree)
    requires Balanced(t) && t.Bin?
    ensures NoRight(RightEnd(t).l)
  {
    if t.r.Bin? {
      RbLastRight(t.r);
    }
  }

  /** Nothing yet on the right of the path. */
  ghost predicate Half(d: Ctx) {
    d.Top? || (Half(d.up) && (d.InL? ==> d.r.Leaf?))
  }

  ghost predicate AllLeft(d: Ctx) {
    d.Top? || (d.InL? && AllLeft(d.up))
  }

  lemma {:induction false} CopyCtxHalf(c: Ctx, d: Ctx)
    requires CopyCtx(c, d)
    ensures Half(d)
  {
    if !c.Top? {
      CopyCtxHalf(c.up, d.up);
    }
  }

  /** The end of the last right edge above `n`, which fills the hole of `d`. */
  ghost function LastAbove(d: Ctx, n: Node, x: Node): Node {
    match d
    case Top => x
    case InL(up, p, _, _) => LastAbove(up, p, x)
    case InR(_, _, _, _) => n
  }

  lemma {:induction false} LastRightPlug(d: Ctx, s: Tree, x: Node)
    requires Half(d) && s.Bin?
    ensures LastRight(Plug(d, s), x) == LastRight(s, LastAbove(d, s.n, x))
  {
    if !d.Top? {
      LastRightPlug(d.up, Parented(d, s), x);
    }
  }

  lemma {:induction false} NoRightPlug(d: Ctx, s: Tree)
    requires Half(d) && s.Bin?
    ensures NoRight(Plug(d, s)) <==> NoRight(s) && AllLeft(d)
  {
    if !d.Top? {
      NoRightPlug(d.up, Parented(d, s));
    }
  }

  lemma {:induction false} LeftEndPlug(d: Ctx, s: Tree, s': Tree)
    requires s.Bin? && s'.Bin?
    ensures Plug(d, s).Bin? && Plug(d, s').Bin?
    ensures AllLeft(d) ==> LeftEnd(Plug(d, s)) == LeftEnd(s)
    ensures !AllLeft(d) ==> LeftEnd(Plug(d, s)).n == LeftEnd(Plug(d, s')).n
    ensures s.n == s'.n ==> Plug(d, s).n == Plug(d, s').n
    ensures LeftEnd(s).n == LeftEnd(s').n ==> LeftEnd(Plug(d, s)).n == LeftEnd(Plug(d, s')).n
  {
    if !d.Top? {
      LeftEndPlug(d.up, Parented(d, s), Parented(d, s'));
    }
  }

  lemma LastRightRoot(t: Tree)
    requires Distinct(t) && t.Bin?
    ensures LastRight(t, t.n) == t.n <==> NoRight(t)
  {
    LastRightIn(t, t.n);
    if t.r.Bin? {
      LastRightIn(t.r, t.r.n);
    } else {
      LastRightIn(t.l, t.n);
    }
  }

  /** The two ends as computed so far, for the partial copy `p`. */
  ghost predicate EndsSoFar(p: Tree, leftmost: Node, rightmost: Node) {
    p.Bin? && leftmost == LeftEnd(p).n && rightmost == LastRight(p, p.n)
  }

  /** One more node, as a left child: it is the new left end if no edge went right so far. */
  lemma LeftCopied(d: Ctx, s: Tree, n: Node, red: bool, leftmost: Node, rightmost: Node)
    requires Half(d) && s.Bin? && s.l.Leaf? && s.r.Leaf? && Distinct(Plug(d, s))
      && EndsSoFar(Plug(d, s), leftmost, rightmost)
    ensures var s' := Bin(Bin(Leaf, n, red, Leaf), s.n, s.red, Leaf); var root := Plug(d, s).n;
      EndsSoFar(Plug(d, s'), if rightmost == root then n else leftmost, rightmost) && Plug(d, s').n == root
  {
    var s' := Bin(Bin(Leaf, n, red, Leaf), s.n, s.red, Leaf);
    LeftEndPlug(d, s, s');
    LeftEndPlug(d, s', s);
    LastRightRoot(Plug(d, s));
    NoRightPlug(d, s);
    LastRightPlug(d, s, Plug(d, s).n);
    LastRightPlug(d, s', Plug(d, s).n);
  }

  /** One more node, as a right child. */
  lemma RightCopied(d: Ctx, s: Tree, n: Node, red: bool, leftmost: Node, rightmost: Node)
    requires Half(d) && s.Bin? && s.r.Leaf? && EndsSoFar(Plug(d, s), leftmost, rightmost)
    ensures var s' := Bin(s.l, s.n, s.red, Bin(Leaf, n, red, Leaf));
      EndsSoFar(Plug(d, s'), leftmost, n) && Plug(d, s').n == Plug(d, s).n
  {
    var s' := Bin(s.l, s.n, s.red, Bin(Leaf, n, red, Leaf));
    LeftEndPlug(d, s, s');
    LastRightPlug(d, s', Plug(d, s).n);
    assert LastRight(Bin(Leaf, n, red, Leaf), n) == n;
  }
}
