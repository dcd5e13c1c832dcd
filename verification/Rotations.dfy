/** Child replacement and rotations (bstree_algorithms.hpp). */
module Rotations {
  import opened NodeTraits
  import opened Trees
  import opened TreeGraph

  /** `m` with the link that points into the hole of `c` set to `x`. */
  ghost function WithChild(m: Cells, c: Ctx, h: Node, x: Node?): Cells
    requires Parent(c, h) in m
  {
    var p := Parent(c, h);
    match c
    case Top => m[p := m[p].(parent := x)]
    case InL(_, _, _, _) => m[p := m[p].(left := x)]
    case InR(_, _, _, _) => m[p := m[p].(right := x)]
  }

  lemma ChildReplaced(m: Cells, c: Ctx, hole: Node?, h: Node, x: Node?)
    requires h in m && Around(m, c, hole, h) && CDistinct(c) && h !in CNodes(c)
    ensures Around(WithChild(m, c, h, x), c, x, h)
  {
    var m' := WithChild(m, c, h, x);
    match c
    case Top =>
    case InL(up, n, red, r) =>
      LinkedFrame(m, m', r, n);
      AroundFrame(m, m', up, n, h);
    case InR(up, l, n, red) =>
      LinkedFrame(m, m', l, n);
      AroundFrame(m, m', up, n, h);
  }

  method SetChild(T: Traits, h: Node, newChild: Node?, newParent: Node, linkLeft: bool, ghost c: Ctx)
    requires T.Valid() && newParent in T.cells && newParent == Parent(c, h) && h !in CNodes(c)
    requires (c.InL? ==> linkLeft) && (c.InR? ==> !linkLeft)
    modifies T, T.cells.Keys
    ensures T.Valid() && T.turns == old(T.turns) && T.cells == WithChild(old(T.cells), c, h, newChild)
  {
    if newParent == h {
      T.SetParent(h, newChild);
    } else if linkLeft {
      T.SetLeft(newParent, newChild);
    } else {
      T.SetRight(newParent, newChild);
    }
  }

  /** The header, a context, two nodes and three subtrees have no node in common. */
  ghost predicate Parts(h: Node, c: Ctx, p: Node, q: Node, a: Tree, b: Tree, d: Tree) {
    && CDistinct(c) && Distinct(a) && Distinct(b) && Distinct(d)
    && p != q && h != p && h != q
    && h !in CNodes(c) && p !in CNodes(c) && q !in CNodes(c)
    && h !in Nodes(a) && p !in Nodes(a) && q !in Nodes(a) && Nodes(a) !! CNodes(c)
    && h !in Nodes(b) && p !in Nodes(b) && q !in Nodes(b) && Nodes(b) !! CNodes(c)
    && h !in Nodes(d) && p !in Nodes(d) && q !in Nodes(d) && Nodes(d) !! CNodes(c)
    && Nodes(a) !! Nodes(b) && Nodes(a) !! Nodes(d) && Nodes(b) !! Nodes(d)
  }

  lemma PartsOfLeft(h: Node, c: Ctx, p: Node, kp: bool, q: Node, kq: bool, a: Tree, b: Tree, d: Tree)
    ensures Apart(h, c, Bin(Bin(a, p, kp, b), q, kq, d)) <==> Parts(h, c, p, q, a, b, d)
  {
    assert Nodes(Bin(a, p, kp, b)) == Nodes(a) + {p} + Nodes(b);
    assert Distinct(Bin(a, p, kp, b)) <==>
      p !in Nodes(a) && p !in Nodes(b) && Nodes(a) !! Nodes(b) && Distinct(a) && Distinct(b);
  }

  lemma PartsOfRight(h: Node, c: Ctx, p: Node, kp: bool, q: Node, kq: bool, a: Tree, b: Tree, d: Tree)
    ensures Apart(h, c, Bin(a, p, kp, Bin(b, q, kq, d))) <==> Parts(h, c, p, q, a, b, d)
  {
    assert Nodes(Bin(b, q, kq, d)) == Nodes(b) + {q} + Nodes(d);
    assert Distinct(Bin(b, q, kq, d)) <==>
      q !in Nodes(b) && q !in Nodes(d) && Nodes(b) !! Nodes(d) && Distinct(b) && Distinct(d);
  }

  /** `m` after turning the edge between `p` and its right child `q`, the parent of `q` left as it was. */
  ghost function TurnedLeft(m: Cells, p: Node, q: Node): Cells
    requires p in m && q in m && (m[q].left != null ==> m[q].left in m)
  {
    var b := m[q].left;
    var m1: Cells := m[p := m[p].(right := b)];
    var m2: Cells := if b == null then m1 else var b': Node := b; m1[b' := m1[b'].(parent := p)];
    var m3: Cells := m2[q := m2[q].(left := p)];
    m3[p := m3[p].(parent := q)]
  }

  ghost function TurnedRight(m: Cells, p: Node, q: Node): Cells
    requires p in m && q in m && (m[q].right != null ==> m[q].right in m)
  {
    var b := m[q].right;
    var m1: Cells := m[p := m[p].(left := b)];
    var m2: Cells := if b == null then m1 else var b': Node := b; m1[b' := m1[b'].(parent := p)];
    var m3: Cells := m2[q := m2[q].(right := p)];
    m3[p := m3[p].(parent := q)]
  }

  method RotateLeftNoParentFix(T: Traits, p: Node, pRight: Node)
    requires T.Valid() && p in T.cells && pRight in T.cells
    requires T.cells[pRight].left != null ==> T.cells[pRight].left in T.cells
    modifies T, T.cells.Keys
    ensures T.Valid() && T.cells == TurnedLeft(old(T.cells), p, pRight) && T.turns == old(T.turns) + 1
  {
    var pRightLeft := pRight.left;
    T.SetRight(p, pRightLeft);
    if pRightLeft != null {
      T.SetParent(pRightLeft, p);
    }
    T.SetLeft(pRight, p);
    T.SetParent(p, pRight);
    T.turns := T.turns + 1;
  }

  method RotateRightNoParentFix(T: Traits, p: Node, pLeft: Node)
    requires T.Valid() && p in T.cells && pLeft in T.cells
    requires T.cells[pLeft].right != null ==> T.cells[pLeft].right in T.cells
    modifies T, T.cells.Keys
    ensures T.Valid() && T.cells == TurnedRight(old(T.cells), p, pLeft) && T.turns == old(T.turns) + 1
  {
    var pLeftRight := pLeft.right;
    T.SetLeft(p, pLeftRight);
    if pLeftRight != null {
      T.SetParent(pLeftRight, p);
    }
    T.SetRight(pLeft, p);
    T.SetParent(p, pLeft);
    T.turns := T.turns + 1;
  }

  ghost predicate ChildCell(m: Cells, n: Node, l: Tree, r: Tree, red: bool) {
    n in m && m[n].left == Root(l) && m[n].right == Root(r) && m[n].red == red && Linked(m, l, n) && Linked(m, r, n)
  }

  /** What turning an edge to the left needs: nothing about the link from `p` to `q` or back,
      nor about the link from above to `p`. */
  lemma TurnedLeftLinks(m: Cells, h: Node, c: Ctx, p: Node, kp: bool, q: Node, kq: bool, a: Tree, b: Tree, d: Tree)
    requires Parts(h, c, p, q, a, b, d) && ChildCell(m, q, b, d, kq)
    requires p in m && m[p].left == Root(a) && m[p].red == kp && Linked(m, a, p)
    ensures b.Bin? ==> b.n in m
    ensures OnlyChanged(m, TurnedLeft(m, p, q), {p, q} + Nodes(b))
    ensures Linked(TurnedLeft(m, p, q), Bin(a, p, kp, b), q)
    ensures Linked(TurnedLeft(m, p, q), d, q)
    ensures TurnedLeft(m, p, q)[q] == m[q].(left := p)
  {
    var m' := TurnedLeft(m, p, q);
    LinkedFrame(m, m', a, p);
    LinkedFrame(m, m', d, q);
    Reparented(m, m', b, q, p);
  }

  lemma TurnedRightLinks(m: Cells, h: Node, c: Ctx, p: Node, kp: bool, q: Node, kq: bool, a: Tree, b: Tree, d: Tree)
    requires Parts(h, c, q, p, a, b, d) && ChildCell(m, q, a, b, kq)
    requires p in m && m[p].right == Root(d) && m[p].red == kp && Linked(m, d, p)
    ensures b.Bin? ==> b.n in m
    ensures OnlyChanged(m, TurnedRight(m, p, q), {p, q} + Nodes(b))
    ensures Linked(TurnedRight(m, p, q), Bin(b, p, kp, d), q)
    ensures Linked(TurnedRight(m, p, q), a, q)
    ensures TurnedRight(m, p, q)[q] == m[q].(right := p)
  {
    var m' := TurnedRight(m, p, q);
    LinkedFrame(m, m', a, q);
    LinkedFrame(m, m', d, p);
    Reparented(m, m', b, q, p);
  }

  ghost function RotatedLeft(m: Cells, h: Node, c: Ctx, p: Node, q: Node): Cells
    requires p in m && q in m && (m[q].left != null ==> m[q].left in m) && Parent(c, h) in m
  {
    var m1 := TurnedLeft(m, p, q);
    WithChild(m1[q := m1[q].(parent := Parent(c, h))], c, h, q)
  }

  ghost function RotatedRight(m: Cells, h: Node, c: Ctx, p: Node, q: Node): Cells
    requires p in m && q in m && (m[q].right != null ==> m[q].right in m) && Parent(c, h) in m
  {
    var m1 := TurnedRight(m, p, q);
    WithChild(m1[q := m1[q].(parent := Parent(c, h))], c, h, q)
  }

  /** A rotation learns which link leads down to `p` by asking whether `p` is a left child. */
  ghost predicate OnItsSide(m: Cells, c: Ctx, p: Node) {
    !c.Top? ==> c.n in m && (m[c.n].left == p <==> c.InL?)
  }

  lemma AroundSide(m: Cells, h: Node, c: Ctx, p: Node)
    requires h in m && Around(m, c, p, h) && CDistinct(c) && p !in CNodes(c) && h !in CNodes(c)
    ensures OnItsSide(m, c, p) && Parent(c, h) in m
  {
  }

  method RotateLeft(T: Traits, p: Node, pRight: Node, pParent: Node, h: Node, ghost c: Ctx)
    requires T.Valid() && p in T.cells && pRight in T.cells && pParent in T.cells
    requires T.cells[pRight].left != null ==> T.cells[pRight].left in T.cells
    requires pParent == Parent(c, h) && OnItsSide(T.cells, c, p) && h !in CNodes(c)
    modifies T, T.cells.Keys
    ensures T.Valid() && T.cells == RotatedLeft(old(T.cells), h, c, p, pRight) && T.turns == old(T.turns) + 1
  {
    var pWasLeft := pParent.left == p;
    RotateLeftNoParentFix(T, p, pRight);
    T.SetParent(pRight, pParent);
    SetChild(T, h, pRight, pParent, pWasLeft, c);
  }

  method RotateRight(T: Traits, p: Node, pLeft: Node, pParent: Node, h: Node, ghost c: Ctx)
    requires T.Valid() && p in T.cells && pLeft in T.cells && pParent in T.cells
    requires T.cells[pLeft].right != null ==> T.cells[pLeft].right in T.cells
    requires pParent == Parent(c, h) && OnItsSide(T.cells, c, p) && h !in CNodes(c)
    modifies T, T.cells.Keys
    ensures T.Valid() && T.cells == RotatedRight(old(T.cells), h, c, p, pLeft) && T.turns == old(T.turns) + 1
  {
    var pWasLeft := pParent.left == p;
    RotateRightNoParentFix(T, p, pLeft);
    T.SetParent(pLeft, pParent);
    SetChild(T, h, pLeft, pParent, pWasLeft, c);
  }

  /** Hanging the turned tree `t` below the context `c`. */
  lemma Rehung(m: Cells, h: Node, c: Ctx, p: Node, t: Tree)
    requires h in m && Around(m, c, p, h) && Apart(h, c, t) && t.Bin? && t.n in m
    requires ChildCell(m, t.n, t.l, t.r, t.red)
    ensures Parent(c, h) in m
    ensures Zip(WithChild(m[t.n := m[t.n].(parent := Parent(c, h))], c, h, t.n), h, c, t)
  {
    var m1: Cells := m[t.n := m[t.n].(parent := Parent(c, h))];
    AroundFrame(m, m1, c, p, h);
    LinkedFrame(m, m1, t.l, t.n);
    LinkedFrame(m, m1, t.r, t.n);
    ChildReplaced(m1, c, p, h, t.n);
    LinkedFrame(m1, WithChild(m1, c, h, t.n), t, Parent(c, h));
  }

  /** Rotating left turns the right child of the root into the root, whatever its parent link
      and the link from `p` to it said before. */
  lemma RotatedLeftTree(m: Cells, h: Node, c: Ctx, p: Node, kp: bool, q: Node, kq: bool, a: Tree, b: Tree, d: Tree)
    requires h in m && Around(m, c, p, h) && Parts(h, c, p, q, a, b, d) && ChildCell(m, q, b, d, kq)
    requires p in m && m[p].left == Root(a) && m[p].red == kp && Linked(m, a, p)
    ensures Parent(c, h) in m && (b.Bin? ==> b.n in m)
    ensures Zip(RotatedLeft(m, h, c, p, q), h, c, Bin(Bin(a, p, kp, b), q, kq, d))
  {
    TurnedLeftLinks(m, h, c, p, kp, q, kq, a, b, d);
    var m1 := TurnedLeft(m, p, q);
    AroundFrame(m, m1, c, p, h);
    PartsOfLeft(h, c, p, kp, q, kq, a, b, d);
    Rehung(m1, h, c, p, Bin(Bin(a, p, kp, b), q, kq, d));
  }

  lemma RotatedRightTree(m: Cells, h: Node, c: Ctx, p: Node, kp: bool, q: Node, kq: bool, a: Tree, b: Tree, d: Tree)
    requires h in m && Around(m, c, p, h) && Parts(h, c, q, p, a, b, d) && ChildCell(m, q, a, b, kq)
    requires p in m && m[p].right == Root(d) && m[p].red == kp && Linked(m, d, p)
    ensures Parent(c, h) in m && (b.Bin? ==> b.n in m)
    ensures Zip(RotatedRight(m, h, c, p, q), h, c, Bin(a, q, kq, Bin(b, p, kp, d)))
  {
    TurnedRightLinks(m, h, c, p, kp, q, kq, a, b, d);
    var m1 := TurnedRight(m, p, q);
    AroundFrame(m, m1, c, p, h);
    PartsOfRight(h, c, q, kq, p, kp, a, b, d);
    Rehung(m1, h, c, p, Bin(a, q, kq, Bin(b, p, kp, d)));
  }

  lemma TurnKeeps(a: Tree, p: Node, kp: bool, b: Tree, q: Node, kq: bool, d: Tree)
    ensures InOrder(Bin(a, p, kp, Bin(b, q, kq, d))) == InOrder(Bin(Bin(a, p, kp, b), q, kq, d))
    ensures Nodes(Bin(a, p, kp, Bin(b, q, kq, d))) == Nodes(Bin(Bin(a, p, kp, b), q, kq, d))
  {
  }

  lemma TurnLKeeps(t: Tree)
    requires t.Bin? && t.r.Bin?
    ensures InOrder(TurnL(t)) == InOrder(t) && Nodes(TurnL(t)) == Nodes(t)
  {
    TurnKeeps(t.l, t.n, t.red, t.r.l, t.r.n, t.r.red, t.r.r);
  }

  lemma TurnRKeeps(t: Tree)
    requires t.Bin? && t.l.Bin?
    ensures InOrder(TurnR(t)) == InOrder(t) && Nodes(TurnR(t)) == Nodes(t)
  {
    TurnLKeeps(TurnR(t));
  }

  lemma TurnRSize(t: Tree)
    requires t.Bin? && t.l.Bin?
    ensures Size(TurnR(t)) == Size(t) && Size(TurnR(t).l) < Size(t.l)
  {
    assert Size(TurnR(t).r) == Size(t.l.r) + 1 + Size(t.r);
  }

  lemma RotatedLeftChanges(m: Cells, h: Node, c: Ctx, p: Node, q: Node)
    requires p in m && q in m && (m[q].left != null ==> m[q].left in m) && Parent(c, h) in m
    requires h in m && h !in CNodes(c) && h != p && h != q && h != m[q].left
    ensures Reshaped(m, RotatedLeft(m, h, c, p, q), h, {p, q, Parent(c, h)} + Some(m[q].left))
  {
  }

  lemma RotatedRightChanges(m: Cells, h: Node, c: Ctx, p: Node, q: Node)
    requires p in m && q in m && (m[q].right != null ==> m[q].right in m) && Parent(c, h) in m
    requires h in m && h !in CNodes(c) && h != p && h != q && h != m[q].right
    ensures Reshaped(m, RotatedRight(m, h, c, p, q), h, {p, q, Parent(c, h)} + Some(m[q].right))
  {
  }

  ghost function Some(n: Node?): set<Node> {
    if n == null then {} else {n}
  }

  /** `t` with the left subtree `p`, except that nothing is said about the link from the root
      of `t` down to `p`, or back up. */
  ghost predicate LooseLeft(m: Cells, h: Node, c: Ctx, t: Tree, p: Tree) {
    && t.Bin? && p.Bin? && Apart(h, c, t.(l := p)) && h in m && Around(m, c, t.n, h)
    && t.n in m && m[t.n].right == Root(t.r) && m[t.n].red == t.red && m[t.n].parent == Parent(c, h)
      && Linked(m, t.r, t.n)
    && ChildCell(m, p.n, p.l, p.r, p.red)
  }

  ghost predicate LooseRight(m: Cells, h: Node, c: Ctx, t: Tree, p: Tree) {
    && t.Bin? && p.Bin? && Apart(h, c, t.(r := p)) && h in m && Around(m, c, t.n, h)
    && t.n in m && m[t.n].left == Root(t.l) && m[t.n].red == t.red && m[t.n].parent == Parent(c, h)
      && Linked(m, t.l, t.n)
    && ChildCell(m, p.n, p.l, p.r, p.red)
  }

  lemma Loose(m: Cells, h: Node, c: Ctx, t: Tree)
    requires Zip(m, h, c, t) && t.Bin?
    ensures t.l.Bin? ==> LooseLeft(m, h, c, t, t.l)
    ensures t.r.Bin? ==> LooseRight(m, h, c, t, t.r)
  {
    assert Linked(m, t.l, t.n) && Linked(m, t.r, t.n);
  }

  /** A right rotation mends such a tree. */
  lemma OuterRightTurn(m: Cells, h: Node, c: Ctx, t: Tree, p: Tree)
    requires LooseLeft(m, h, c, t, p)
    ensures t.n in m
    ensures p.n in m && Parent(c, h) in m && (m[p.n].right != null ==> m[p.n].right in m)
    ensures OnItsSide(m, c, t.n) && h !in CNodes(c)
    ensures Zip(RotatedRight(m, h, c, t.n, p.n), h, c, TurnR(t.(l := p)))
    ensures Reshaped(m, RotatedRight(m, h, c, t.n, p.n), h, Foot(h, c, t.(l := p)))
  {
    PartsOfLeft(h, c, p.n, p.red, t.n, t.red, p.l, p.r, t.r);
    AroundSide(m, h, c, t.n);
    RotatedRightTree(m, h, c, t.n, t.red, p.n, p.red, p.l, p.r, t.r);
    assert p.r.Bin? ==> p.r.n in Nodes(p.r);
    RotatedRightChanges(m, h, c, t.n, p.n);
  }

  lemma OuterLeftTurn(m: Cells, h: Node, c: Ctx, t: Tree, p: Tree)
    requires LooseRight(m, h, c, t, p)
    ensures t.n in m
    ensures p.n in m && Parent(c, h) in m && (m[p.n].left != null ==> m[p.n].left in m)
    ensures OnItsSide(m, c, t.n) && h !in CNodes(c)
    ensures Zip(RotatedLeft(m, h, c, t.n, p.n), h, c, TurnL(t.(r := p)))
    ensures Reshaped(m, RotatedLeft(m, h, c, t.n, p.n), h, Foot(h, c, t.(r := p)))
  {
    PartsOfRight(h, c, t.n, t.red, p.n, p.red, t.l, p.l, p.r);
    AroundSide(m, h, c, t.n);
    RotatedLeftTree(m, h, c, t.n, t.red, p.n, p.red, t.l, p.l, p.r);
    assert p.l.Bin? ==> p.l.n in Nodes(p.l);
    RotatedLeftChanges(m, h, c, t.n, p.n);
  }

  lemma InnerLeftShape(h: Node, c: Ctx, t: Tree)
    requires Apart(h, c, t) && t.Bin? && t.l.Bin? && t.l.r.Bin?
    ensures Apart(h, c, t.(l := TurnL(t.l))) && Foot(h, c, t) == Foot(h, c, t.(l := TurnL(t.l)))
  {
    var p, q := t.l, t.l.r;
    PartsOfRight(t.n, Top, p.n, p.red, q.n, q.red, p.l, q.l, q.r);
    PartsOfLeft(t.n, Top, p.n, p.red, q.n, q.red, p.l, q.l, q.r);
    TurnLKeeps(p);
  }

  lemma InnerRightShape(h: Node, c: Ctx, t: Tree)
    requires Apart(h, c, t) && t.Bin? && t.r.Bin? && t.r.l.Bin?
    ensures Apart(h, c, t.(r := TurnR(t.r))) && Foot(h, c, t) == Foot(h, c, t.(r := TurnR(t.r)))
  {
    var p, q := t.r, t.r.l;
    PartsOfLeft(t.n, Top, q.n, q.red, p.n, p.red, q.l, q.r, p.r);
    PartsOfRight(t.n, Top, q.n, q.red, p.n, p.red, q.l, q.r, p.r);
    TurnRKeeps(p);
  }

  /** The first half: the left child of the root is turned to the left, without linking the
      result to the root. */
  lemma InnerLeftTurn(m: Cells, h: Node, c: Ctx, t: Tree)
    requires Zip(m, h, c, t) && t.Bin? && t.l.Bin? && t.l.r.Bin?
    ensures t.l.n in m && t.l.r.n in m && (m[t.l.r.n].left != null ==> m[t.l.r.n].left in m)
    ensures var m', p := TurnedLeft(m, t.l.n, t.l.r.n), TurnL(t.l);
      && LooseLeft(m', h, c, t, p)
      && Reshaped(m, m', h, Foot(h, c, t)) && Foot(h, c, t) == Foot(h, c, t.(l := p))
  {
    var c', p, q := InL(c, t.n, t.red, t.r), t.l, t.l.r;
    ZipUp(m, h, c', p);
    assert Linked(m, p, t.n) && Linked(m, q, p.n);
    PartsOfRight(h, c', p.n, p.red, q.n, q.red, p.l, q.l, q.r);
    TurnedLeftLinks(m, h, c', p.n, p.red, q.n, q.red, p.l, q.l, q.r);
    InnerLeftShape(h, c, t);
    var m' := TurnedLeft(m, p.n, q.n);
    assert {p.n, q.n} + Nodes(q.l) <= Nodes(p);
    AroundFrame(m, m', c, t.n, h);
    LinkedFrame(m, m', t.r, t.n);
  }

  lemma InnerRightTurn(m: Cells, h: Node, c: Ctx, t: Tree)
    requires Zip(m, h, c, t) && t.Bin? && t.r.Bin? && t.r.l.Bin?
    ensures t.r.n in m && t.r.l.n in m && (m[t.r.l.n].right != null ==> m[t.r.l.n].right in m)
    ensures var m', p := TurnedRight(m, t.r.n, t.r.l.n), TurnR(t.r);
      && LooseRight(m', h, c, t, p)
      && Reshaped(m, m', h, Foot(h, c, t)) && Foot(h, c, t) == Foot(h, c, t.(r := p))
  {
    var c', p, q := InR(c, t.l, t.n, t.red), t.r, t.r.l;
    ZipUp(m, h, c', p);
    assert Linked(m, p, t.n) && Linked(m, q, p.n);
    PartsOfLeft(h, c', q.n, q.red, p.n, p.red, q.l, q.r, p.r);
    TurnedRightLinks(m, h, c', p.n, p.red, q.n, q.red, q.l, q.r, p.r);
    InnerRightShape(h, c, t);
    var m' := TurnedRight(m, p.n, q.n);
    assert {p.n, q.n} + Nodes(q.r) <= Nodes(p);
    AroundFrame(m, m', c, t.n, h);
    LinkedFrame(m, m', t.l, t.n);
  }

  lemma LeftTurn(m: Cells, h: Node, c: Ctx, t: Tree)
    requires Zip(m, h, c, t) && t.Bin? && t.r.Bin?
    ensures t.n in m && t.r.n in m && Parent(c, h) in m && (m[t.r.n].left != null ==> m[t.r.n].left in m)
    ensures OnItsSide(m, c, t.n) && h !in CNodes(c)
    ensures Zip(RotatedLeft(m, h, c, t.n, t.r.n), h, c, TurnL(t))
    ensures Reshaped(m, RotatedLeft(m, h, c, t.n, t.r.n), h, Foot(h, c, t))
  {
    Loose(m, h, c, t);
    OuterLeftTurn(m, h, c, t, t.r);
  }

  lemma RightTurn(m: Cells, h: Node, c: Ctx, t: Tree)
    requires Zip(m, h, c, t) && t.Bin? && t.l.Bin?
    ensures t.n in m && t.l.n in m && Parent(c, h) in m && (m[t.l.n].right != null ==> m[t.l.n].right in m)
    ensures OnItsSide(m, c, t.n) && h !in CNodes(c)
    ensures Zip(RotatedRight(m, h, c, t.n, t.l.n), h, c, TurnR(t))
    ensures Reshaped(m, RotatedRight(m, h, c, t.n, t.l.n), h, Foot(h, c, t))
  {
    Loose(m, h, c, t);
    OuterRightTurn(m, h, c, t, t.l);
  }
}
