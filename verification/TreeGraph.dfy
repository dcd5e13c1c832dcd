/** How the links stored in nodes represent trees. */
module TreeGraph {
  import opened NodeTraits
  import opened Trees

  /** In `m`, the nodes of `t` store the links and colours of the tree `t` whose root has parent `p`. */
  ghost predicate Linked(m: Cells, t: Tree, p: Node?) {
    match t
    case Leaf => true
    case Bin(l, n, red, r) =>
      n in m && m[n] == Cell(p, Root(l), Root(r), red) && Linked(m, l, n) && Linked(m, r, n)
  }

  /** In `m`, the nodes of the context `c` below the header `h` store the links and colours of `c`
      with the node `hole` at its hole. */
  ghost predicate Around(m: Cells, c: Ctx, hole: Node?, h: Node) {
    match c
    case Top => h in m && m[h].parent == hole
    case InL(up, n, red, r) =>
      n in m && m[n] == Cell(Parent(up, h), hole, Root(r), red) && Linked(m, r, n) && Around(m, up, n, h)
    case InR(up, l, n, red) =>
      n in m && m[n] == Cell(Parent(up, h), Root(l), hole, red) && Linked(m, l, n) && Around(m, up, n, h)
  }

  /** No node of the header, the context and the subtree occurs twice. */
  ghost predicate Apart(h: Node, c: Ctx, t: Tree) {
    CDistinct(c) && Distinct(t) && CNodes(c) !! Nodes(t) && h !in CNodes(c) && h !in Nodes(t)
  }

  ghost function Foot(h: Node, c: Ctx, t: Tree): set<Node> {
    {h} + CNodes(c) + Nodes(t)
  }

  /** The links below the header `h` represent the tree `Plug(c, t)`. */
  ghost predicate Zip(m: Cells, h: Node, c: Ctx, t: Tree) {
    h in m && Apart(h, c, t) && Around(m, c, Root(t), h) && Linked(m, t, Parent(c, h))
  }

  /** First and last element of a sequence, or `h` if there is none. */
  ghost function First(s: seq<Node>, h: Node): Node {
    if s == [] then h else s[0]
  }

  ghost function Last(s: seq<Node>, h: Node): Node {
    if s == [] then h else s[|s| - 1]
  }

  /** The header `h` caches the two ends of the sequence `s`. */
  ghost predicate Ends(m: Cells, h: Node, s: seq<Node>) {
    h in m && m[h].left == First(s, h) && m[h].right == Last(s, h)
  }

  /** `h` is the header of the tree `t`. */
  ghost predicate IsTree(m: Cells, h: Node, t: Tree) {
    Zip(m, h, Top, t) && Ends(m, h, InOrder(t))
  }

  ghost predicate Same(m: Cells, m': Cells, s: set<Node>) {
    forall n <- s :: n in m ==> n in m' && m'[n] == m[n]
  }

  lemma {:induction false} LinkedFrame(m: Cells, m': Cells, t: Tree, p: Node?)
    requires Linked(m, t, p) && Same(m, m', Nodes(t))
    ensures Linked(m', t, p)
  {
    if t.Bin? {
      LinkedFrame(m, m', t.l, t.n);
      LinkedFrame(m, m', t.r, t.n);
    }
  }

  lemma {:induction false} AroundFrame(m: Cells, m': Cells, c: Ctx, hole: Node?, h: Node)
    requires Around(m, c, hole, h) && Same(m, m', CNodes(c))
    requires h in m' && h in m && m'[h].parent == m[h].parent
    ensures Around(m', c, hole, h)
  {
    match c
    case Top =>
    case InL(up, n, red, r) =>
      LinkedFrame(m, m', r, n);
      AroundFrame(m, m', up, n, h);
    case InR(up, l, n, red) =>
      LinkedFrame(m, m', l, n);
      AroundFrame(m, m', up, n, h);
  }

  lemma IsTreeFrame(m: Cells, m': Cells, h: Node, t: Tree)
    requires IsTree(m, h, t) && Same(m, m', Nodes(t) + {h})
    ensures IsTree(m', h, t)
  {
    LinkedFrame(m, m', t, h);
  }

  lemma ZipFrame(m: Cells, m': Cells, h: Node, c: Ctx, t: Tree)
    requires Zip(m, h, c, t) && Same(m, m', Foot(h, c, t))
    ensures Zip(m', h, c, t)
  {
    LinkedFrame(m, m', t, Parent(c, h));
    AroundFrame(m, m', c, Root(t), h);
  }

  lemma ZipUp(m: Cells, h: Node, c: Ctx, t: Tree)
    requires c.Top? || Zip(m, h, c, t) || Zip(m, h, c.up, Parented(c, t))
    ensures !c.Top? ==>
      Zip(m, h, c, t) && Zip(m, h, c.up, Parented(c, t)) && Foot(h, c, t) == Foot(h, c.up, Parented(c, t))
  {
  }

  lemma {:induction false} ZipPlug(m: Cells, h: Node, c: Ctx, t: Tree)
    ensures Zip(m, h, c, t) <==> Zip(m, h, Top, Plug(c, t))
    ensures Foot(h, c, t) == Foot(h, Top, Plug(c, t)) == {h} + Nodes(Plug(c, t))
  {
    if !c.Top? {
      ZipPlug(m, h, c.up, Parented(c, t));
      if Zip(m, h, c, t) || Zip(m, h, c.up, Parented(c, t)) {
        ZipUp(m, h, c, t);
      }
      PlugNodes(c, t);
    }
  }

  /** Every subtree of a linked tree is linked. */
  lemma {:induction false} LinkedPart(m: Cells, c: Ctx, s: Tree, p: Node)
    requires Linked(m, Plug(c, s), p)
    ensures Linked(m, s, Parent(c, p))
  {
    if !c.Top? {
      LinkedPart(m, c.up, Parented(c, s), p);
    }
  }

  /** All nodes of a tree are in use. */
  lemma {:induction false} LinkedIn(m: Cells, t: Tree, p: Node?)
    requires Linked(m, t, p)
    ensures Nodes(t) <= m.Keys
  {
    if t.Bin? {
      LinkedIn(m, t.l, t.n);
      LinkedIn(m, t.r, t.n);
    }
  }

  lemma {:induction false} AroundIn(m: Cells, c: Ctx, hole: Node?, h: Node)
    requires Around(m, c, hole, h)
    ensures CNodes(c) <= m.Keys
  {
    match c
    case Top =>
    case InL(up, n, red, r) =>
      LinkedIn(m, r, n);
      AroundIn(m, up, n, h);
    case InR(up, l, n, red) =>
      LinkedIn(m, l, n);
      AroundIn(m, up, n, h);
  }

  /** Giving the root of a subtree another parent. */
  lemma Reparented(m: Cells, m': Cells, t: Tree, p: Node?, q: Node?)
    requires Linked(m, t, p) && Distinct(t)
    requires t.Bin? ==> t.n in m' && m'[t.n] == m[t.n].(parent := q)
    requires forall n <- Nodes(t) :: n != Root(t) && n in m ==> n in m' && m'[n] == m[n]
    ensures Linked(m', t, q)
  {
    if t.Bin? {
      LinkedFrame(m, m', t.l, t.n);
      LinkedFrame(m, m', t.r, t.n);
    }
  }

  lemma ColoredShape(h: Node, c: Ctx, t: Tree, red: bool)
    requires t.Bin?
    ensures Apart(h, c, t) <==> Apart(h, c, Colored(t, red))
    ensures Foot(h, c, t) == Foot(h, c, Colored(t, red))
  {
    assert Distinct(t) <==> Distinct(Colored(t, red));
  }

  /** Recolouring the root of the subtree in focus. */
  lemma Recolored(m: Cells, m': Cells, h: Node, c: Ctx, t: Tree, red: bool)
    requires Zip(m, h, c, t) && t.Bin? && m' == m[t.n := m[t.n].(red := red)]
    ensures Zip(m', h, c, Colored(t, red)) && Reshaped(m, m', h, Foot(h, c, t))
    ensures Foot(h, c, t) == Foot(h, c, Colored(t, red))
  {
    ColoredShape(h, c, t, red);
    LinkedFrame(m, m', t.l, t.n);
    LinkedFrame(m, m', t.r, t.n);
    AroundFrame(m, m', c, t.n, h);
  }

  /** Recolouring a child of the root in focus, then the root. */
  lemma RecoloredRight(m: Cells, h: Node, c: Ctx, t: Tree, kr: bool, kt: bool)
    requires Zip(m, h, c, t) && t.Bin? && t.r.Bin?
    ensures t.n in m && t.r.n in m && t.n != t.r.n
    ensures var m1: Cells := m[t.r.n := m[t.r.n].(red := kr)]; var m2: Cells := m1[t.n := m1[t.n].(red := kt)];
            var t' := Bin(t.l, t.n, kt, Colored(t.r, kr));
            Zip(m2, h, c, t') && Reshaped(m, m2, h, Foot(h, c, t)) && Foot(h, c, t') == Foot(h, c, t)
  {
    var c' := InR(c, t.l, t.n, t.red);
    ZipUp(m, h, c', t.r);
    var m1: Cells := m[t.r.n := m[t.r.n].(red := kr)];
    Recolored(m, m1, h, c', t.r, kr);
    ZipUp(m1, h, c', Colored(t.r, kr));
    Recolored(m1, m1[t.n := m1[t.n].(red := kt)], h, c, Bin(t.l, t.n, t.red, Colored(t.r, kr)), kt);
  }

  lemma RecoloredLeft(m: Cells, h: Node, c: Ctx, t: Tree, kl: bool, kt: bool)
    requires Zip(m, h, c, t) && t.Bin? && t.l.Bin?
    ensures t.n in m && t.l.n in m && t.n != t.l.n
    ensures var m1: Cells := m[t.l.n := m[t.l.n].(red := kl)]; var m2: Cells := m1[t.n := m1[t.n].(red := kt)];
            var t' := Bin(Colored(t.l, kl), t.n, kt, t.r);
            Zip(m2, h, c, t') && Reshaped(m, m2, h, Foot(h, c, t)) && Foot(h, c, t') == Foot(h, c, t)
  {
    var c' := InL(c, t.n, t.red, t.r);
    ZipUp(m, h, c', t.l);
    var m1: Cells := m[t.l.n := m[t.l.n].(red := kl)];
    Recolored(m, m1, h, c', t.l, kl);
    ZipUp(m1, h, c', Colored(t.l, kl));
    Recolored(m1, m1[t.n := m1[t.n].(red := kt)], h, c, Bin(Colored(t.l, kl), t.n, t.red, t.r), kt);
  }

  /** Whether a node is a left child can be read off its parent. */
  lemma ChildSide(m: Cells, h: Node, c: Ctx, t: Tree)
    requires Zip(m, h, c, t) && t.Bin? && !c.Top?
    ensures c.n in m && (m[c.n].left == t.n <==> c.InL?) && (m[c.n].right == t.n <==> c.InR?)
  {
    assert c.InL? && c.r.Bin? ==> c.r.n in Nodes(c.r);
    assert c.InR? && c.l.Bin? ==> c.l.n in Nodes(c.l);
  }

  /** The header's links to the ends are not part of the tree below it. */
  lemma EndsSet(m: Cells, m': Cells, h: Node, c: Ctx, t: Tree)
    requires Zip(m, h, c, t) && OnlyChanged(m, m', {h}) && m'[h].parent == m[h].parent
    ensures Zip(m', h, c, t)
  {
    LinkedFrame(m, m', t, Parent(c, h));
    AroundFrame(m, m', c, Root(t), h);
  }

  lemma SameOrderFoot(h: Node, t: Tree, c: Ctx, s: Tree)
    requires InOrder(t) == InOrder(Plug(c, s))
    ensures {h} + Nodes(t) == Foot(h, c, s)
  {
    SameOrderNodes(t, c, s);
  }
}
