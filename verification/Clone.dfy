/** Cloning a tree without a stack (bstree_algorithms.hpp, rbtree_algorithms.hpp). */
module Clone {
  import opened NodeTraits
  import opened Trees
  import opened TreeGraph
  import opened RbTree
  import opened Copies
  import opened Disposal

  /** All that was there is as it was; the new nodes are new. */
  ghost predicate Grown(m0: Cells, m: Cells) {
    forall n <- m0 :: n in m && m[n] == m0[n]
  }

  /** `m`, but with the root of the copy already below its header. */
  ghost function Rooted(m: Cells, h: Node, root: Node): Cells
    requires h in m
  {
    m[h := m[h].(parent := root)]
  }

  /** The copying is at the root of `t` in the source, and has made `Plug(d, s)` so far. */
  ghost predicate Cloning(m0: Cells, m: Cells, h1: Node, h2: Node, root: Node, c: Ctx, t: Tree, d: Ctx, s: Tree) {
    && Grown(m0, m) && h2 in m0
    && Zip(m0, h1, c, t) && CopyCtx(c, d) && CopyPart(t, s)
    && Zip(Rooted(m, h2, root), h2, d, s) && Plug(d, s).Bin? && Plug(d, s).n == root
    && (CNodes(d) + Nodes(s)) !! m0.Keys
  }

  /** The user's cloner, and the colour. */
  method CloneNode(T: Traits, p: Node) returns (n: Node)
    requires T.Valid() && p in T.cells
    modifies T
    ensures T.Valid() && fresh(n) && n.key == p.key && n !in old(T.cells)
    ensures T.cells == old(T.cells)[n := Cell(null, null, null, old(T.cells)[p].red)]
  {
    ghost var m := T.cells;
    n := T.NewNode(p.key);
    T.SetColor(n, p.red);
    Overwritten(m, n, Cell(null, null, null, false), Cell(null, null, null, m[p].red));
  }

  /** Makes a node a leaf below `parent`. */
  method MakeLeaf(T: Traits, n: Node, parent: Node)
    requires T.Valid() && n in T.cells
    modifies T, n
    ensures T.Valid() && T.cells == old(T.cells[n := Cell(parent, null, null, T.cells[n].red)])
  {
    ghost var m := T.cells;
    T.SetLeft(n, null);
    T.SetRight(n, null);
    Overwritten(m, n, m[n].(left := null), m[n].(left := null, right := null));
    T.SetParent(n, parent);
    Overwritten(m, n, m[n].(left := null, right := null), Cell(parent, null, null, m[n].red));
  }

  /** `m` with a new leaf on the left, or on the right, of `p`. */
  ghost function LeafLeft(m: Cells, p: Node, n: Node, red: bool): Cells
    requires p in m && n != p
  {
    var m1: Cells := m[n := Cell(p, null, null, red)];
    m1[p := m1[p].(left := n)]
  }

  ghost function LeafRight(m: Cells, p: Node, n: Node, red: bool): Cells
    requires p in m && n != p
  {
    var m1: Cells := m[n := Cell(p, null, null, red)];
    m1[p := m1[p].(right := n)]
  }

  method CloneLeft(T: Traits, current: Node, temp: Node) returns (n: Node)
    requires T.Valid() && current in T.cells && temp in T.cells
    modifies T, temp
    ensures T.Valid() && fresh(n) && n.key == current.key && n !in old(T.cells)
    ensures T.cells == LeafLeft(old(T.cells), temp, n, old(T.cells)[current].red)
      && T.cells.Keys == old(T.cells.Keys) + {n}
  {
    ghost var m := T.cells;
    n := CloneNode(T, current);
    MakeLeaf(T, n, temp);
    Overwritten(m, n, Cell(null, null, null, m[current].red), Cell(temp, null, null, m[current].red));
    T.SetLeft(temp, n);
  }

  method CloneRight(T: Traits, current: Node, temp: Node) returns (n: Node)
    requires T.Valid() && current in T.cells && temp in T.cells
    modifies T, temp
    ensures T.Valid() && fresh(n) && n.key == current.key && n !in old(T.cells)
    ensures T.cells == LeafRight(old(T.cells), temp, n, old(T.cells)[current].red)
      && T.cells.Keys == old(T.cells.Keys) + {n}
  {
    ghost var m := T.cells;
    n := CloneNode(T, current);
    MakeLeaf(T, n, temp);
    Overwritten(m, n, Cell(null, null, null, m[current].red), Cell(temp, null, null, m[current].red));
    T.SetRight(temp, n);
  }

  /** A new leaf in a tree. */
  lemma LeafHungLeft(m: Cells, h: Node, d: Ctx, s: Tree, n: Node, red: bool)
    requires Zip(m, h, d, s) && s.Bin? && s.l.Leaf? && n !in Foot(h, d, s)
    ensures s.n in m && Zip(LeafLeft(m, s.n, n, red), h, InL(d, s.n, s.red, s.r), Bin(Leaf, n, red, Leaf))
  {
    var m' := LeafLeft(m, s.n, n, red);
    LinkedFrame(m, m', s.r, s.n);
    AroundFrame(m, m', d, s.n, h);
  }

  lemma LeafHungRight(m: Cells, h: Node, d: Ctx, s: Tree, n: Node, red: bool)
    requires Zip(m, h, d, s) && s.Bin? && s.r.Leaf? && n !in Foot(h, d, s)
    ensures s.n in m && Zip(LeafRight(m, s.n, n, red), h, InR(d, s.l, s.n, s.red), Bin(Leaf, n, red, Leaf))
  {
    var m' := LeafRight(m, s.n, n, red);
    LinkedFrame(m, m', s.l, s.n);
    AroundFrame(m, m', d, s.n, h);
  }

  /** The root of the copy can be put below its header first or last. */
  lemma LeafRooted(m: Cells, h: Node, root: Node, p: Node, n: Node, red: bool)
    requires h in m && p in m && h != p && h != n && p != n
    ensures Rooted(LeafLeft(m, p, n, red), h, root) == LeafLeft(Rooted(m, h, root), p, n, red)
    ensures Rooted(LeafRight(m, p, n, red), h, root) == LeafRight(Rooted(m, h, root), p, n, red)
  {
  }

  lemma CopiesHung(c: Ctx, t: Tree, d: Ctx, s: Tree, n: Node)
    requires CopyCtx(c, d) && CopyPart(t, s)
    ensures t.l.Bin? && s.l.Leaf? && n.key == t.l.n.key ==>
      s.r.Leaf? && CopyCtx(InL(c, t.n, t.red, t.r), InL(d, s.n, s.red, Leaf))
        && CopyPart(t.l, Bin(Leaf, n, t.l.red, Leaf))
    ensures t.r.Bin? && s.r.Leaf? && Copy(t.l, s.l) && n.key == t.r.n.key ==>
      CopyCtx(InR(c, t.l, t.n, t.red), InR(d, s.l, s.n, s.red)) && CopyPart(t.r, Bin(Leaf, n, t.r.red, Leaf))
  {
  }

  lemma HungLeft(m0: Cells, m: Cells, h2: Node, root: Node, d: Ctx, s: Tree, n: Node, red: bool)
    requires Grown(m0, m) && h2 in m0 && Zip(Rooted(m, h2, root), h2, d, s) && (CNodes(d) + Nodes(s)) !! m0.Keys
    requires s.Bin? && s.l.Leaf? && n !in m
    ensures s.n in m && Grown(m0, LeafLeft(m, s.n, n, red))
    ensures Zip(Rooted(LeafLeft(m, s.n, n, red), h2, root), h2, InL(d, s.n, s.red, s.r), Bin(Leaf, n, red, Leaf))
    ensures (CNodes(InL(d, s.n, s.red, s.r)) + Nodes(Bin(Leaf, n, red, Leaf))) !! m0.Keys
  {
    ZipIn(Rooted(m, h2, root), h2, d, s);
    LeafHungLeft(Rooted(m, h2, root), h2, d, s, n, red);
    assert s.n in Nodes(s);
    LeafRooted(m, h2, root, s.n, n, red);
  }

  lemma HungRight(m0: Cells, m: Cells, h2: Node, root: Node, d: Ctx, s: Tree, n: Node, red: bool)
    requires Grown(m0, m) && h2 in m0 && Zip(Rooted(m, h2, root), h2, d, s) && (CNodes(d) + Nodes(s)) !! m0.Keys
    requires s.Bin? && s.r.Leaf? && n !in m
    ensures s.n in m && Grown(m0, LeafRight(m, s.n, n, red))
    ensures Zip(Rooted(LeafRight(m, s.n, n, red), h2, root), h2, InR(d, s.l, s.n, s.red), Bin(Leaf, n, red, Leaf))
    ensures (CNodes(InR(d, s.l, s.n, s.red)) + Nodes(Bin(Leaf, n, red, Leaf))) !! m0.Keys
  {
    ZipIn(Rooted(m, h2, root), h2, d, s);
    LeafHungRight(Rooted(m, h2, root), h2, d, s, n, red);
    assert s.n in Nodes(s);
    LeafRooted(m, h2, root, s.n, n, red);
  }

  lemma ClonedLeft(m0: Cells, m: Cells, h1: Node, h2: Node, root: Node, c: Ctx, t: Tree, d: Ctx, s: Tree, n: Node)
    requires Cloning(m0, m, h1, h2, root, c, t, d, s) && t.l.Bin? && s.l.Leaf? && n !in m && n.key == t.l.n.key
    ensures s.n in m && s.r.Leaf?
    ensures Cloning(m0, LeafLeft(m, s.n, n, t.l.red), h1, h2, root, InL(c, t.n, t.red, t.r), t.l,
      InL(d, s.n, s.red, Leaf), Bin(Leaf, n, t.l.red, Leaf))
  {
    var leaf := Bin(Leaf, n, t.l.red, Leaf);
    CopiesHung(c, t, d, s, n);
    HungLeft(m0, m, h2, root, d, s, n, t.l.red);
    ZipUp(m0, h1, InL(c, t.n, t.red, t.r), t.l);
    LeftEndPlug(d, s, Bin(leaf, s.n, s.red, Leaf));
  }

  lemma ClonedRight(m0: Cells, m: Cells, h1: Node, h2: Node, root: Node, c: Ctx, t: Tree, d: Ctx, s: Tree, n: Node)
    requires Cloning(m0, m, h1, h2, root, c, t, d, s) && t.r.Bin? && s.r.Leaf? && Copy(t.l, s.l) && n !in m
      && n.key == t.r.n.key
    ensures s.n in m
    ensures Cloning(m0, LeafRight(m, s.n, n, t.r.red), h1, h2, root, InR(c, t.l, t.n, t.red), t.r,
      InR(d, s.l, s.n, s.red), Bin(Leaf, n, t.r.red, Leaf))
  {
    var leaf := Bin(Leaf, n, t.r.red, Leaf);
    CopiesHung(c, t, d, s, n);
    HungRight(m0, m, h2, root, d, s, n, t.r.red);
    ZipUp(m0, h1, InR(c, t.l, t.n, t.red), t.r);
    LeftEndPlug(d, s, Bin(s.l, s.n, s.red, leaf));
  }

  /** Both children are copied: on to the parent. */
  lemma ClonedUp(m0: Cells, m: Cells, h1: Node, h2: Node, root: Node, c: Ctx, t: Tree, d: Ctx, s: Tree)
    requires Cloning(m0, m, h1, h2, root, c, t, d, s) && Copy(t, s) && !c.Top?
    ensures !d.Top? && Cloning(m0, m, h1, h2, root, c.up, Parented(c, t), d.up, Parented(d, s))
    ensures TodoCtx(c.up) + Todo(Parented(c, t), Parented(d, s)) == TodoCtx(c) && Todo(t, s) == 0
  {
    ZipUp(m0, h1, c, t);
    ZipUp(Rooted(m, h2, root), h2, d, s);
  }

  lemma ZipIn(m: Cells, h: Node, d: Ctx, s: Tree)
    requires Zip(m, h, d, s)
    ensures Foot(h, d, s) <= m.Keys
  {
    LinkedIn(m, s, Parent(d, h));
    AroundIn(m, d, Root(s), h);
  }

  /** The state of the copying that the loop keeps. */
  ghost predicate State(m0: Cells, m: Cells, h1: Node, h2: Node, root: Node, c: Ctx, t: Tree, d: Ctx, s: Tree,
      leftmost: Node, rightmost: Node) {
    Cloning(m0, m, h1, h2, root, c, t, d, s) && EndsSoFar(Plug(d, s), leftmost, rightmost)
  }

  /** What the links read by the copier say. */
  lemma Read(m0: Cells, m: Cells, h1: Node, h2: Node, root: Node, c: Ctx, t: Tree, d: Ctx, s: Tree)
    requires Cloning(m0, m, h1, h2, root, c, t, d, s)
    ensures t.n in m && m[t.n] == Cell(Parent(c, h1), Root(t.l), Root(t.r), t.red)
    ensures s.n in m && m[s.n] == Cell(Parent(d, h2), Root(s.l), Root(s.r), s.red) && s.n !in m0
    ensures t.l.Bin? ==> t.l.n in m && m[t.l.n].red == t.l.red
    ensures t.r.Bin? ==> t.r.n in m && m[t.r.n].red == t.r.red
  {
    assert Linked(m0, t.l, t.n) && Linked(m0, t.r, t.n);
  }

  lemma StateLeft(m0: Cells, m: Cells, h1: Node, h2: Node, root: Node, c: Ctx, t: Tree, d: Ctx, s: Tree, leftmost: Node,
      rightmost: Node, n: Node)
    requires State(m0, m, h1, h2, root, c, t, d, s, leftmost, rightmost) && t.l.Bin? && s.l.Leaf? && n !in m
      && n.key == t.l.n.key
    ensures s.n in m
    ensures var c', d', s' := InL(c, t.n, t.red, t.r), InL(d, s.n, s.red, Leaf), Bin(Leaf, n, t.l.red, Leaf);
      && State(m0, LeafLeft(m, s.n, n, t.l.red), h1, h2, root, c', t.l, d', s', if rightmost == root then n
        else leftmost, rightmost)
      && TodoCtx(c') + Todo(t.l, s') < TodoCtx(c) + Todo(t, s)
  {
    ClonedLeft(m0, m, h1, h2, root, c, t, d, s, n);
    CopyCtxHalf(c, d);
    PlugNodes(d, s);
    LeftCopied(d, s, n, t.l.red, leftmost, rightmost);
  }

  lemma StateRight(m0: Cells, m: Cells, h1: Node, h2: Node, root: Node, c: Ctx, t: Tree, d: Ctx, s: Tree,
      leftmost: Node, rightmost: Node, n: Node)
    requires State(m0, m, h1, h2, root, c, t, d, s, leftmost, rightmost) && t.r.Bin? && s.r.Leaf? && Copy(t.l, s.l)
      && n !in m && n.key == t.r.n.key
    ensures s.n in m
    ensures var c', d', s' := InR(c, t.l, t.n, t.red), InR(d, s.l, s.n, s.red), Bin(Leaf, n, t.r.red, Leaf);
      && State(m0, LeafRight(m, s.n, n, t.r.red), h1, h2, root, c', t.r, d', s', leftmost, n)
      && TodoCtx(c') + Todo(t.r, s') < TodoCtx(c) + Todo(t, s)
  {
    ClonedRight(m0, m, h1, h2, root, c, t, d, s, n);
    CopyCtxHalf(c, d);
    RightCopied(d, s, n, t.r.red, leftmost, rightmost);
  }

  method GoLeft(T: Traits, current: Node, insertionPoint: Node, targetSubRoot: Node, leftmost: Node, rightmost: Node,
      ghost m0: Cells, ghost h1: Node, ghost h2: Node, ghost c: Ctx, ghost t: Tree, ghost d: Ctx,
      ghost s: Tree)
      returns (current': Node, insertionPoint': Node, leftmost': Node, ghost c': Ctx, ghost t': Tree, ghost d': Ctx,
        ghost s': Tree)
    requires T.Valid() && State(m0, T.cells, h1, h2, targetSubRoot, c, t, d, s, leftmost, rightmost)
    requires current == t.n && insertionPoint == s.n && t.l.Bin? && s.l.Leaf?
    modifies T, insertionPoint
    ensures T.Valid() && State(m0, T.cells, h1, h2, targetSubRoot, c', t', d', s', leftmost', rightmost)
    ensures current' == t'.n && insertionPoint' == s'.n && Plug(c', t') == Plug(c, t)
    ensures TodoCtx(c') + Todo(t', s') < TodoCtx(c) + Todo(t, s)
    ensures forall n <- T.cells :: n in old(T.cells) || fresh(n)
  {
    ghost var m := T.cells;
    Read(m0, m, h1, h2, targetSubRoot, c, t, d, s);
    current' := current.left;
    insertionPoint' := CloneLeft(T, current', insertionPoint);
    StateLeft(m0, m, h1, h2, targetSubRoot, c, t, d, s, leftmost, rightmost, insertionPoint');
    leftmost' := if rightmost == targetSubRoot then insertionPoint' else leftmost;
    c', t', d', s' := InL(c, t.n, t.red, t.r), t.l, InL(d, s.n, s.red, Leaf), Bin(Leaf, insertionPoint', t.l.red, Leaf);
  }

  method GoRight(T: Traits, current: Node, insertionPoint: Node, targetSubRoot: Node, leftmost: Node, rightmost: Node,
      ghost m0: Cells, ghost h1: Node, ghost h2: Node, ghost c: Ctx, ghost t: Tree, ghost d: Ctx,
      ghost s: Tree)
      returns (current': Node, insertionPoint': Node, ghost c': Ctx, ghost t': Tree, ghost d': Ctx, ghost s': Tree)
    requires T.Valid() && State(m0, T.cells, h1, h2, targetSubRoot, c, t, d, s, leftmost, rightmost)
    requires current == t.n && insertionPoint == s.n && t.r.Bin? && s.r.Leaf? && Copy(t.l, s.l)
    modifies T, insertionPoint
    ensures T.Valid() && State(m0, T.cells, h1, h2, targetSubRoot, c', t', d', s', leftmost, insertionPoint')
    ensures current' == t'.n && insertionPoint' == s'.n && Plug(c', t') == Plug(c, t)
    ensures TodoCtx(c') + Todo(t', s') < TodoCtx(c) + Todo(t, s)
    ensures forall n <- T.cells :: n in old(T.cells) || fresh(n)
  {
    ghost var m := T.cells;
    Read(m0, m, h1, h2, targetSubRoot, c, t, d, s);
    current' := current.right;
    insertionPoint' := CloneRight(T, current', insertionPoint);
    StateRight(m0, m, h1, h2, targetSubRoot, c, t, d, s, leftmost, rightmost, insertionPoint');
    c', t', d', s' := InR(c, t.l, t.n, t.red), t.r, InR(d, s.l, s.n, s.red), Bin(Leaf, insertionPoint', t.r.red, Leaf);
  }

  lemma {:induction false} TopInside(c: Ctx, t: Tree)
    requires !c.Top?
    ensures Plug(c, t).Bin? && Plug(c, t).n in CNodes(c)
  {
    if !c.up.Top? {
      TopInside(c.up, Parented(c, t));
    }
  }

  /** Whether there is anything left to do at the root of `t`. */
  lemma BranchDone(t: Tree, s: Tree)
    requires CopyPart(t, s) && (t.l.Leaf? || s.l.Bin?)
    ensures Copy(t.l, s.l)
    ensures t.r.Leaf? || s.r.Bin? ==> Copy(t, s)
  {
  }

  lemma FirstCloned(m: Cells, h1: Node, h2: Node, t: Tree, n: Node)
    requires Zip(m, h1, Top, t) && t.Bin? && h2 in m && n !in m && n.key == t.n.key
    ensures t.n in m && m[t.n].red == t.red
    ensures State(m, m[n := Cell(h2, null, null, t.red)], h1, h2, n, Top, t, Top, Bin(Leaf, n, t.red, Leaf), n, n)
  {
    var s := Bin(Leaf, n, t.red, Leaf);
    var m1: Cells := m[n := Cell(h2, null, null, t.red)];
    assert LastRight(s, n) == n;
    assert Plug(Top, s) == s && CNodes(Top) == {} && CDistinct(Top) && Nodes(s) == {n} && Distinct(s);
    var m' := Rooted(m1, h2, n);
    assert Linked(m', s, h2) && Around(m', Top, n, h2);
    assert Cloning(m, m1, h1, h2, n, Top, t, Top, s);
    assert EndsSoFar(s, n, n);
  }

  /** The root of the copy. */
  method CloneFirst(T: Traits, current: Node, targetParent: Node, ghost h1: Node, ghost t: Tree)
      returns (n: Node, ghost s: Tree)
    requires T.Valid() && Zip(T.cells, h1, Top, t) && t.Bin? && current == t.n && targetParent in T.cells
    modifies T
    ensures T.Valid() && fresh(n) && T.cells.Keys == old(T.cells.Keys) + {n} && s.Bin? && s.n == n
    ensures targetParent in old(T.cells) && State(old(T.cells), T.cells, h1, targetParent, n, Top, t, Top, s, n, n)
  {
    ghost var m := T.cells;
    n := CloneNode(T, current);
    MakeLeaf(T, n, targetParent);
    Overwritten(m, n, Cell(null, null, null, m[current].red), Cell(targetParent, null, null, m[current].red));
    s := Bin(Leaf, n, t.red, Leaf);
    FirstCloned(m, h1, targetParent, t, n);
  }

  method GoUp(T: Traits, current: Node, insertionPoint: Node, ghost root: Node, ghost leftmost: Node,
      ghost rightmost: Node,
      ghost m0: Cells, ghost h1: Node, ghost h2: Node, ghost c: Ctx, ghost t: Tree, ghost d: Ctx, ghost s: Tree)
      returns (current': Node, insertionPoint': Node, ghost c': Ctx, ghost t': Tree, ghost d': Ctx, ghost s': Tree)
    requires T.Valid() && State(m0, T.cells, h1, h2, root, c, t, d, s, leftmost, rightmost)
    requires current == t.n && insertionPoint == s.n && Copy(t, s) && !c.Top?
    ensures State(m0, T.cells, h1, h2, root, c', t', d', s', leftmost, rightmost)
    ensures current' == t'.n && insertionPoint' == s'.n && Plug(c', t') == Plug(c, t)
    ensures TodoCtx(c') + Todo(t', s') <= TodoCtx(c) + Todo(t, s) && Depth(c') < Depth(c)
  {
    Read(m0, T.cells, h1, h2, root, c, t, d, s);
    ClonedUp(m0, T.cells, h1, h2, root, c, t, d, s);
    current' := current.parent;
    insertionPoint' := insertionPoint.parent;
    c', t', d', s' := c.up, Parented(c, t), d.up, Parented(d, s);
  }

  /** At the root of the source, and only there, the copying is complete. */
  lemma AtRoot(c: Ctx, t: Tree, h: Node)
    requires Apart(h, c, t) && t.Bin?
    ensures Plug(c, t).Bin? && (Plug(c, t).n == t.n <==> c.Top?)
  {
    if !c.Top? {
      TopInside(c, t);
    }
  }

  /** One step of the copier: left, else right, else up; at the end, nowhere. */
  method CloneStep(T: Traits, current: Node, insertionPoint: Node, sourceRoot: Node, targetSubRoot: Node,
      leftmost: Node, rightmost: Node,
      ghost m0: Cells, ghost h1: Node, ghost h2: Node, ghost c: Ctx, ghost t: Tree, ghost d: Ctx,
      ghost s: Tree)
      returns (done: bool, current': Node, insertionPoint': Node, leftmost': Node, rightmost': Node,
               ghost c': Ctx, ghost t': Tree, ghost d': Ctx, ghost s': Tree)
    requires T.Valid() && State(m0, T.cells, h1, h2, targetSubRoot, c, t, d, s, leftmost, rightmost)
    requires current == t.n && insertionPoint == s.n && Plug(c, t).Bin? && sourceRoot == Plug(c, t).n
    modifies T, insertionPoint
    ensures T.Valid() && State(m0, T.cells, h1, h2, targetSubRoot, c', t', d', s', leftmost', rightmost')
    ensures current' == t'.n && insertionPoint' == s'.n && Plug(c', t') == Plug(c, t)
    ensures forall n <- T.cells :: n in old(T.cells) || fresh(n)
    ensures done ==> c'.Top? && Copy(t', s')
    ensures !done ==>
      TodoCtx(c') + Todo(t', s') < TodoCtx(c) + Todo(t, s)
      || (TodoCtx(c') + Todo(t', s') == TodoCtx(c) + Todo(t, s) && Depth(c') < Depth(c))
  {
    Read(m0, T.cells, h1, h2, targetSubRoot, c, t, d, s);
    AtRoot(c, t, h1);
    done, leftmost', rightmost' := false, leftmost, rightmost;
    if current.left != null && insertionPoint.left == null {
      current', insertionPoint', leftmost', c', t', d', s' :=
        GoLeft(T, current, insertionPoint, targetSubRoot, leftmost, rightmost, m0, h1, h2, c, t, d, s);
    } else if current.right != null && insertionPoint.right == null {
      BranchDone(t, s);
      current', insertionPoint', c', t', d', s' :=
        GoRight(T, current, insertionPoint, targetSubRoot, leftmost, rightmost, m0, h1, h2, c, t, d, s);
      rightmost' := insertionPoint';
    } else if current == sourceRoot {
      BranchDone(t, s);
      done, current', insertionPoint' := true, current, insertionPoint;
      c', t', d', s' := c, t, d, s;
    } else {
      BranchDone(t, s);
      current', insertionPoint', c', t', d', s' :=
        GoUp(T, current, insertionPoint, targetSubRoot, leftmost, rightmost, m0, h1, h2, c, t, d, s);
    }
  }

  /** A copy of a non-empty tree below `targetParent`, which is not linked to it yet. */
  method CloneNodes(T: Traits, sourceRoot: Node, targetParent: Node, ghost h1: Node, ghost t0: Tree)
      returns (targetSubRoot: Node, leftmost: Node, rightmost: Node, ghost s: Tree)
    requires T.Valid() && Zip(T.cells, h1, Top, t0) && t0.Bin? && sourceRoot == t0.n && targetParent in T.cells
    modifies T
    ensures T.Valid() && targetParent in old(T.cells)
    ensures State(old(T.cells), T.cells, h1, targetParent, targetSubRoot, Top, t0, Top, s, leftmost, rightmost)
      && Copy(t0, s)
  {
    ghost var m0, h2 := T.cells, targetParent;
    ghost var c, t, d := Top, t0, Top;
    var current := sourceRoot;
    targetSubRoot, s := CloneFirst(T, current, targetParent, h1, t0);
    leftmost, rightmost := targetSubRoot, targetSubRoot;
    var insertionPoint := targetSubRoot;
    var done := false;
    while !done
      invariant T.Valid() && forall n <- T.cells :: n in m0 || fresh(n)
      invariant State(m0, T.cells, h1, h2, targetSubRoot, c, t, d, s, leftmost, rightmost)
      invariant current == t.n && insertionPoint == s.n && Plug(c, t) == t0
      invariant done ==> c.Top? && Copy(t, s)
      decreases !done, TodoCtx(c) + Todo(t, s), Depth(c)
    {
      done, current, insertionPoint, leftmost, rightmost, c, t, d,
        s := CloneStep(T, current, insertionPoint, sourceRoot,
        targetSubRoot, leftmost, rightmost, m0, h1, h2, c, t, d, s);
    }
  }

  /** The copy as a tree below `h`, which keeps what it stores. */
  lemma CopyLinked(m0: Cells, m: Cells, h1: Node, h: Node, t: Tree, s: Tree, leftmost: Node, rightmost: Node)
    requires s.Bin? && State(m0, m, h1, h, s.n, Top, t, Top, s, leftmost, rightmost)
    ensures Linked(m, s, h) && Distinct(s) && Nodes(s) !! m0.Keys
    ensures leftmost == LeftEnd(s).n && rightmost == LastRight(s, s.n)
  {
    assert Plug(Top, s) == s;
    LinkedFrame(Rooted(m, h, s.n), m, s, h);
  }

  /** A copy of the tree below `sourceParent`. If there is nothing to copy, `targetParent` itself is returned. */
  method CloneSubtree(T: Traits, sourceParent: Node, targetParent: Node, ghost t: Tree)
      returns (targetSubRoot: Node, leftmost: Node?, rightmost: Node?, ghost s: Tree)
    requires T.Valid() && Zip(T.cells, sourceParent, Top, t) && targetParent in T.cells
    modifies T
    ensures T.Valid() && Grown(old(T.cells), T.cells)
    ensures t.Leaf? ==>
      targetSubRoot == targetParent && leftmost == null && rightmost == null && T.cells == old(T.cells)
    ensures t.Bin? ==>
      s.Bin? && Copy(t, s) && Linked(T.cells, s, targetParent) && Distinct(s) && Nodes(s) !! old(T.cells.Keys)
    ensures t.Bin? ==> targetSubRoot == s.n && leftmost == LeftEnd(s).n && rightmost == LastRight(s, s.n)
  {
    targetSubRoot, s := targetParent, Leaf;
    var sourceRoot := sourceParent.parent;
    if sourceRoot == null {
      leftmost, rightmost := null, null;
    } else {
      ghost var m0 := T.cells;
      targetSubRoot, leftmost, rightmost, s := CloneNodes(T, sourceRoot, targetParent, sourceParent, t);
      CopyLinked(m0, T.cells, sourceParent, targetParent, t, s, leftmost, rightmost);
    }
  }

  method SetHeader(T: Traits, h: Node, root: Node, leftmost: Node?, rightmost: Node?)
    requires T.Valid() && h in T.cells
    modifies T, h
    ensures T.Valid() && T.cells == old(T.cells[h := Cell(root, leftmost, rightmost, T.cells[h].red)])
  {
    ghost var m := T.cells;
    T.SetParent(h, root);
    T.SetLeft(h, leftmost);
    Overwritten(m, h, m[h].(parent := root), m[h].(parent := root, left := leftmost));
    T.SetRight(h, rightmost);
    Overwritten(m, h, m[h].(parent := root, left := leftmost), Cell(root, leftmost, rightmost, m[h].red));
  }

  /** With the header set, the copy is a tree exactly if the last right edge leads to the rightmost node. */
  lemma CopyHeader(m: Cells, h: Node, t: Tree, s: Tree)
    requires h in m && h !in Nodes(s) && Linked(m, s, h) && Distinct(s) && s.Bin? && Copy(t, s)
    ensures var m': Cells := m[h := Cell(s.n, LeftEnd(s).n, LastRight(s, s.n), m[h].red)];
      Zip(m', h, Top, s) && (IsTree(m', h, s) <==> NoRight(RightEnd(t).l))
  {
    var m': Cells := m[h := Cell(s.n, LeftEnd(s).n, LastRight(s, s.n), m[h].red)];
    LinkedFrame(m, m', s, h);
    LeftEndFirst(s);
    RightEndLast(s);
    LastRightIsEnd(s);
    CopyRightEnd(t, s);
  }

  /** Empties the target of a cloning, if there is anything in it. */
  method ClearTarget(T: Traits, h1: Node, h2: Node, ghost t: Tree, ghost u: Tree) returns (disposed: seq<Node>)
    requires T.Valid() && IsTree(T.cells, h1, t) && IsTree(T.cells, h2, u) && ({h1} + Nodes(t)) !! ({h2} + Nodes(u))
    modifies T, T.cells.Keys
    ensures T.Valid() && IsTree(T.cells, h1, t) && disposed == InOrder(u) && h2 in T.cells
      && T.cells[h2].red == old(T.cells)[h2].red
    ensures OnlyChanged(old(T.cells), T.cells, {h2} + Nodes(u)) && Reset(old(T.cells), T.cells, disposed)
  {
    ghost var m0 := T.cells;
    disposed := [];
    if h2.parent != null {
      disposed := ClearAndDispose(T, h2, u);
      IsTreeFrame(m0, T.cells, h1, t);
    }
  }

  /** Clones the tree of `h1` below the header `h2`. Without anything to clone `h2` ends up as its own root. */
  method CloneBelow(T: Traits, h1: Node, h2: Node, ghost t: Tree) returns (ghost s: Tree)
    requires T.Valid() && IsTree(T.cells, h1, t) && h2 in T.cells && h2 !in {h1} + Nodes(t)
    modifies T, T.cells.Keys
    ensures T.Valid() && IsTree(T.cells, h1, t) && h2 in T.cells && T.cells[h2].red == old(T.cells)[h2].red
    ensures t.Leaf? ==> T.cells[h2].parent == h2 && T.cells[h2].left == null && T.cells[h2].right == null
    ensures t.Bin? ==> Copy(t, s) && Zip(T.cells, h2, Top, s) && Nodes(s) !! old(T.cells.Keys)
    ensures t.Bin? ==> (IsTree(T.cells, h2, s) <==> NoRight(RightEnd(t).l))
    ensures Grown(old(T.cells) - {h2}, T.cells)
  {
    ghost var m0 := T.cells;
    var newRoot, leftmost, rightmost;
    newRoot, leftmost, rightmost, s := CloneSubtree(T, h1, h2, t);
    ghost var m1 := T.cells;
    SetHeader(T, h2, newRoot, leftmost, rightmost);
    LinkedIn(m0, t, h1);
    IsTreeFrame(m0, T.cells, h1, t);
    if t.Bin? {
      CopyHeader(m1, h2, t, s);
    }
  }

  /** Cloning leaves alone what was disposed of. */
  lemma StillReset(m0: Cells, m1: Cells, m: Cells, h: Node, s: seq<Node>, own: set<Node>)
    requires Reset(m0, m1, s) && OnlyChanged(m0, m1, own) && Grown(m1 - {h}, m)
    requires h in own && h !in Elems(s)
    ensures Reset(m0, m, s) && Grown(m0 - own, m)
  {
  }

  /** Clones the tree of `h1` into the tree of `h2`, which is cleared first. */
  method CloneTree(T: Traits, h1: Node, h2: Node, ghost t: Tree, ghost u: Tree)
      returns (disposed: seq<Node>, ghost s: Tree)
    requires T.Valid() && IsTree(T.cells, h1, t) && IsTree(T.cells, h2, u) && ({h1} + Nodes(t)) !! ({h2} + Nodes(u))
    modifies T, T.cells.Keys
    ensures T.Valid() && IsTree(T.cells, h1, t) && disposed == InOrder(u) && h2 in T.cells
      && T.cells[h2].red == old(T.cells)[h2].red
    ensures t.Leaf? ==> T.cells[h2] == Cell(h2, null, null, T.cells[h2].red) && forall v :: !IsTree(T.cells, h2, v)
    ensures t.Bin? ==> Copy(t, s) && Zip(T.cells, h2, Top, s) && Nodes(s) !! old(T.cells.Keys)
    ensures t.Bin? ==> (IsTree(T.cells, h2, s) <==> NoRight(RightEnd(t).l))
    ensures Grown(old(T.cells) - ({h2} + Nodes(u)), T.cells) && Reset(old(T.cells), T.cells, disposed)
  {
    ghost var m0 := T.cells;
    disposed := ClearTarget(T, h1, h2, t, u);
    ghost var m1 := T.cells;
    s := CloneBelow(T, h1, h2, t);
    ElemsInOrder(u);
    StillReset(m0, m1, T.cells, h2, disposed, {h2} + Nodes(u));
    if t.Leaf? {
      forall v ensures !IsTree(T.cells, h2, v) {
        OwnRoot(T.cells, h2, v);
      }
    }
  }

  /** Nothing below a header that is its own root is a tree. */
  lemma OwnRoot(m: Cells, h: Node, t: Tree)
    requires h in m && m[h].parent == h
    ensures !IsTree(m, h, t)
  {
  }

  /** Clones a red-black tree with at least one node. */
  method RbClone(T: Traits, h1: Node, h2: Node, ghost t: Tree, ghost u: Tree)
      returns (disposed: seq<Node>, ghost s: Tree)
    requires T.Valid() && IsRb(T.cells, h1, t) && IsRb(T.cells, h2, u) && ({h1} + Nodes(t)) !! ({h2} + Nodes(u))
      && t.Bin?
    modifies T, T.cells.Keys
    ensures T.Valid() && IsRb(T.cells, h1, t) && IsRb(T.cells, h2, s) && Copy(t, s) && disposed == InOrder(u)
    ensures Nodes(s) !! old(T.cells.Keys) && Grown(old(T.cells) - ({h2} + Nodes(u)), T.cells)
    ensures Reset(old(T.cells), T.cells, disposed)
  {
    RbLastRight(t);
    disposed, s := CloneTree(T, h1, h2, t, u);
    CopyOrder(t, s);
  }
}
