/** Rebalancing a subtree in linear time and constant space, after Stout and Warren (bstree_algorithms.hpp). */
module Rebalance {
  import opened NodeTraits
  import opened Trees
  import opened TreeGraph
  import opened Rotations
  import opened Powers
  import opened Vines

  /** The nodes of `t` store its child links and colours; nothing is said about parents. */
  ghost predicate Children(m: Cells, t: Tree) {
    t.Bin? ==>
      && t.n in m && m[t.n].left == Root(t.l) && m[t.n].right == Root(t.r) && m[t.n].red == t.red
      && Children(m, t.l) && Children(m, t.r)
  }

  /** The line going right from the root of `t` lacks parents; the left subtrees on it are linked. */
  ghost predicate Line(m: Cells, t: Tree) {
    t.Bin? ==>
      && t.n in m && m[t.n].left == Root(t.l) && m[t.n].right == Root(t.r) && m[t.n].red == t.red
      && Linked(m, t.l, t.n) && Line(m, t.r)
  }

  /** The part of such a line above `hole`, from the right link of `s` on; if `parents`, with parents set. */
  ghost predicate Above(m: Cells, c: Ctx, hole: Node?, s: Node, parents: bool) {
    match c
    case Top => s in m && m[s].right == hole
    case InL(_, _, _, _) => false
    case InR(up, l, n, red) =>
      && n in m && m[n].left == Root(l) && m[n].right == hole && m[n].red == red
      && (parents ==> m[n].parent == Parent(up, s))
      && Linked(m, l, n) && Above(m, up, n, s, parents)
  }

  lemma {:induction false} ChildrenFrame(m: Cells, m': Cells, t: Tree)
    requires Children(m, t) && Same(m, m', Nodes(t))
    ensures Children(m', t)
  {
    if t.Bin? {
      ChildrenFrame(m, m', t.l);
      ChildrenFrame(m, m', t.r);
    }
  }

  lemma {:induction false} LineFrame(m: Cells, m': Cells, t: Tree)
    requires Line(m, t) && Same(m, m', Nodes(t))
    ensures Line(m', t)
  {
    if t.Bin? {
      LinkedFrame(m, m', t.l, t.n);
      LineFrame(m, m', t.r);
    }
  }

  lemma {:induction false} AboveFrame(m: Cells, m': Cells, c: Ctx, hole: Node?, s: Node, parents: bool)
    requires Above(m, c, hole, s, parents) && Same(m, m', CNodes(c) + {s})
    ensures Above(m', c, hole, s, parents)
  {
    if c.InR? {
      LinkedFrame(m, m', c.l, c.n);
      AboveFrame(m, m', c.up, c.n, s, parents);
    }
  }

  /** Another node below the line. */
  lemma AboveSet(m: Cells, m': Cells, c: Ctx, hole: Node?, s: Node, x: Node?)
    requires Above(m, c, hole, s, false) && CDistinct(c) && s !in CNodes(c)
    requires Parent(c, s) in m' && Parent(c, s) in m && m'[Parent(c, s)] == m[Parent(c, s)].(right := x)
    requires Same(m, m', CNodes(c) + {s} - {Parent(c, s)})
    ensures Above(m', c, x, s, false)
  {
    if c.InR? {
      LinkedFrame(m, m', c.l, c.n);
      AboveFrame(m, m', c.up, c.n, s, false);
    }
  }

  /** The tree below the right link of `s` is in the making: `t` is still to be treated. */
  ghost predicate Making(m: Cells, s: Node, c: Ctx, t: Tree) {
    s in m && Apart(s, c, t) && Above(m, c, Root(t), s, false)
  }

  /** Rotating the vine's tail: the left child of the remainder comes above it. */
  ghost function Rotated(m: Cells, tail: Node, n: Node, x: Node): Cells
    requires tail in m && n in m && x in m
  {
    var m1: Cells := m[n := m[n].(left := m[x].right)];
    var m2: Cells := m1[x := m1[x].(right := n)];
    m2[tail := m2[tail].(right := x)]
  }

  /** Only the nodes `a` have changed, of `s` only the right link, and no colour. */
  ghost predicate OnlyBelow(m: Cells, m': Cells, s: Node, a: set<Node>) {
    OnlyChanged(m, m', a) && s in m && m'[s] == m[s].(right := m'[s].right) && forall n <- m :: m'[n].red == m[n].red
  }

  lemma BelowAgain(m0: Cells, m: Cells, m': Cells, s: Node, a: set<Node>)
    requires OnlyBelow(m0, m, s, a) && OnlyBelow(m, m', s, a)
    ensures OnlyBelow(m0, m', s, a)
  {
  }

  method VineRotate(T: Traits, vineTail: Node, remainder: Node, tempptr: Node)
    requires T.Valid() && vineTail in T.cells && remainder in T.cells && tempptr in T.cells
    modifies T, T.cells.Keys
    ensures T.Valid() && T.cells == Rotated(old(T.cells), vineTail, remainder, tempptr)
  {
    T.SetLeft(remainder, tempptr.right);
    T.SetRight(tempptr, remainder);
    T.SetRight(vineTail, tempptr);
  }

  lemma AboveParent(m: Cells, c: Ctx, hole: Node?, s: Node)
    requires Above(m, c, hole, s, false)
    ensures Parent(c, s) in m && Parent(c, s) in CNodes(c) + {s} && m[Parent(c, s)].right == hole
  {
  }

  lemma RotatedChanges(m: Cells, s: Node, tail: Node, n: Node, x: Node, a: set<Node>)
    requires s in m && tail in m && n in m && x in m && n != s && x != s && {tail, n, x} <= a
    ensures OnlyBelow(m, Rotated(m, tail, n, x), s, a)
  {
  }

  lemma VineRotated(m: Cells, s: Node, c: Ctx, t: Tree)
    requires Making(m, s, c, t) && Children(m, t) && t.Bin? && t.l.Bin?
    ensures Parent(c, s) in m && t.n in m && t.l.n in m
    ensures var m' := Rotated(m, Parent(c, s), t.n, t.l.n);
      Making(m', s, c, TurnR(t)) && Children(m', TurnR(t)) && OnlyBelow(m, m', s, Foot(s, c, t))
  {
    AboveParent(m, c, t.n, s);
    RotatedChanges(m, s, Parent(c, s), t.n, t.l.n, Foot(s, c, t));
    var m' := Rotated(m, Parent(c, s), t.n, t.l.n);
    PartsOfLeft(s, c, t.l.n, t.l.red, t.n, t.red, t.l.l, t.l.r, t.r);
    PartsOfRight(s, c, t.l.n, t.l.red, t.n, t.red, t.l.l, t.l.r, t.r);
    AboveSet(m, m', c, t.n, s, t.l.n);
    ChildrenFrame(m, m', t.l.l);
    ChildrenFrame(m, m', t.l.r);
    ChildrenFrame(m, m', t.r);
  }

  lemma VineRotatedShape(s: Node, c: Ctx, t: Tree)
    requires t.Bin? && t.l.Bin?
    ensures Foot(s, c, TurnR(t)) == Foot(s, c, t) && InOrder(Plug(c, TurnR(t))) == InOrder(Plug(c, t))
    ensures Size(TurnR(t)) == Size(t) && Size(TurnR(t).l) < Size(t.l)
  {
    TurnRKeeps(t);
    TurnRSize(t);
    SameInOrder(c, t, TurnR(t));
  }

  lemma VineMoved(m: Cells, s: Node, c: Ctx, t: Tree)
    requires Making(m, s, c, t) && Children(m, t) && t.Bin? && t.l.Leaf?
    ensures Making(m, s, InR(c, Leaf, t.n, t.red), t.r) && Children(m, t.r)
    ensures Foot(s, InR(c, Leaf, t.n, t.red), t.r) == Foot(s, c, t)
  {
  }

  /** A context in which every node has its hole on the right and nothing on the left. */
  ghost predicate VinePath(c: Ctx) {
    c.Top? || (c.InR? && c.l.Leaf? && VinePath(c.up))
  }

  lemma {:induction false} VinePlug(c: Ctx, t: Tree)
    requires VinePath(c) && Vine(t)
    ensures Vine(Plug(c, t)) && Length(Plug(c, t)) == Depth(c) + Length(t)
  {
    if c.InR? {
      VinePlug(c.up, Parented(c, t));
    }
  }

  lemma {:induction false} LinePlug(m: Cells, s: Node, c: Ctx, t: Tree)
    requires Making(m, s, c, t) && Line(m, t)
    ensures Making(m, s, Top, Plug(c, t)) && Line(m, Plug(c, t)) && {s} + Nodes(Plug(c, t)) == Foot(s, c, t)
  {
    if c.InR? {
      LinePlug(m, s, c.up, Parented(c, t));
    }
  }

  /** Turns the tree right of `vineTail0` into a vine. No parent link is written. */
  method SubtreeToVine(T: Traits, vineTail0: Node, ghost t0: Tree) returns (size: nat, ghost v: Tree)
    requires T.Valid() && Making(T.cells, vineTail0, Top, t0) && Children(T.cells, t0)
    modifies T, T.cells.Keys
    ensures T.Valid() && Making(T.cells, vineTail0, Top, v) && Line(T.cells, v)
    ensures Vine(v) && size == Length(v) && InOrder(v) == InOrder(t0)
      && {vineTail0} + Nodes(v) == {vineTail0} + Nodes(t0)
    ensures OnlyBelow(old(T.cells), T.cells, vineTail0, {vineTail0} + Nodes(t0))
  {
    ghost var s, m0 := vineTail0, T.cells;
    var vineTail := vineTail0;
    var remainder := vineTail.right;
    ghost var c, t := Top, t0;
    size := 0;
    while remainder != null
      invariant T.Valid() && OnlyBelow(m0, T.cells, s, Foot(s, Top, t0))
      invariant Making(T.cells, s, c, t) && Children(T.cells, t)
      invariant remainder == Root(t) && vineTail == Parent(c, s) && VinePath(c) && size == Depth(c)
      invariant InOrder(Plug(c, t)) == InOrder(t0) && Foot(s, c, t) == Foot(s, Top, t0)
      decreases Size(t), if t.Bin? then Size(t.l) else 0
    {
      var tempptr := remainder.left;
      if tempptr == null {
        VineMoved(T.cells, s, c, t);
        vineTail := remainder;
        remainder := remainder.right;
        c, t := InR(c, Leaf, t.n, t.red), t.r;
        size := size + 1;
      } else {
        ghost var m := T.cells;
        VineRotated(m, s, c, t);
        VineRotatedShape(s, c, t);
        VineRotate(T, vineTail, remainder, tempptr);
        BelowAgain(m0, m, T.cells, s, Foot(s, Top, t0));
        remainder := tempptr;
        t := TurnR(t);
      }
    }
    v := Plug(c, Leaf);
    VinePlug(c, Leaf);
    LinePlug(T.cells, s, c, Leaf);
  }

  /** The two topmost nodes of the line, the first of them now hanging off the second. */
  ghost function Folded(t: Tree): Tree
    requires t.Bin? && t.r.Bin?
  {
    Bin(t.l, t.n, t.red, t.r.l)
  }

  /** `scanner` linked to the second node of the line, and the edge between the first two turned. */
  ghost function Compressed(m: Cells, scanner: Node, child: Node, childRight: Node): Cells
    requires scanner in m && child in m && childRight in m && scanner != childRight
    requires m[childRight].left != null ==> m[childRight].left in m
  {
    var m1: Cells := m[scanner := m[scanner].(right := childRight)];
    TurnedLeft(m1, child, childRight)
  }

  method CompressStep(T: Traits, scanner: Node, child: Node, childRight: Node)
    requires T.Valid() && scanner in T.cells && child in T.cells && childRight in T.cells && scanner != childRight
    requires T.cells[childRight].left != null ==> T.cells[childRight].left in T.cells
    modifies T, T.cells.Keys
    ensures T.Valid() && T.cells == Compressed(old(T.cells), scanner, child, childRight)
  {
    T.SetRight(scanner, childRight);
    var scannerLeft := childRight.left;
    T.SetRight(child, scannerLeft);
    if scannerLeft != null {
      T.SetParent(scannerLeft, child);
    }
    T.SetLeft(childRight, child);
    T.SetParent(child, childRight);
  }

  lemma CompressedShape(s: Node, c: Ctx, t: Tree)
    requires Apart(s, c, t) && t.Bin? && t.r.Bin?
    ensures Apart(s, InR(c, Folded(t), t.r.n, t.r.red), t.r.r)
    ensures Foot(s, InR(c, Folded(t), t.r.n, t.r.red), t.r.r) == Foot(s, c, t)
  {
    PartsOfLeft(s, c, t.n, t.red, t.r.n, t.r.red, t.l, t.r.l, t.r.r);
    PartsOfRight(s, c, t.n, t.red, t.r.n, t.r.red, t.l, t.r.l, t.r.r);
    assert Apart(s, c, Bin(Folded(t), t.r.n, t.r.red, t.r.r));
  }

  lemma PivotNodes(s: Node, c: Ctx, t: Tree)
    requires Apart(s, c, t) && t.Bin? && t.r.Bin?
    ensures Parent(c, s) != t.n && Parent(c, s) != t.r.n && s != t.n && s != t.r.n && t.n != t.r.n
    ensures t.n !in CNodes(c) && t.r.n !in CNodes(c) && Distinct(t.r.l)
    ensures forall n :: n in Nodes(t.l) || n in Nodes(t.r.l) || n in Nodes(t.r.r) ==>
      n != t.n && n != t.r.n && n != s && n != Parent(c, s) && n !in CNodes(c)
    ensures Nodes(t.r.l) !! Nodes(t.l) && Nodes(t.r.l) !! Nodes(t.r.r)
  {
    assert Distinct(t.r) && t.r.n in Nodes(t.r);
  }

  /** What the writes of a compression step at `t` change. */
  ghost predicate Pivoted(m: Cells, m': Cells, scanner: Node, t: Tree)
    requires t.Bin? && t.r.Bin?
  {
    var y := t.r.n;
    && m'.Keys == m.Keys && scanner in m && t.n in m && y in m
    && OnlyChanged(m, m', {scanner, t.n, y} + Some(Root(t.r.l)))
    && m'[scanner] == m[scanner].(right := y)
    && m'[t.n] == m[t.n].(right := Root(t.r.l), parent := y) && m'[y] == m[y].(left := t.n)
    && (t.r.l.Bin? ==> t.r.l.n in m && m'[t.r.l.n] == m[t.r.l.n].(parent := t.n))
  }

  lemma LinePivoted(m: Cells, s: Node, c: Ctx, t: Tree)
    requires Making(m, s, c, t) && Line(m, t) && t.Bin? && t.r.Bin?
    ensures Parent(c, s) in m && t.n in m && t.r.n in m && Parent(c, s) != t.r.n && m[t.r.n].left == Root(t.r.l)
    ensures t.r.l.Bin? ==> t.r.l.n in m
    ensures Pivoted(m, Compressed(m, Parent(c, s), t.n, t.r.n), Parent(c, s), t)
  {
    AboveParent(m, c, t.n, s);
    PivotNodes(s, c, t);
    assert Line(m, t.r) && Linked(m, t.r.l, t.r.n);
    assert t.r.l.Bin? ==> t.r.l.n in Nodes(t.r.l);
  }

  lemma PivotedColors(m: Cells, m': Cells, q: Node, t: Tree)
    requires t.Bin? && t.r.Bin? && Pivoted(m, m', q, t)
    ensures m'.Keys == m.Keys && forall n <- m :: m'[n].red == m[n].red
  {
  }

  lemma PivotedBelow(m: Cells, m': Cells, s: Node, c: Ctx, t: Tree)
    requires Making(m, s, c, t) && t.Bin? && t.r.Bin? && Pivoted(m, m', Parent(c, s), t)
    ensures OnlyBelow(m, m', s, Foot(s, c, t))
  {
    PivotNodes(s, c, t);
    PivotedColors(m, m', Parent(c, s), t);
    assert t.r.l.Bin? ==> t.r.l.n in Nodes(t.r.l);
    assert c.Top? || Parent(c, s) in CNodes(c);
  }

  lemma PivotedLine(m: Cells, m': Cells, s: Node, c: Ctx, t: Tree)
    requires Making(m, s, c, t) && Line(m, t) && t.Bin? && t.r.Bin? && Pivoted(m, m', Parent(c, s), t)
    ensures Linked(m', Folded(t), t.r.n) && Line(m', t.r.r)
  {
    PivotNodes(s, c, t);
    assert Line(m, t.r) && Linked(m, t.r.l, t.r.n);
    assert t.r.l.Bin? ==> t.r.l.n in Nodes(t.r.l);
    LinkedFrame(m, m', t.l, t.n);
    Reparented(m, m', t.r.l, t.r.n, t.n);
    LineFrame(m, m', t.r.r);
  }

  lemma LineCompressed(m: Cells, s: Node, c: Ctx, t: Tree)
    requires Making(m, s, c, t) && Line(m, t) && t.Bin? && t.r.Bin?
    ensures Parent(c, s) in m && t.n in m && t.r.n in m && Parent(c, s) != t.r.n && m[t.r.n].left == Root(t.r.l)
    ensures t.r.l.Bin? ==> t.r.l.n in m
    ensures var m' := Compressed(m, Parent(c, s), t.n, t.r.n);
      Making(m', s, InR(c, Folded(t), t.r.n, t.r.red), t.r.r) && Line(m', t.r.r) && OnlyBelow(m, m', s, Foot(s, c, t))
  {
    LinePivoted(m, s, c, t);
    PivotedMaking(m, Compressed(m, Parent(c, s), t.n, t.r.n), s, c, t);
  }

  lemma PivotedMaking(m: Cells, m': Cells, s: Node, c: Ctx, t: Tree)
    requires Making(m, s, c, t) && Line(m, t) && t.Bin? && t.r.Bin? && Pivoted(m, m', Parent(c, s), t)
    ensures Making(m', s, InR(c, Folded(t), t.r.n, t.r.red), t.r.r) && Line(m', t.r.r)
    ensures OnlyBelow(m, m', s, Foot(s, c, t))
  {
    PivotedBelow(m, m', s, c, t);
    PivotedLine(m, m', s, c, t);
    CompressedShape(s, c, t);
    PivotNodes(s, c, t);
    assert Line(m, t.r);
    assert t.r.l.Bin? ==> t.r.l.n in Nodes(t.r.l);
    AboveSet(m, m', c, t.n, s, t.r.n);
  }

  lemma CompressOne(c: Ctx, t: Tree, k: nat)
    requires 0 < k && 2 * k <= Length(t)
    ensures t.Bin? && t.r.Bin? && 2 * (k - 1) <= Length(t.r.r)
    ensures Plug(InR(c, Folded(t), t.r.n, t.r.red), Compress(t.r.r, k - 1)) == Plug(c, Compress(t, k))
  {
    assert Length(t) == 1 + Length(t.r);
  }

  /** With `k` rotations to go at `t`, the line will become `goal`. */
  ghost predicate Compressing(m: Cells, s: Node, c: Ctx, t: Tree, k: nat, goal: Tree) {
    && Making(m, s, c, t) && Line(m, t)
    && 2 * k <= Length(t) && Plug(c, Compress(t, k)) == goal
  }

  method CompressNext(T: Traits, scanner: Node, ghost s: Node, ghost c: Ctx, ghost t: Tree, ghost k: nat,
      ghost goal: Tree)
      returns (childRight: Node, ghost c': Ctx, ghost t': Tree, ghost k': nat)
    requires T.Valid() && 0 < k && Compressing(T.cells, s, c, t, k, goal) && scanner == Parent(c, s)
    modifies T, T.cells.Keys
    ensures T.Valid() && k' == k - 1 && Compressing(T.cells, s, c', t', k', goal) && childRight == Parent(c', s)
    ensures Foot(s, c', t') == Foot(s, c, t) && OnlyBelow(old(T.cells), T.cells, s, Foot(s, c, t))
  {
    CompressOne(c, t, k);
    LineCompressed(T.cells, s, c, t);
    CompressedShape(s, c, t);
    AboveParent(T.cells, c, Root(t), s);
    var child := scanner.right;
    childRight := child.right;
    CompressStep(T, scanner, child, childRight);
    c', t', k' := InR(c, Folded(t), t.r.n, t.r.red), t.r.r, k - 1;
  }

  /** `count` left rotations down the line below `scanner0`. */
  method CompressSubtree(T: Traits, scanner0: Node, count: nat, ghost t0: Tree) returns (ghost t': Tree)
    requires T.Valid() && Making(T.cells, scanner0, Top, t0) && Line(T.cells, t0) && 2 * count <= Length(t0)
    modifies T, T.cells.Keys
    ensures T.Valid() && Making(T.cells, scanner0, Top, t') && Line(T.cells, t')
    ensures t' == Compress(t0, count) && {scanner0} + Nodes(t') == {scanner0} + Nodes(t0)
    ensures OnlyBelow(old(T.cells), T.cells, scanner0, {scanner0} + Nodes(t0))
  {
    ghost var s, m0, c, t, left: nat, goal := scanner0, T.cells, Top, t0, count, Compress(t0, count);
    var scanner: Node, k: nat := scanner0, count;
    while k > 0
      invariant T.Valid() && OnlyBelow(m0, T.cells, s, Foot(s, Top, t0)) && Foot(s, c, t) == Foot(s, Top, t0)
      invariant Compressing(T.cells, s, c, t, left, goal) && scanner == Parent(c, s) && left == k
      decreases k
    {
      scanner, c, t, left := CompressNext(T, scanner, s, c, t, left, goal);
      k := k - 1;
    }
    t' := Plug(c, t);
    LinePlug(T.cells, s, c, t);
  }

  /** The tree `t` hangs below `s` with its line not yet having parents. */
  ghost predicate OnLine(m: Cells, s: Node, t: Tree) {
    Making(m, s, Top, t) && Line(m, t)
  }

  /** Between two passes: 2^j - 1 nodes on the line, everything off it packed to level `i`. */
  ghost predicate Passing(m: Cells, s: Node, t: Tree, vineNodes: nat, j: nat, i: nat) {
    OnLine(m, s, t) && Spine(t, vineNodes, i) && vineNodes == Pow2(j) - 1
  }

  /** The tree has become `t` by changes to its nodes and to the right link of `s`. */
  ghost predicate Became(m0: Cells, m: Cells, s: Node, t0: Tree, t: Tree) {
    OnlyBelow(m0, m, s, {s} + Nodes(t0)) && InOrder(t) == InOrder(t0) && {s} + Nodes(t) == {s} + Nodes(t0)
  }

  lemma BecameMore(m0: Cells, m: Cells, m': Cells, s: Node, t0: Tree, t: Tree, t': Tree)
    requires Became(m0, m, s, t0, t) && Became(m, m', s, t, t')
    ensures Became(m0, m', s, t0, t')
  {
  }

  /** The first pass makes the deepest leaves. */
  method MakeLeaves(T: Traits, superRoot: Node, count: nat, ghost v: Tree)
      returns (vineNodes: nat, ghost t: Tree, ghost j: nat)
    requires T.Valid() && OnLine(T.cells, superRoot, v) && Vine(v) && count == Length(v)
    modifies T, T.cells.Keys
    ensures T.Valid() && Passing(T.cells, superRoot, t, vineNodes, j, 0)
      && Became(old(T.cells), T.cells, superRoot, v, t)
  {
    j := FloorLog2(count + 1);
    var leafNodes: nat := count + 1 - Pow2(FloorLog2(count + 1));
    CompressVine(v, leafNodes);
    CompressKeeps(v, leafNodes);
    t := CompressSubtree(T, superRoot, leafNodes, v);
    vineNodes := count - leafNodes;
  }

  /** A further pass, with `count` rotations. */
  method CompressPass(T: Traits, superRoot: Node, count: nat, ghost t: Tree, ghost i: nat)
      returns (ghost t': Tree, ghost i': nat)
    requires T.Valid() && OnLine(T.cells, superRoot, t) && Spine(t, 2 * count + 1, i)
    modifies T, T.cells.Keys
    ensures T.Valid() && i' == i + 1 && OnLine(T.cells, superRoot, t') && Spine(t', count, i')
      && Became(old(T.cells), T.cells, superRoot, t, t')
  {
    CompressSpine(t, count, i);
    CompressKeeps(t, count);
    t' := CompressSubtree(T, superRoot, count, t);
    i' := i + 1;
  }

  method HalveLine(T: Traits, superRoot: Node, vineNodes: nat, ghost t: Tree, ghost j: nat, ghost i: nat,
      ghost m0: Cells, ghost t0: Tree)
      returns (vineNodes': nat, ghost t': Tree, ghost j': nat, ghost i': nat)
    requires T.Valid() && Passing(T.cells, superRoot, t, vineNodes, j, i) && 1 < vineNodes
      && Became(m0, T.cells, superRoot, t0, t)
    modifies T, T.cells.Keys
    ensures T.Valid() && Passing(T.cells, superRoot, t', vineNodes', j', i') && Became(m0, T.cells, superRoot, t0, t')
    ensures vineNodes' < vineNodes && T.cells.Keys == old(T.cells.Keys)
  {
    j' := HalvedPow2(j, vineNodes);
    vineNodes' := vineNodes / 2;
    ghost var m := T.cells;
    t', i' := CompressPass(T, superRoot, vineNodes', t, i);
    BecameMore(m0, m, T.cells, superRoot, t0, t, t');
  }

  /** The passes that pack a vine. */
  method PackVine(T: Traits, superRoot: Node, count: nat, ghost v: Tree)
      returns (ghost t: Tree, ghost v': nat, ghost i: nat)
    requires T.Valid() && OnLine(T.cells, superRoot, v) && Vine(v) && count == Length(v)
    modifies T, T.cells.Keys
    ensures T.Valid() && OnLine(T.cells, superRoot, t) && Spine(t, v', i) && v' <= 1
    ensures Became(old(T.cells), T.cells, superRoot, v, t)
  {
    ghost var m0, j := T.cells, 0;
    var vineNodes;
    vineNodes, t, j := MakeLeaves(T, superRoot, count, v);
    i := 0;
    while vineNodes > 1
      invariant T.Valid() && Passing(T.cells, superRoot, t, vineNodes, j, i) && Became(m0, T.cells, superRoot, v, t)
      decreases vineNodes
    {
      vineNodes, t, j, i := HalveLine(T, superRoot, vineNodes, t, j, i, m0, v);
    }
    v' := vineNodes;
  }

  lemma {:induction false} ParentsDone(m: Cells, s: Node, c: Ctx, t: Tree)
    requires Above(m, c, Root(t), s, true) && Linked(m, t, Parent(c, s))
    ensures Linked(m, Plug(c, t), s)
  {
    if c.InR? {
      ParentsDone(m, s, c.up, Parented(c, t));
    }
  }

  /** The nodes of the line above `t` have their parents. */
  ghost predicate Parenting(m: Cells, s: Node, c: Ctx, t: Tree) {
    s in m && Apart(s, c, t) && Above(m, c, Root(t), s, true) && Line(m, t)
  }

  lemma ParentSetBelow(m: Cells, s: Node, c: Ctx, t: Tree)
    requires s in m && Apart(s, c, t) && t.Bin? && t.n in m
    ensures var m': Cells := m[t.n := m[t.n].(parent := Parent(c, s))];
      OnlyBelow(m, m', s, Foot(s, c, t)) && m'[s] == m[s]
    ensures Foot(s, InR(c, t.l, t.n, t.red), t.r) == Foot(s, c, t) && Apart(s, InR(c, t.l, t.n, t.red), t.r)
  {
  }

  lemma ParentSet(m: Cells, s: Node, c: Ctx, t: Tree)
    requires Parenting(m, s, c, t) && t.Bin?
    ensures var m': Cells := m[t.n := m[t.n].(parent := Parent(c, s))]; var c' := InR(c, t.l, t.n, t.red);
      Parenting(m', s, c', t.r) && Foot(s, c', t.r) == Foot(s, c, t) && m'[s] == m[s]
        && OnlyBelow(m, m', s, Foot(s, c, t))
  {
    var m': Cells := m[t.n := m[t.n].(parent := Parent(c, s))];
    ParentSetBelow(m, s, c, t);
    LinkedFrame(m, m', t.l, t.n);
    LineFrame(m, m', t.r);
    AboveFrame(m, m', c, t.n, s, true);
  }

  /** Sets the parents of the nodes that are still on the line. */
  method SetLineParents(T: Traits, superRoot: Node, ghost t0: Tree)
    requires T.Valid() && Making(T.cells, superRoot, Top, t0) && Line(T.cells, t0)
    modifies T, T.cells.Keys
    ensures T.Valid() && Linked(T.cells, t0, superRoot)
      && OnlyBelow(old(T.cells), T.cells, superRoot, {superRoot} + Nodes(t0))
    ensures T.cells[superRoot] == old(T.cells)[superRoot]
  {
    var q, p := superRoot, superRoot.right;
    ghost var m0, c, t := T.cells, Top, t0;
    while p != null
      invariant T.Valid() && Parenting(T.cells, superRoot, c, t) && q == Parent(c, superRoot) && p == Root(t)
      invariant Plug(c, t) == t0 && Foot(superRoot, c, t) == {superRoot} + Nodes(t0)
      invariant OnlyBelow(m0, T.cells, superRoot, {superRoot} + Nodes(t0)) && T.cells[superRoot] == m0[superRoot]
      decreases t
    {
      ParentSet(T.cells, superRoot, c, t);
      T.SetParent(p, q);
      c, t := InR(c, t.l, t.n, t.red), t.r;
      q := p;
      p := p.right;
    }
    ParentsDone(T.cells, superRoot, c, t);
  }

  /** Packs a vine, and makes it a linked tree again. */
  method VineToSubtree(T: Traits, superRoot: Node, count: nat, ghost v: Tree) returns (ghost t: Tree)
    requires T.Valid() && Making(T.cells, superRoot, Top, v) && Line(T.cells, v) && Vine(v) && count == Length(v)
    modifies T, T.cells.Keys
    ensures OnlyBelow(old(T.cells), T.cells, superRoot, {superRoot} + Nodes(v))
    ensures T.Valid() && Linked(T.cells, t, superRoot) && T.cells[superRoot].right == Root(t) && Distinct(t)
    ensures InOrder(t) == InOrder(v) && {superRoot} + Nodes(t) == {superRoot} + Nodes(v) && superRoot !in Nodes(t)
    ensures Lowest(t)
  {
    ghost var v', i;
    t, v', i := PackVine(T, superRoot, count, v);
    SpineHeight(t, v', i);
    SetLineParents(T, superRoot, t);
  }

  lemma {:induction false} LinkedChildren(m: Cells, t: Tree, p: Node?)
    requires Linked(m, t, p)
    ensures Children(m, t)
  {
    if t.Bin? {
      LinkedChildren(m, t.l, t.n);
      LinkedChildren(m, t.r, t.n);
    }
  }

  /** The super-root of a subtree can be told apart by its own parent link, and by the side the subtree is on. */
  lemma SuperRoot(m: Cells, h: Node, c: Ctx, t: Tree)
    requires Zip(m, h, c, t) && t.Bin?
    ensures Parent(c, h) in m && Parent(c, h) !in Nodes(t) && m[t.n].parent == Parent(c, h)
    ensures m[Parent(c, h)].parent == t.n <==> c.Top?
    ensures !c.Top? ==> (m[Parent(c, h)].right == t.n <==> c.InR?)
  {
    if !c.Top? {
      ChildSide(m, h, c, t);
    }
  }

  /** `m2` is `m0` up to a subtree of the same nodes, and the link to it. */
  lemma Rehooked(m0: Cells, m2: Cells, h: Node, c: Ctx, t: Tree, t': Tree)
    requires Zip(m0, h, c, t) && Parent(c, h) in m0 && Nodes(t') == Nodes(t) && Distinct(t')
    requires Linked(m2, t', Parent(c, h)) && OnlyChanged(m0, m2, {Parent(c, h)} + Nodes(t))
    requires m2[Parent(c, h)] == WithChild(m0, c, h, Root(t'))[Parent(c, h)]
    ensures Zip(m2, h, c, t') && Reshaped(m0, m2, h, Foot(h, c, t))
  {
    var m1 := WithChild(m0, c, h, Root(t'));
    ChildReplaced(m0, c, Root(t), h, Root(t'));
    AroundFrame(m1, m2, c, Root(t'), h);
  }

  /** Puts the links of the super-root back that were borrowed, and hooks the new root in. */
  method RecoverRoot(T: Traits, superRoot: Node, newRoot: Node?, backup: Node?, isHeader: bool, isRight: bool,
      ghost m0: Cells, ghost c: Ctx, ghost h: Node)
    requires T.Valid() && superRoot == Parent(c, h) && superRoot in m0 && superRoot in T.cells
    requires T.cells[superRoot] == m0[superRoot].(right := newRoot) && backup == m0[superRoot].right
    requires isHeader <==> c.Top?
    requires !c.Top? ==> (isRight <==> c.InR?)
    modifies T, T.cells.Keys
    ensures T.Valid() && OnlyChanged(old(T.cells), T.cells, {superRoot})
    ensures T.cells[superRoot] == WithChild(m0, c, h, newRoot)[superRoot]
  {
    if isHeader {
      T.SetRight(superRoot, backup);
      T.SetParent(superRoot, newRoot);
    } else if isRight {
      T.SetRight(superRoot, newRoot);
    } else {
      T.SetRight(superRoot, backup);
      T.SetLeft(superRoot, newRoot);
    }
  }

  /** Hangs the subtree below `superRoot` on its right link. */
  method HangRight(T: Traits, superRoot: Node, oldRoot: Node, ghost t: Tree)
    requires T.Valid() && superRoot in T.cells && Linked(T.cells, t, superRoot) && Distinct(t) && superRoot !in Nodes(t)
    requires t.Bin? && oldRoot == t.n
    modifies T, T.cells.Keys
    ensures T.Valid() && Making(T.cells, superRoot, Top, t) && Children(T.cells, t)
    ensures OnlyBelow(old(T.cells), T.cells, superRoot, {superRoot} + Nodes(t))
  {
    ghost var m0 := T.cells;
    LinkedChildren(m0, t, superRoot);
    T.SetRight(superRoot, oldRoot);
    ChildrenFrame(m0, T.cells, t);
  }

  /** The subtree below `superRoot`, hung on its right link, turned into a vine and packed. */
  method RebuildRight(T: Traits, superRoot: Node, oldRoot: Node, ghost t: Tree) returns (ghost t': Tree)
    requires T.Valid() && superRoot in T.cells && Linked(T.cells, t, superRoot) && Distinct(t) && superRoot !in Nodes(t)
    requires t.Bin? && oldRoot == t.n
    modifies T, T.cells.Keys
    ensures OnlyBelow(old(T.cells), T.cells, superRoot, {superRoot} + Nodes(t))
    ensures T.Valid() && Linked(T.cells, t', superRoot) && T.cells[superRoot].right == Root(t') && Distinct(t')
    ensures InOrder(t') == InOrder(t) && Nodes(t') == Nodes(t) && Lowest(t')
  {
    ghost var m0 := T.cells;
    HangRight(T, superRoot, oldRoot, t);
    ghost var m1 := T.cells;
    var size;
    ghost var v;
    size, v := SubtreeToVine(T, superRoot, t);
    ghost var m2 := T.cells;
    t' := VineToSubtree(T, superRoot, size, v);
    BelowAgain(m0, m1, m2, superRoot, {superRoot} + Nodes(t));
    BelowAgain(m0, m2, T.cells, superRoot, {superRoot} + Nodes(t));
    ElemsInOrder(t);
    ElemsInOrder(t');
  }

  /** Rebalances the subtree at `oldRoot`: the order is kept, and the height is the least possible. */
  method RebalanceSubtree(T: Traits, oldRoot: Node, ghost h: Node, ghost c: Ctx, ghost t: Tree)
      returns (newRoot: Node?, ghost t': Tree)
    requires T.Valid() && Zip(T.cells, h, c, t) && t.Bin? && oldRoot == t.n
    modifies T, T.cells.Keys
    ensures T.Valid() && Zip(T.cells, h, c, t') && Reshaped(old(T.cells), T.cells, h, Foot(h, c, t))
    ensures InOrder(t') == InOrder(t) && newRoot == Root(t') && Lowest(t')
    ensures forall n <- T.cells :: T.cells[n].red == old(T.cells)[n].red
  {
    ghost var m0 := T.cells;
    SuperRoot(m0, h, c, t);
    var superRoot: Node := oldRoot.parent;
    var superRootRightBackup := superRoot.right;
    var superRootIsHeader := superRoot.parent == oldRoot;
    var oldRootIsRight := superRoot.right == oldRoot;
    t' := RebuildRight(T, superRoot, oldRoot, t);
    newRoot := superRoot.right;
    ghost var m1 := T.cells;
    RecoverRoot(T, superRoot, newRoot, superRootRightBackup, superRootIsHeader, oldRootIsRight, m0, c, h);
    LinkedFrame(m1, T.cells, t', superRoot);
    Rehooked(m0, T.cells, h, c, t, t');
  }

  /** Rebalances a whole tree. */
  method RebalanceTree(T: Traits, h: Node, ghost t: Tree) returns (ghost t': Tree)
    requires T.Valid() && IsTree(T.cells, h, t)
    modifies T, T.cells.Keys
    ensures T.Valid() && IsTree(T.cells, h, t') && InOrder(t') == InOrder(t) && Lowest(t')
    ensures OnlyChanged(old(T.cells), T.cells, {h} + Nodes(t))
    ensures forall n <- T.cells :: T.cells[n].red == old(T.cells)[n].red
  {
    t' := t;
    var root := h.parent;
    if root != null {
      var newRoot;
      newRoot, t' := RebalanceSubtree(T, root, h, Top, t);
    }
  }
}
