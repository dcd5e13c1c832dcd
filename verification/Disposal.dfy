/** Taking a tree apart: all at once, and node by node (bstree_algorithms.hpp). */
module Disposal {
  import opened NodeTraits
  import opened Trees
  import opened TreeGraph
  import opened Rotations
  import opened TreeBase
  import opened BstLinks
  import opened Rebalance

  /** The nodes `s` have been reset, keeping their colours. */
  ghost predicate Reset(m0: Cells, m: Cells, s: seq<Node>) {
    forall n <- s :: n in m0 && n in m && m[n] == Cell(null, null, null, m0[n].red)
  }

  /** No colour has changed, and nothing but the nodes `a`. */
  ghost predicate Relinked(m0: Cells, m: Cells, a: set<Node>) {
    OnlyChanged(m0, m, a) && forall n <- m :: m[n].red == m0[n].red
  }

  /** The nodes `disposed` are done with, and `t` is what is left of `t0`. */
  ghost predicate Disposing(m0: Cells, m: Cells, t0: Tree, disposed: seq<Node>, t: Tree) {
    && disposed + InOrder(t) == InOrder(t0) && Nodes(t) <= Nodes(t0) && Elems(disposed) <= Nodes(t0)
      && Elems(disposed) !! Nodes(t)
    && Distinct(t) && Children(m, t) && Relinked(m0, m, Nodes(t0)) && Reset(m0, m, disposed)
  }

  /** The rotation by which the left child comes above the root. */
  ghost function Lifted(m: Cells, x: Node, save: Node): Cells
    requires x in m && save in m
  {
    var m1: Cells := m[x := m[x].(left := m[save].right)];
    m1[save := m1[save].(right := x)]
  }

  lemma LiftedTree(m: Cells, t: Tree)
    requires Children(m, t) && Distinct(t) && t.Bin? && t.l.Bin?
    ensures t.n in m && t.l.n in m
    ensures var m' := Lifted(m, t.n, t.l.n); Children(m', TurnR(t)) && Relinked(m, m', {t.n, t.l.n})
  {
    assert Children(m, t.l);
    PivotApart(t);
    var m' := Lifted(m, t.n, t.l.n);
    ChildrenFrame(m, m', t.l.l);
    ChildrenFrame(m, m', t.l.r);
    ChildrenFrame(m, m', t.r);
  }

  lemma TurnRDistinct(t: Tree)
    requires Distinct(t) && t.Bin? && t.l.Bin?
    ensures Distinct(TurnR(t))
  {
    PivotApart(t);
    assert Nodes(t.l.r) <= Nodes(t.l) && Nodes(t.l.l) <= Nodes(t.l);
  }

  lemma PivotApart(t: Tree)
    requires Distinct(t) && t.Bin? && t.l.Bin?
    ensures t.n != t.l.n && t.n !in Nodes(t.l.l) + Nodes(t.l.r) + Nodes(t.r)
      && t.l.n !in Nodes(t.l.l) + Nodes(t.l.r) + Nodes(t.r)
  {
    assert Distinct(t.l) && t.l.n in Nodes(t.l);
  }

  lemma DisposeLifted(m0: Cells, m: Cells, t0: Tree, disposed: seq<Node>, t: Tree)
    requires Disposing(m0, m, t0, disposed, t) && t.Bin? && t.l.Bin?
    ensures t.n in m && t.l.n in m
    ensures Disposing(m0, Lifted(m, t.n, t.l.n), t0, disposed, TurnR(t))
    ensures Size(TurnR(t)) == Size(t) && Size(TurnR(t).l) < Size(t.l)
  {
    LiftedTree(m, t);
    TurnRKeeps(t);
    TurnRDistinct(t);
    TurnRSize(t);
  }

  lemma DisposeFirst(m0: Cells, m: Cells, t0: Tree, disposed: seq<Node>, t: Tree)
    requires Disposing(m0, m, t0, disposed, t) && t.Bin? && t.l.Leaf?
    ensures t.n in m
    ensures Disposing(m0, m[t.n := Cell(null, null, null, m[t.n].red)], t0, disposed + [t.n], t.r)
  {
    var m': Cells := m[t.n := Cell(null, null, null, m[t.n].red)];
    ChildrenFrame(m, m', t.r);
    assert InOrder(t) == [t.n] + InOrder(t.r);
    assert disposed + ([t.n] + InOrder(t.r)) == (disposed + [t.n]) + InOrder(t.r);
    ElemsConcat(disposed, [t.n]);
  }

  /** Disposes of all nodes of a subtree, in order and without a stack. Returns the calls of the disposer. */
  method DisposeSubtree(T: Traits, x0: Node?, ghost t0: Tree) returns (disposed: seq<Node>)
    requires T.Valid() && Children(T.cells, t0) && Distinct(t0) && x0 == Root(t0)
    modifies T, T.cells.Keys
    ensures T.Valid() && disposed == InOrder(t0) && Reset(old(T.cells), T.cells, disposed)
    ensures forall n <- disposed :: n in T.cells && T.cells[n] == Cell(null, null, null, old(T.cells)[n].red)
    ensures OnlyChanged(old(T.cells), T.cells, Nodes(t0))
  {
    var x := x0;
    ghost var m0, t := T.cells, t0;
    disposed := [];
    while x != null
      invariant T.Valid() && x == Root(t) && Disposing(m0, T.cells, t0, disposed, t)
      decreases Size(t), if t.Bin? then Size(t.l) else 0
    {
      var save := x.left;
      if save != null {
        DisposeLifted(m0, T.cells, t0, disposed, t);
        T.SetLeft(x, save.right);
        T.SetRight(save, x);
        t := TurnR(t);
      } else {
        DisposeFirst(m0, T.cells, t0, disposed, t);
        save := x.right;
        Init(T, x);
        var n: Node := x;
        disposed := disposed + [n];
        t := t.r;
      }
      x := save;
    }
  }

  /** Empties a tree, disposing of its nodes. */
  method ClearAndDispose(T: Traits, h: Node, ghost t: Tree) returns (disposed: seq<Node>)
    requires T.Valid() && IsTree(T.cells, h, t)
    modifies T, T.cells.Keys
    ensures T.Valid() && IsTree(T.cells, h, Leaf) && disposed == InOrder(t) && Reset(old(T.cells), T.cells, disposed)
    ensures OnlyChanged(old(T.cells), T.cells, {h} + Nodes(t)) && T.cells[h].red == old(T.cells)[h].red
  {
    var sourceRoot := h.parent;
    disposed := [];
    if sourceRoot != null {
      LinkedChildren(T.cells, t, h);
      disposed := DisposeSubtree(T, sourceRoot, t);
      ResetHeader(T, h);
      ElemsInOrder(t);
    }
  }

  /** The path from the leftmost node of `t` up to `c`, with what hangs right of it. */
  ghost function Down(c: Ctx, t: Tree): Ctx
    decreases t
  {
    if t.Leaf? then c else Down(InL(c, t.n, t.red, t.r), t.l)
  }

  /** The topmost node of a path. */
  ghost function TopNode(c: Ctx): Node? {
    if c.Top? then null else if c.up.Top? then c.n else TopNode(c.up)
  }

  /** What remains of a tree that is being unlinked from the left. Parents and right links hold along the
      path `c`; left links on the path may be stale. */
  ghost predicate Frayed(m: Cells, c: Ctx, h: Node) {
    match c
    case Top => true
    case InL(up, n, _, r) =>
      n in m && m[n].parent == Parent(up, h) && m[n].right == Root(r) && Linked(m, r, n) && Frayed(m, up, h)
    case InR(_, _, _, _) => false
  }

  /** `h` is the header of such a remainder: it links to the path's two ends. */
  ghost predicate Remainder(m: Cells, h: Node, c: Ctx) {
    && h in m && CDistinct(c) && h !in CNodes(c) && Frayed(m, c, h)
    && m[h].parent == TopNode(c) && m[h].left == Parent(c, h) && (c.Top? ==> m[h].right == h)
  }

  lemma {:induction false} DownFrayed(m: Cells, c: Ctx, t: Tree, h: Node)
    requires Frayed(m, c, h) && Linked(m, t, Parent(c, h))
    ensures Frayed(m, Down(c, t), h)
    decreases t
  {
    if t.Bin? {
      DownFrayed(m, InL(c, t.n, t.red, t.r), t.l, h);
    }
  }

  lemma {:induction false} DownShape(c: Ctx, t: Tree)
    requires CDistinct(c) && Distinct(t) && CNodes(c) !! Nodes(t)
    ensures CDistinct(Down(c, t)) && CNodes(Down(c, t)) == CNodes(c) + Nodes(t)
    decreases t
  {
    if t.Bin? {
      DownShape(InL(c, t.n, t.red, t.r), t.l);
    }
  }

  lemma {:induction false} DownPost(c: Ctx, t: Tree)
    ensures Post(Down(c, t)) == InOrder(t) + Post(c)
    decreases t
  {
    if t.Bin? {
      DownPost(InL(c, t.n, t.red, t.r), t.l);
      assert InOrder(t.l) + ([t.n] + InOrder(t.r) + Post(c)) == InOrder(t) + Post(c);
    } else {
      assert [] + Post(c) == Post(c);
    }
  }

  lemma {:induction false} DownEnds(c: Ctx, t: Tree, h: Node)
    ensures Down(c, t).Top? <==> c.Top? && t.Leaf?
    ensures TopNode(Down(c, t)) == if c.Top? then Root(t) else TopNode(c)
    ensures Parent(Down(c, t), h) == if t.Leaf? then Parent(c, h) else LeftEnd(t).n
    decreases t
  {
    if t.Bin? {
      DownEnds(InL(c, t.n, t.red, t.r), t.l, h);
    }
  }

  /** A whole tree is such a remainder. */
  lemma WholeRemainder(m: Cells, h: Node, t: Tree)
    requires IsTree(m, h, t)
    ensures Remainder(m, h, Down(Top, t)) && Post(Down(Top, t)) == InOrder(t) && CNodes(Down(Top, t)) == Nodes(t)
  {
    DownFrayed(m, Top, t, h);
    DownShape(Top, t);
    DownPost(Top, t);
    DownEnds(Top, t, h);
    assert InOrder(t) + [] == InOrder(t);
    if t.Bin? {
      LeftEndFirst(t);
    }
  }

  lemma {:induction false} FrayedFrame(m: Cells, m': Cells, c: Ctx, h: Node)
    requires Frayed(m, c, h) && Same(m, m', CNodes(c))
    ensures Frayed(m', c, h)
  {
    if c.InL? {
      LinkedFrame(m, m', c.r, c.n);
      FrayedFrame(m, m', c.up, h);
    }
  }

  ghost function Path(c: Ctx): set<Node> {
    if c.Top? then {} else Path(c.up) + {c.n}
  }

  lemma {:induction false} PathNodes(c: Ctx)
    ensures Path(c) <= CNodes(c)
    ensures !c.Top? ==> TopNode(c) in Path(c)
  {
    if !c.Top? {
      PathNodes(c.up);
    }
  }

  /** Left links on the path do not matter. */
  lemma {:induction false} FrayedLeft(m: Cells, c: Ctx, h: Node, p: Node, x: Node?)
    requires Frayed(m, c, h) && CDistinct(c) && p in Path(c) && p in m
    ensures Frayed(m[p := m[p].(left := x)], c, h)
  {
    var m': Cells := m[p := m[p].(left := x)];
    if c.InL? {
      PathNodes(c.up);
      LinkedFrame(m, m', c.r, c.n);
      if p == c.n {
        FrayedFrame(m, m', c.up, h);
      } else {
        FrayedLeft(m, c.up, h, p, x);
      }
    }
  }

  /** The path after its first node is gone: what hung right of that node comes first. */
  ghost function Rest(c: Ctx): Ctx
    requires c.InL?
  {
    Down(c.up, c.r)
  }

  lemma RestShape(c: Ctx, h: Node)
    requires c.InL? && CDistinct(c) && h !in CNodes(c)
    ensures Post(c) == [c.n] + Post(Rest(c))
    ensures CDistinct(Rest(c)) && CNodes(Rest(c)) == CNodes(c) - {c.n} && h !in CNodes(Rest(c))
  {
    DownShape(c.up, c.r);
    DownPost(c.up, c.r);
    assert [c.n] + InOrder(c.r) + Post(c.up) == [c.n] + (InOrder(c.r) + Post(c.up));
  }

  /** The first node has something on its right: that is linked to the parent, and from the root or the
      header, whichever; the first node of it becomes the leftmost. */
  ghost function UnlinkedAbove(m: Cells, h: Node, c: Ctx): Cells
    requires c.InL? && c.r.Bin? && c.r.n in m && h in m && (!c.up.Top? ==> TopNode(c.up) != null && TopNode(c.up) in m)
  {
    var m1: Cells := m[c.r.n := m[c.r.n].(parent := Parent(c.up, h))];
    var m2: Cells := m1[h := m1[h].(left := LeftEnd(c.r).n)];
    if c.up.Top? then m2[h := m2[h].(parent := c.r.n)]
    else var root: Node := TopNode(c.up); m2[root := m2[root].(left := c.r.n)]
  }

  /** The path above is as before, but for a left link of its topmost node. */
  lemma UnlinkAbovePath(m: Cells, h: Node, c: Ctx)
    requires Frayed(m, c, h) && CDistinct(c) && h !in CNodes(c) && h in m && c.InL? && c.r.Bin?
    ensures c.r.n in m && (!c.up.Top? ==> TopNode(c.up) != null && TopNode(c.up) in m)
    ensures Frayed(UnlinkedAbove(m, h, c), c.up, h)
  {
    var up := c.up;
    FrayedIn(m, up, h);
    PathNodes(up);
    assert !up.Top? ==> TopNode(up) in CNodes(up);
    var m' := UnlinkedAbove(m, h, c);
    if !up.Top? {
      var root: Node := TopNode(up);
      var m1: Cells := m[root := m[root].(left := c.r.n)];
      FrayedLeft(m, up, h, root, c.r.n);
      FrayedFrame(m1, m', up, h);
    }
  }

  lemma UnlinkAboveRight(m: Cells, h: Node, c: Ctx)
    requires Frayed(m, c, h) && CDistinct(c) && h !in CNodes(c) && h in m && c.InL? && c.r.Bin?
    requires c.r.n in m && (!c.up.Top? ==> TopNode(c.up) != null && TopNode(c.up) in m)
    ensures Linked(UnlinkedAbove(m, h, c), c.r, Parent(c.up, h))
    ensures OnlyChanged(m, UnlinkedAbove(m, h, c), {h} + CNodes(c) - {c.n})
    ensures UnlinkedAbove(m, h, c)[h] == m[h].(left := LeftEnd(c.r).n, parent := if c.up.Top? then c.r.n
      else m[h].parent)
  {
    PathNodes(c.up);
    Reparented(m, UnlinkedAbove(m, h, c), c.r, c.n, Parent(c.up, h));
  }

  lemma UnlinkAboveColors(m: Cells, h: Node, c: Ctx)
    requires c.InL? && c.r.Bin? && c.r.n in m && h in m && (!c.up.Top? ==> TopNode(c.up) != null && TopNode(c.up) in m)
    ensures UnlinkedAbove(m, h, c).Keys == m.Keys && forall n <- m :: UnlinkedAbove(m, h, c)[n].red == m[n].red
  {
  }

  lemma UnlinkAbove(m: Cells, h: Node, c: Ctx)
    requires Remainder(m, h, c) && c.InL? && c.r.Bin?
    ensures c.r.n in m && (!c.up.Top? ==> TopNode(c.up) != null && TopNode(c.up) in m)
    ensures Remainder(UnlinkedAbove(m, h, c), h, Rest(c))
    ensures Relinked(m, UnlinkedAbove(m, h, c), {h} + CNodes(c) - {c.n})
  {
    RestShape(c, h);
    DownEnds(c.up, c.r, h);
    UnlinkAbovePath(m, h, c);
    UnlinkAboveRight(m, h, c);
    UnlinkAboveColors(m, h, c);
    DownFrayed(UnlinkedAbove(m, h, c), c.up, c.r, h);
  }

  lemma {:induction false} FrayedIn(m: Cells, c: Ctx, h: Node)
    requires Frayed(m, c, h)
    ensures CNodes(c) <= m.Keys
  {
    if c.InL? {
      LinkedIn(m, c.r, c.n);
      FrayedIn(m, c.up, h);
    }
  }

  /** The cases with nothing on the right of the first node. */
  lemma UnlinkLast(m: Cells, h: Node, c: Ctx)
    requires Remainder(m, h, c) && c.InL? && c.r.Leaf?
    ensures c.up.Top? ==> Remainder(m[h := Cell(null, h, h, m[h].red)], h, Rest(c))
    ensures !c.up.Top? ==> Parent(c.up, h) in m
    ensures !c.up.Top? ==>
      var m1: Cells := m[Parent(c.up, h) := m[Parent(c.up, h)].(left := null)];
      Remainder(m1[h := m1[h].(left := Parent(c.up, h))], h, Rest(c))
  {
    if !c.up.Top? {
      FrayedIn(m, c.up, h);
      var p := Parent(c.up, h);
      var m1: Cells := m[p := m[p].(left := null)];
      FrayedLeft(m, c.up, h, p, null);
      FrayedFrame(m1, m1[h := m1[h].(left := p)], c.up, h);
    }
  }

  lemma UnlinkLastColors(m: Cells, h: Node, p: Node, a: set<Node>)
    requires h in m && p in m && {h, p} <= a
    ensures Relinked(m, m[h := Cell(null, h, h, m[h].red)], a)
    ensures var m1: Cells := m[p := m[p].(left := null)]; Relinked(m, m1[h := m1[h].(left := p)], a)
  {
  }

  method LinkRightAbove(T: Traits, h: Node, leftmostParent: Node, leftmostRight: Node, isRoot: bool, ghost c: Ctx)
    requires T.Valid() && Remainder(T.cells, h, c) && c.InL? && c.r.Bin? && leftmostRight == c.r.n
    requires leftmostParent == Parent(c.up, h) && isRoot == c.up.Top?
    modifies T, T.cells.Keys
    ensures c.r.n in old(T.cells) && (!c.up.Top? ==> TopNode(c.up) != null && TopNode(c.up) in old(T.cells))
    ensures T.Valid() && T.cells == UnlinkedAbove(old(T.cells), h, c)
  {
    UnlinkAbove(T.cells, h, c);
    ghost var m := T.cells;
    T.SetParent(leftmostRight, leftmostParent);
    Reparented(m, T.cells, c.r, c.n, leftmostParent);
    var first := Minimum(T, leftmostRight, c.r, leftmostParent);
    T.SetLeft(h, first);
    if isRoot {
      T.SetParent(h, leftmostRight);
    } else {
      T.SetLeft(h.parent, leftmostRight);
    }
  }

  method LinkNothingAbove(T: Traits, h: Node, leftmostParent: Node, isRoot: bool, ghost c: Ctx)
    requires T.Valid() && Remainder(T.cells, h, c) && c.InL? && c.r.Leaf? && leftmostParent == Parent(c.up, h)
    requires isRoot == c.up.Top?
    modifies T, T.cells.Keys
    ensures T.Valid() && Remainder(T.cells, h, Rest(c)) && Relinked(old(T.cells), T.cells, {h} + CNodes(Rest(c)))
  {
    RestShape(c, h);
    FrayedIn(T.cells, c.up, h);
    UnlinkLast(T.cells, h, c);
    UnlinkLastColors(T.cells, h, Parent(c.up, h), {h} + CNodes(Rest(c)));
    if isRoot {
      ResetHeader(T, h);
    } else {
      T.SetLeft(leftmostParent, null);
      T.SetLeft(h, leftmostParent);
    }
  }

  /** Unlinks the leftmost node; null if there is none left. */
  method UnlinkLeftmost(T: Traits, h: Node, ghost c: Ctx) returns (leftmost: Node?, ghost c': Ctx)
    requires T.Valid() && Remainder(T.cells, h, c)
    modifies T, T.cells.Keys
    ensures T.Valid() && Remainder(T.cells, h, c') && T.cells[h].red == old(T.cells)[h].red
    ensures if c.Top? then leftmost == null && c' == Top && T.cells == old(T.cells)
            else leftmost == c.n && Post(c) == [c.n] + Post(c') && CNodes(c') == CNodes(c) - {c.n}
    ensures Relinked(old(T.cells), T.cells, {h} + CNodes(c'))
  {
    if h.left == h {
      return null, Top;
    }
    RestShape(c, h);
    FrayedIn(T.cells, c, h);
    c' := Rest(c);
    var n: Node := h.left;
    leftmost := n;
    var leftmostParent: Node, leftmostRight := n.parent, n.right;
    var isRoot := leftmostParent == h;
    if leftmostRight != null {
      UnlinkAbove(T.cells, h, c);
      LinkRightAbove(T, h, leftmostParent, leftmostRight, isRoot, c);
    } else {
      LinkNothingAbove(T, h, leftmostParent, isRoot, c);
    }
  }

  lemma InitRelinked(m0: Cells, m: Cells, n: Node, a: set<Node>, a': set<Node>)
    requires Relinked(m0, m, a) && n in m && a <= a' && n in a'
    ensures Relinked(m0, m[n := Cell(null, null, null, m[n].red)], a')
  {
  }

  /** The container's operation: the unlinked node is also reset. */
  method UnlinkAndInit(T: Traits, h: Node, ghost c: Ctx) returns (node: Node?, ghost c': Ctx)
    requires T.Valid() && Remainder(T.cells, h, c)
    modifies T, T.cells.Keys
    ensures T.Valid() && Remainder(T.cells, h, c') && T.cells[h].red == old(T.cells)[h].red
    ensures if c.Top? then node == null && c' == Top
            else node == c.n && Post(c) == [c.n] + Post(c') && CNodes(c') == CNodes(c) - {c.n}
                 && node in T.cells && Inited(T.cells[c.n])
    ensures Relinked(old(T.cells), T.cells, {h} + CNodes(c))
  {
    node, c' := UnlinkLeftmost(T, h, c);
    if node != null {
      ghost var m := T.cells;
      Init(T, node);
      InitRelinked(old(T.cells), m, node, {h} + CNodes(c'), {h} + CNodes(c));
      FrayedFrame(m, T.cells, c', h);
    }
  }

  ghost predicate Inited(cell: Cell) {
    cell.parent == null && cell.left == null && cell.right == null
  }

  /** The nodes `unlinked` are out, and reset; those after `c` remain. */
  ghost predicate Unlinking(m0: Cells, m: Cells, h: Node, t: Tree, unlinked: seq<Node>, c: Ctx) {
    && Remainder(m, h, c) && unlinked + Post(c) == InOrder(t) && CNodes(c) <= Nodes(t)
      && OnlyChanged(m0, m, {h} + Nodes(t))
    && forall n <- unlinked :: n in m && Inited(m[n]) && n !in {h} + CNodes(c)
  }

  lemma UnlinkingStep(m0: Cells, m: Cells, m': Cells, h: Node, t: Tree, unlinked: seq<Node>, c: Ctx, c': Ctx)
    requires Unlinking(m0, m, h, t, unlinked, c) && Remainder(m', h, c') && OnlyChanged(m, m', {h} + CNodes(c))
    requires c.InL? && Post(c) == [c.n] + Post(c') && CNodes(c') == CNodes(c) - {c.n} && c.n in m' && Inited(m'[c.n])
    ensures Unlinking(m0, m', h, t, unlinked + [c.n], c')
  {
    assert unlinked + ([c.n] + Post(c')) == unlinked + [c.n] + Post(c');
  }

  lemma UnlinkingStart(m: Cells, h: Node, t: Tree)
    requires IsTree(m, h, t)
    ensures Unlinking(m, m, h, t, [], Down(Top, t)) && Post(Down(Top, t)) == InOrder(t)
  {
    WholeRemainder(m, h, t);
    assert [] + Post(Down(Top, t)) == Post(Down(Top, t));
  }

  /** When nothing comes out any more nothing changes. */
  lemma UnlinkingOver(m0: Cells, m: Cells, m': Cells, h: Node, t: Tree, unlinked: seq<Node>, c: Ctx)
    requires Unlinking(m0, m, h, t, unlinked, c) && c.Top? && Remainder(m', h, c) && OnlyChanged(m, m', {h} + CNodes(c))
    ensures Unlinking(m0, m', h, t, unlinked, c)
  {
  }

  ghost predicate AllInited(m: Cells, s: seq<Node>) {
    forall n <- s :: n in m && Inited(m[n])
  }

  lemma UnlinkedAll(m0: Cells, m: Cells, h: Node, t: Tree, unlinked: seq<Node>)
    requires Unlinking(m0, m, h, t, unlinked, Top)
    ensures unlinked == InOrder(t) && IsTree(m, h, Leaf) && OnlyChanged(m0, m, {h} + Nodes(t)) && AllInited(m, unlinked)
  {
    assert unlinked + [] == unlinked;
  }
}
