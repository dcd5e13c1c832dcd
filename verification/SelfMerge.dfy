/** Transferring a node behind its equals in its own tree (bstree.hpp, bstree_algorithms.hpp, rbtree_algorithms.hpp). */
module SelfMerge {
  import opened NodeTraits
  import opened Trees
  import opened TreeGraph
  import opened Rotations
  import opened BstLinks
  import opened BstErase
  import opened RedBlack
  import opened RbTree
  import opened Order
  import opened Search
  import opened InsertChecks

  /** The last node is checked for a place below itself, on the right. */
  lemma LastChecked(comp: Comp, h: Node, t: Tree, z: Node, data: CommitData, c: Ctx)
    requires StrictWeak(comp) && Sorted(comp, InOrder(t)) && t.Bin? && z == InOrder(t)[|InOrder(t)| - 1]
    requires HoleAt(h, t, data, c, UpperBound(comp, InOrder(t), z.key))
    ensures data == CommitData(false, z)
  {
    var s := InOrder(t);
    BoundAt(s, [], BeforeUpper(comp, z.key));
    assert s + [] == s;
    PlugInOrder(c, Leaf);
    assert Pre(c) + [] + Post(c) == s;
    CtxEnds(c, h);
  }

  /** Linked in there, it is its own parent, and the tree it was taken from is not concerned. */
  lemma CommitAlone(m: Cells, h: Node, z: Node)
    requires z in m && h in m && z != h && m[h].right != z
    ensures var m' := CommitCells(m, h, z, CommitData(false, z));
      OnlyChanged(m, m', {z}) && m'[z] == Cell(z, null, null, m[z].red)
  {
  }

  /** The tree `t` has lost its last node `z`, which is its own parent and its own child. */
  ghost predicate LeftBehind(m0: Cells, m: Cells, h: Node, t: Tree, z: Node, t': Tree) {
    && t.Bin? && z == InOrder(t)[|InOrder(t)| - 1] && OnlyChanged(m0, m, {h} + Nodes(t))
    && IsRb(m, h, t') && InOrder(t') == InOrder(t)[..|InOrder(t)| - 1]
    && z in m && m[z] == Cell(z, z, z, false)
  }

  /** Unlinked, linked in below itself, and the tree rebalanced for the loss. */
  method RelinkLast(T: Traits, h: Node, comp: Comp, z: Node, ghost t: Tree) returns (ghost t': Tree)
    requires T.Valid() && IsRb(T.cells, h, t) && StrictWeak(comp) && Sorted(comp, InOrder(t))
    requires t.Bin? && z == InOrder(t)[|InOrder(t)| - 1]
    modifies T, T.cells.Keys
    ensures T.Valid() && OnlyChanged(old(T.cells), T.cells, {h} + Nodes(t))
    ensures IsRb(T.cells, h, t') && InOrder(t') == InOrder(t)[..|InOrder(t)| - 1] && z !in {h} + Nodes(t')
    ensures z in T.cells && T.cells[z] == Cell(z, null, null, T.cells[z].red)
  {
    ghost var c0;
    var data;
    data, c0 := InsertEqualUpperBoundCheck(T, h, z.key, comp, t);
    LastChecked(comp, h, t, z, data, c0);
    ghost var c, s := FocusAt(T.cells, h, t, |InOrder(t)| - 1);
    ZipPlug(T.cells, h, c, s);
    LastOut(h, c, s);
    t' := RelinkAt(T, h, z, data, c, s);
  }

  method RelinkAt(T: Traits, h: Node, z: Node, data: CommitData, ghost c: Ctx, ghost s: Tree) returns (ghost t': Tree)
    requires T.Valid() && IsRb(T.cells, h, Plug(c, s)) && s.Bin? && z == s.n && Zip(T.cells, h, c, s)
    requires data == CommitData(false, z) && Last(Without(c, s), h) != z && z != h && z in Foot(h, c, s)
    modifies T, T.cells.Keys
    ensures T.Valid() && OnlyChanged(old(T.cells), T.cells, Foot(h, c, s))
    ensures IsRb(T.cells, h, t') && InOrder(t') == Without(c, s) && z !in {h} + Nodes(t')
    ensures z in T.cells && T.cells[z] == Cell(z, null, null, T.cells[z].red)
  {
    ghost var m0 := T.cells;
    ErasedFoot(m0, h, c, s);
    var info := Erase(T, h, z, c, s);
    ghost var m := T.cells;
    CommitAside(m0, m, h, z, c, s);
    CommitLinks(T, h, z, data);
    ghost var m1 := T.cells;
    t' := RebalanceAfterErasure(T, h, z, info, c, s);
    AsideStill(m0, m1, T.cells, z, Foot(h, c, s), Foot(h, ErasedCtx(c, s), ErasedSub(s)));
  }

  /** The node linked in below itself does not concern the tree it was unlinked from. */
  lemma CommitAside(m0: Cells, m: Cells, h: Node, z: Node, c: Ctx, s: Tree)
    requires s.Bin? && z == s.n && Zip(m, h, ErasedCtx(c, s), ErasedSub(s)) && Ends(m, h, Without(c, s))
    requires z in m && z != h && z !in Foot(h, ErasedCtx(c, s), ErasedSub(s)) && Last(Without(c, s), h) != z
    requires OnlyChanged(m0, m, Foot(h, c, s)) && z in Foot(h, c, s)
    ensures h in m
    ensures var m' := CommitCells(m, h, z, CommitData(false, z));
      && OnlyChanged(m0, m', Foot(h, c, s)) && m'[z] == Cell(z, null, null, m[z].red) && m'[h] == m[h]
      && Zip(m', h, ErasedCtx(c, s), ErasedSub(s)) && Ends(m', h, Without(c, s))
  {
    CommitAlone(m, h, z);
    ZipFrame(m, CommitCells(m, h, z, CommitData(false, z)), h, ErasedCtx(c, s), ErasedSub(s));
  }

  lemma AsideStill(m0: Cells, m: Cells, m': Cells, z: Node, d: set<Node>, d': set<Node>)
    requires OnlyChanged(m0, m, d) && OnlyChanged(m, m', d') && d' <= d && z !in d' && z in m
    ensures OnlyChanged(m0, m', d) && z in m' && m'[z] == m[z]
  {
  }

  /** The order around the last node. */
  lemma LastOut(h: Node, c: Ctx, s: Tree)
    requires s.Bin? && Apart(h, c, s) && |Before(c, s)| == |InOrder(Plug(c, s))| - 1
    ensures var o := InOrder(Plug(c, s)); o[|o| - 1] == s.n && Without(c, s) == o[..|o| - 1]
    ensures Last(Without(c, s), h) != s.n
    ensures s.n in Foot(h, c, s) && s.n != h
  {
    AroundRoot(c, s);
    var o := InOrder(Plug(c, s));
    assert After(c, s) == [];
    assert Without(c, s) == o[..|o| - 1];
    PlugDistinct(h, c, s);
    InOrderNoDup(Plug(c, s));
  }

  lemma PlugDistinct(h: Node, c: Ctx, s: Tree)
    requires Apart(h, c, s)
    ensures Distinct(Plug(c, s)) && h !in Nodes(Plug(c, s))
  {
  }

  /** The repair after an insertion meets nothing but the node itself. It is its own parent and its own grandparent, is
      red, and has no child: so there is one turn, with one rotation of the node around itself. */
  method TurnAround(T: Traits, h: Node, p: Node)
    requires T.Valid() && h in T.cells && p in T.cells && p != h && T.cells[p] == Cell(p, null, null, T.cells[p].red)
    modifies T, T.cells.Keys
    ensures T.Valid() && T.cells == old(T.cells)[p := Cell(p, p, p, false)]
  {
    ghost var m, c := T.cells, InR(Top, Leaf, p, true);
    T.SetColor(p, true);
    var pParent: Node := p.parent;
    var pGrandparent: Node := pParent.parent;
    var over := pParent == h || !pParent.red || pGrandparent == h;
    T.SetColor(pGrandparent, true);
    var pGrandparentLeft := pGrandparent.left;
    var pParentIsLeftChild := pParent == pGrandparentLeft;
    var pIsLeftChild := pParent.left == p;
    assert !over && !pParentIsLeftChild && pGrandparentLeft == null && !pIsLeftChild;
    assert T.cells == m[p := Cell(p, null, null, true)];
    RotateLeft(T, pGrandparent, pParent, pGrandparent, h, c);
    T.SetColor(pParent, false);
  }

  /** Then the root is painted black, which fails if there is none. */
  method RepairItself(T: Traits, h: Node, z: Node, ghost t: Tree) returns (ok: bool)
    requires T.Valid() && IsRb(T.cells, h, t) && z in T.cells && z !in {h} + Nodes(t)
    requires T.cells[z] == Cell(z, null, null, T.cells[z].red)
    modifies T, T.cells.Keys
    ensures T.Valid() && OnlyChanged(old(T.cells), T.cells, {z}) && IsRb(T.cells, h, t)
    ensures z in T.cells && T.cells[z] == Cell(z, z, z, false) && (ok <==> t.Bin?)
  {
    ghost var m := T.cells;
    TurnAround(T, h, z);
    IsRbFrame(m, T.cells, h, t);
    ok := h.parent != null;
    if ok {
      var root: Node := h.parent;
      assert T.cells[root := T.cells[root].(red := false)] == T.cells;
      T.SetColor(root, false);
    }
  }

  /** Transferring the last node into its own tree: the tree loses it. If it was the only one the transfer fails. */
  method TransferLast(T: Traits, h: Node, comp: Comp, z: Node, ghost t: Tree) returns (ok: bool, ghost t': Tree)
    requires T.Valid() && IsRb(T.cells, h, t) && StrictWeak(comp) && Sorted(comp, InOrder(t))
    requires t.Bin? && z == InOrder(t)[|InOrder(t)| - 1]
    modifies T, T.cells.Keys
    ensures T.Valid() && LeftBehind(old(T.cells), T.cells, h, t, z, t') && (ok <==> 1 < |InOrder(t)|)
  {
    InOrderMember(t, |InOrder(t)| - 1);
    t' := RelinkLast(T, h, comp, z, t);
    ok := RepairItself(T, h, z, t');
  }

  /** The links while a container is being merged into itself, their tree, and where the iterator stands. */
  datatype Stage = Stage(cells: Cells, tree: Tree, it: Node)

  /** The links still represent a container of the same nodes. */
  ghost predicate Kept(comp: Comp, h: Node, t0: Tree, a: Stage) {
    IsRb(a.cells, h, a.tree) && Sorted(comp, InOrder(a.tree)) && Nodes(a.tree) == Nodes(t0)
  }

  /** One turn of the merge: the iterator goes on, and then the node it stood on is transferred. Of that nothing is
      taken for granted here but what `TransferLast` leaves if it is the last node. */
  ghost predicate Turn(h: Node, a: Stage, b: Stage) {
    exists i :: 0 <= i < |InOrder(a.tree)| && a.it == InOrder(a.tree)[i] && b.it == At(InOrder(a.tree), i + 1, h)
      && (i == |InOrder(a.tree)| - 1 ==> 1 < |InOrder(a.tree)| && LeftBehind(a.cells, b.cells, h, a.tree, a.it, b.tree))
  }

  /** A run of the merge from the first node to the end, in which the container keeps its nodes. */
  ghost predicate Finished(comp: Comp, h: Node, m: Cells, t: Tree, run: seq<Stage>) {
    && run != [] && run[0] == Stage(m, t, First(InOrder(t), h)) && run[|run| - 1].it == h
    && (forall i :: 0 <= i < |run| ==> Kept(comp, h, t, run[i]))
    && forall i :: 0 <= i < |run| - 1 ==> Turn(h, run[i], run[i + 1])
  }

  lemma OwnParent(m: Cells, h: Node, t: Tree, z: Node)
    requires IsTree(m, h, t) && z in Nodes(t)
    ensures z in m && m[z].parent != z
  {
    var c, s := Focus(t, z);
    ZipPlug(m, h, c, s);
    assert s.n in Nodes(s);
  }

  /** A turn that keeps the container does not reach the end. */
  lemma NotTheEnd(comp: Comp, h: Node, t: Tree, a: Stage, b: Stage)
    requires Kept(comp, h, t, a) && Kept(comp, h, t, b) && Turn(h, a, b)
    ensures b.it != h
  {
    var s := InOrder(a.tree);
    var i :| 0 <= i < |s| && a.it == s[i] && b.it == At(s, i + 1, h)
      && (i == |s| - 1 ==> 1 < |s| && LeftBehind(a.cells, b.cells, h, a.tree, a.it, b.tree));
    InOrderMember(a.tree, i);
    if i == |s| - 1 {
      OwnParent(b.cells, h, b.tree, a.it);
    } else {
      InOrderMember(a.tree, i + 1);
    }
  }

  /** A container can be merged into itself exactly if it is empty. */
  lemma SelfMergeExact(comp: Comp, h: Node, m: Cells, t: Tree)
    requires IsRb(m, h, t) && Sorted(comp, InOrder(t))
    ensures (exists run :: Finished(comp, h, m, t, run)) <==> t.Leaf?
  {
    if t.Leaf? {
      var run := [Stage(m, t, h)];
      assert Finished(comp, h, m, t, run);
    } else {
      InOrderMember(t, 0);
      forall run ensures !Finished(comp, h, m, t, run) {
        if Finished(comp, h, m, t, run) {
          var n := |run| - 1;
          assert Turn(h, run[n - 1], run[n - 1 + 1]);
          NotTheEnd(comp, h, t, run[n - 1], run[n]);
        }
      }
    }
  }

  /** The smallest such container: one element. */
  lemma OneElement(comp: Comp, h: Node, z: Node)
    requires h != z && StrictWeak(comp)
    ensures var t := Bin(Leaf, z, false, Leaf);
      var m: Cells := map[h := Cell(z, z, z, true), z := Cell(h, null, null, false)];
      IsRb(m, h, t) && Sorted(comp, InOrder(t)) && !exists run :: Finished(comp, h, m, t, run)
  {
    var t := Bin(Leaf, z, false, Leaf);
    var m: Cells := map[h := Cell(z, z, z, true), z := Cell(h, null, null, false)];
    Single(z, false);
    assert Linked(m, t, h);
    assert IsTree(m, h, t);
    assert IsRb(m, h, t);
    SelfMergeExact(comp, h, m, t);
  }
}
