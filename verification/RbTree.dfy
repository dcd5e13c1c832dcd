/** Red-black trees: insertion, erasure and transfer (rbtree_algorithms.hpp). */
module RbTree {
  import opened NodeTraits
  import opened Trees
  import opened TreeGraph
  import opened BstLinks
  import opened BstErase
  import opened RedBlack
  import opened RbInsertion
  import opened RbErasure

  /** `h` is the header of the red-black tree `t`. */
  ghost predicate IsRb(m: Cells, h: Node, t: Tree) {
    IsTree(m, h, t) && RB(t) && m[h].red
  }

  /** Makes `h` the header of an empty tree. */
  method InitHeader(T: Traits, h: Node)
    requires T.Valid() && h in T.cells
    modifies T, h
    ensures T.Valid() && IsRb(T.cells, h, Leaf) && OnlyChanged(old(T.cells), T.cells, {h})
  {
    ResetHeader(T, h);
    T.SetColor(h, true);
  }

  lemma IsRbFrame(m: Cells, m': Cells, h: Node, t: Tree)
    requires IsRb(m, h, t) && Same(m, m', Nodes(t) + {h})
    ensures IsRb(m', h, t)
  {
    IsTreeFrame(m, m', h, t);
  }

  /** The hole left by an erasure, after the successor took over the colour of the erased node. */
  ghost function PaintedCtx(c: Ctx, t: Tree): Ctx
    requires t.Bin?
  {
    if t.l.Leaf? || t.r.Leaf? then c else Append(LeftPath(t.r), InR(c, t.l, LeftEnd(t.r).n, t.red))
  }

  /** The colour that went missing: the colour of the node that left its place. */
  ghost function LostRed(t: Tree): bool
    requires t.Bin?
  {
    if t.l.Leaf? || t.r.Leaf? then t.red else LeftEnd(t.r).red
  }

  lemma LostOne(c: Ctx, t: Tree)
    requires RB(Plug(c, t)) && t.Bin? && (t.l.Leaf? || t.r.Leaf?)
    ensures t.red ==> RB(Plug(c, ErasedSub(t)))
    ensures !t.red ==> Short(c, ErasedSub(t))
  {
    var x := ErasedSub(t);
    PlugBalanced(c, t);
    PlugRed(c, t);
    if t.red {
      assert x.Leaf?;
      TakesBlack(c, true, BH(t));
      PlugBalanced(c, x);
      PlugRed(c, x);
    } else {
      assert BH(t) == BH(x) + 1;
      BalancedBlacken(x);
    }
  }

  lemma BalancedBlacken(t: Tree)
    requires Balanced(t)
    ensures Balanced(Blacken(t))
  {
  }

  /** The invariant does not depend on which nodes are where. */
  lemma {:induction false} TakesOtherNode(p: Ctx, c: Ctx, l: Tree, n: Node, n': Node, red: bool, r: bool, k: nat)
    ensures Takes(Append(p, InR(c, l, n, red)), r, k) <==> Takes(Append(p, InR(c, l, n', red)), r, k)
    ensures TopRed(Append(p, InR(c, l, n, red)), r) == TopRed(Append(p, InR(c, l, n', red)), r)
  {
    if !p.Top? {
      TakesOtherNode(p.up, c, l, n, n', red, p.red, k + if p.red then 0 else 1);
    }
  }

  /** After an erasure and the change of colour, the tree is a red-black tree if the colour that
      went missing is red, and short of one black node below the hole otherwise. */
  lemma AfterErasure(c: Ctx, t: Tree)
    requires RB(Plug(c, t)) && t.Bin?
    ensures LostRed(t) ==> RB(Plug(PaintedCtx(c, t), ErasedSub(t)))
    ensures !LostRed(t) ==> Short(PaintedCtx(c, t), ErasedSub(t))
  {
    if t.l.Leaf? || t.r.Leaf? {
      LostOne(c, t);
    } else {
      var p, e := LeftPath(t.r), LeftEnd(t.r);
      var d, d' := Append(p, InR(c, t.l, t.n, t.red)), PaintedCtx(c, t);
      LeftEndFirst(t.r);
      PlugAppend(p, InR(c, t.l, t.n, t.red), e);
      LostOne(d, e);
      var x := e.r;
      PlugBalanced(d, x);
      PlugBalanced(d', x);
      PlugRed(d, x);
      PlugRed(d', x);
      TakesOtherNode(p, c, t.l, t.n, e.n, t.red, IsRed(x), BH(x));
      TakesOtherNode(p, c, t.l, t.n, e.n, t.red, false, BH(x) + 1);
    }
  }

  /** The successor painted with the colour of the node it replaced. */
  lemma PaintedSuccessor(m: Cells, h: Node, c: Ctx, t: Tree)
    requires t.Bin? && t.l.Bin? && t.r.Bin? && Zip(m, h, WithoutRoot(c, t), LeftEnd(t.r).r)
    ensures var y, x := LeftEnd(t.r).n, LeftEnd(t.r).r;
      && y in m && m[y].red == LeftEnd(t.r).red
      && var m': Cells := m[y := m[y].(red := t.red)];
         Zip(m', h, PaintedCtx(c, t), x) && Reshaped(m, m', h, Foot(h, WithoutRoot(c, t), x))
    ensures Foot(h, PaintedCtx(c, t), LeftEnd(t.r).r) == Foot(h, WithoutRoot(c, t), LeftEnd(t.r).r)
  {
    var p, e := LeftPath(t.r), LeftEnd(t.r);
    var y, x := e.n, e.r;
    var c1, c2 := InR(c, t.l, y, e.red), InR(c, t.l, y, t.red);
    ZipPath(m, h, c1, p, x);
    ZipUp(m, h, c1, Plug(p, x));
    var m': Cells := m[y := m[y].(red := t.red)];
    Recolored(m, m', h, c, Bin(t.l, y, e.red, Plug(p, x)), t.red);
    ZipUp(m', h, c2, Plug(p, x));
    ZipPath(m', h, c2, p, x);
    AppendNodes(p, c1);
    AppendNodes(p, c2);
  }

  lemma PaintedInOrder(c: Ctx, t: Tree)
    requires t.Bin?
    ensures InOrder(Plug(PaintedCtx(c, t), ErasedSub(t))) == Without(c, t)
  {
    ErasedInOrder(c, t);
    if t.l.Bin? && t.r.Bin? {
      var p, e := LeftPath(t.r), LeftEnd(t.r);
      PreAppend(p, InR(c, t.l, e.n, e.red));
      PreAppend(p, InR(c, t.l, e.n, t.red));
      PlugInOrder(ErasedCtx(c, t), e.r);
      PlugInOrder(PaintedCtx(c, t), e.r);
    }
  }

  /** The successor, if one took the place of `z`, takes its colour. Returns the colour that is then missing. */
  method TakeColor(T: Traits, h: Node, z: Node, y: Node, ghost c: Ctx, ghost t: Tree) returns (newZIsRed: bool)
    requires T.Valid() && t.Bin? && z in T.cells && T.cells[z].red == t.red && z == t.n
    requires Zip(T.cells, h, ErasedCtx(c, t), ErasedSub(t)) && z !in Foot(h, ErasedCtx(c, t), ErasedSub(t))
    requires y == if t.l.Leaf? || t.r.Leaf? then z else LeftEnd(t.r).n
    modifies T, T.cells.Keys
    ensures T.Valid() && T.turns == old(T.turns) && Zip(T.cells, h, PaintedCtx(c, t), ErasedSub(t))
      && newZIsRed == LostRed(t)
    ensures Reshaped(old(T.cells), T.cells, h, Foot(h, ErasedCtx(c, t), ErasedSub(t)))
    ensures Foot(h, PaintedCtx(c, t), ErasedSub(t)) == Foot(h, ErasedCtx(c, t), ErasedSub(t))
    ensures Parent(PaintedCtx(c, t), h) == Parent(ErasedCtx(c, t), h)
  {
    if t.l.Bin? && t.r.Bin? {
      AppendNodes(LeftPath(t.r), InR(c, t.l, LeftEnd(t.r).n, LeftEnd(t.r).red));
    }
    if y != z {
      PaintedSuccessor(T.cells, h, c, t);
      AppendParent(LeftPath(t.r), InR(c, t.l, y, LeftEnd(t.r).red), h);
      AppendParent(LeftPath(t.r), InR(c, t.l, y, t.red), h);
      newZIsRed := y.red;
      T.SetColor(y, z.red);
    } else {
      newZIsRed := z.red;
    }
  }

  /** After the change of colour, a missing black node is made up for. */
  method RebalanceAfterErasure(T: Traits, h: Node, z: Node, info: RebalanceInfo, ghost c: Ctx, ghost t: Tree)
      returns (ghost t': Tree)
    requires T.Valid() && t.Bin? && RB(Plug(c, t)) && z in T.cells && T.cells[z].red == t.red
    requires Zip(T.cells, h, ErasedCtx(c, t), ErasedSub(t)) && Ends(T.cells, h, Without(c, t)) && T.cells[h].red
    requires z == t.n && z !in Foot(h, ErasedCtx(c, t), ErasedSub(t))
    requires info.x == Root(ErasedSub(t)) && info.xParent == Parent(ErasedCtx(c, t), h)
    requires info.y == if t.l.Leaf? || t.r.Leaf? then z else LeftEnd(t.r).n
    modifies T, T.cells.Keys
    ensures T.Valid() && IsRb(T.cells, h, t') && InOrder(t') == Without(c, t)
    ensures OnlyChanged(old(T.cells), T.cells, Foot(h, ErasedCtx(c, t), ErasedSub(t)))
    ensures {h} + Nodes(t') == Foot(h, ErasedCtx(c, t), ErasedSub(t))
    ensures T.turns <= old(T.turns) + 3
  {
    ghost var d, x := PaintedCtx(c, t), ErasedSub(t);
    var newZIsRed := TakeColor(T, h, z, info.y, c, t);
    AfterErasure(c, t);
    PaintedInOrder(c, t);
    if !newZIsRed {
      t' := RestoreInvariants(T, h, info.x, info.xParent, d, x);
    } else {
      ZipPlug(T.cells, h, d, x);
      t' := Plug(d, x);
    }
    SameOrderFoot(h, t', d, x);
  }

  /** Erases the node `z` of a red-black tree. */
  method RbErase(T: Traits, h: Node, z: Node, ghost c: Ctx, ghost t: Tree) returns (ghost t': Tree)
    requires T.Valid() && IsRb(T.cells, h, Plug(c, t)) && t.Bin? && z == t.n
    modifies T, T.cells.Keys
    ensures T.Valid() && IsRb(T.cells, h, t') && InOrder(t') == Without(c, t)
    ensures OnlyChanged(old(T.cells), T.cells, Foot(h, c, t))
    ensures {h} + Nodes(t') == Foot(h, c, t) - {z} && z in T.cells && T.cells[z] == old(T.cells)[z]
    ensures T.turns <= old(T.turns) + 3
  {
    ZipPlug(T.cells, h, c, t);
    ErasedFoot(T.cells, h, c, t);
    var info := Erase(T, h, z, c, t);
    t' := RebalanceAfterErasure(T, h, z, info, c, t);
  }

  lemma ErasedFoot(m: Cells, h: Node, c: Ctx, t: Tree)
    requires Zip(m, h, c, t) && t.Bin?
    ensures Foot(h, ErasedCtx(c, t), ErasedSub(t)) == Foot(h, c, t) - {t.n}
  {
    if t.l.Bin? && t.r.Bin? {
      SuccessorFoot(h, c, t);
    }
  }

  /** Links `newNode` in at the checked position, and rebalances. */
  method RbInsertCommit(T: Traits, h: Node, newNode: Node, data: CommitData, ghost c: Ctx) returns (ghost t': Tree)
    requires T.Valid() && Names(data, c, h) && RB(Plug(c, Leaf))
    requires Zip(T.cells, h, c, Leaf) && Ends(T.cells, h, Pre(c) + Post(c)) && T.cells[h].red
    requires newNode in T.cells && newNode !in Foot(h, c, Leaf)
    modifies T, T.cells.Keys
    ensures T.Valid() && IsRb(T.cells, h, t') && InOrder(t') == Pre(c) + [newNode] + Post(c)
    ensures OnlyChanged(old(T.cells), T.cells, Foot(h, c, Leaf) + {newNode})
    ensures {h} + Nodes(t') == Foot(h, c, Leaf) + {newNode}
    ensures T.turns <= old(T.turns) + 2
  {
    ghost var t := Bin(Leaf, newNode, T.cells[newNode].red, Leaf);
    InsertCommit(T, h, newNode, data, c);
    assert Foot(h, c, t) == Foot(h, c, Leaf) + {newNode};
    t' := RebalanceCommitted(T, h, newNode, c, t);
  }

  method RebalanceCommitted(T: Traits, h: Node, newNode: Node, ghost c: Ctx, ghost t: Tree) returns (ghost t': Tree)
    requires T.Valid() && RB(Plug(c, Leaf)) && t.Bin? && t == Bin(Leaf, newNode, t.red, Leaf)
    requires Zip(T.cells, h, c, t) && Ends(T.cells, h, Pre(c) + [newNode] + Post(c)) && T.cells[h].red
    modifies T, T.cells.Keys
    ensures T.Valid() && IsRb(T.cells, h, t') && InOrder(t') == Pre(c) + [newNode] + Post(c)
    ensures OnlyChanged(old(T.cells), T.cells, Foot(h, c, t))
    ensures {h} + Nodes(t') == Foot(h, c, t)
    ensures T.turns <= old(T.turns) + 2
  {
    PlugBalanced(c, Leaf);
    PlugInOrder(c, t);
    assert InOrder(t) == [newNode];
    t' := RebalanceAfterInsertion(T, h, newNode, c, t);
    SameOrderFoot(h, t', c, t);
  }
}
