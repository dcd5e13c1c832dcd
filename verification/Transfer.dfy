/** Moving a node from one red-black tree to another (rbtree_algorithms.hpp). */
module Transfer {
  import opened NodeTraits
  import opened Trees
  import opened TreeGraph
  import opened BstLinks
  import opened BstErase
  import opened RedBlack
  import opened RbTree
  import opened Order
  import opened Search
  import opened InsertChecks

  /** The two trees have no node in common. */
  ghost predicate Separate(h1: Node, t1: Tree, h2: Node, t2: Tree) {
    ({h1} + Nodes(t1)) !! ({h2} + Nodes(t2))
  }

  /** `z` has been relinked from the tree below `h2` to the hole `c1` of the tree below `h1`,
      neither of which has been rebalanced. */
  ghost predicate Relinked(m: Cells, h1: Node, c1: Ctx, h2: Node, c2: Ctx, t2: Tree) {
    && t2.Bin? && t2.n in m && m[t2.n].red == t2.red
    && Zip(m, h1, c1, Bin(Leaf, t2.n, t2.red, Leaf)) && Ends(m, h1, Pre(c1) + [t2.n] + Post(c1)) && m[h1].red
    && Zip(m, h2, ErasedCtx(c2, t2), ErasedSub(t2)) && Ends(m, h2, Without(c2, t2)) && m[h2].red
  }

  method Relink(T: Traits, h1: Node, h2: Node, z: Node, data: CommitData, ghost c1: Ctx, ghost c2: Ctx, ghost t2: Tree)
      returns (info: RebalanceInfo)
    requires T.Valid() && Zip(T.cells, h1, c1, Leaf) && Ends(T.cells, h1, Pre(c1) + Post(c1)) && T.cells[h1].red
      && Names(data, c1, h1)
    requires Zip(T.cells, h2, c2, t2) && Ends(T.cells, h2, InOrder(Plug(c2, t2))) && T.cells[h2].red && t2.Bin?
      && z == t2.n
    requires Foot(h1, c1, Leaf) !! Foot(h2, c2, t2)
    modifies T, T.cells.Keys
    ensures T.Valid() && Relinked(T.cells, h1, c1, h2, c2, t2)
    ensures OnlyChanged(old(T.cells), T.cells, Foot(h1, c1, Leaf) + Foot(h2, c2, t2))
    ensures info.x == Root(ErasedSub(t2)) && info.xParent == Parent(ErasedCtx(c2, t2), h2)
    ensures info.y == if t2.l.Leaf? || t2.r.Leaf? then z else LeftEnd(t2.r).n
  {
    ghost var m0 := T.cells;
    ErasedFoot(m0, h2, c2, t2);
    info := Erase(T, h2, z, c2, t2);
    ghost var m1 := T.cells;
    ZipFrame(m0, m1, h1, c1, Leaf);
    InsertCommit(T, h1, z, data, c1);
    ZipFrame(m1, T.cells, h2, ErasedCtx(c2, t2), ErasedSub(t2));
  }

  method RebalanceBoth(T: Traits, h1: Node, h2: Node, z: Node, info: RebalanceInfo, ghost c1: Ctx, ghost c2: Ctx,
      ghost t2: Tree)
      returns (ghost t1': Tree, ghost t2': Tree)
    requires T.Valid() && Relinked(T.cells, h1, c1, h2, c2, t2) && z == t2.n
    requires RB(Plug(c1, Leaf)) && RB(Plug(c2, t2))
    requires (Foot(h1, c1, Leaf) + {z}) !! Foot(h2, ErasedCtx(c2, t2), ErasedSub(t2))
    requires info.x == Root(ErasedSub(t2)) && info.xParent == Parent(ErasedCtx(c2, t2), h2)
    requires info.y == if t2.l.Leaf? || t2.r.Leaf? then z else LeftEnd(t2.r).n
    modifies T, T.cells.Keys
    ensures T.Valid() && IsRb(T.cells, h1, t1') && IsRb(T.cells, h2, t2')
    ensures InOrder(t1') == Pre(c1) + [z] + Post(c1) && InOrder(t2') == Without(c2, t2)
    ensures OnlyChanged(old(T.cells), T.cells, Foot(h1, c1, Leaf) + {z} + Foot(h2, ErasedCtx(c2, t2), ErasedSub(t2)))
    ensures {h1} + Nodes(t1') == Foot(h1, c1, Leaf) + {z}
    ensures {h2} + Nodes(t2') == Foot(h2, ErasedCtx(c2, t2), ErasedSub(t2))
  {
    ghost var m2, leaf := T.cells, Bin(Leaf, z, t2.red, Leaf);
    assert Foot(h1, c1, leaf) == Foot(h1, c1, Leaf) + {z};
    t2' := RebalanceAfterErasure(T, h2, z, info, c2, t2);
    ghost var m3 := T.cells;
    ZipFrame(m2, m3, h1, c1, leaf);
    t1' := RebalanceCommitted(T, h1, z, c1, leaf);
    IsRbFrame(m3, T.cells, h2, t2');
  }

  /** `z` leaves the tree of `h2`, and is linked in at the hole `c1` of the tree of `h1`; then the
      one tree is rebalanced for the loss and the other for the gain. */
  method MoveNode(T: Traits, h1: Node, h2: Node, z: Node, data: CommitData, ghost c1: Ctx, ghost c2: Ctx,
      ghost t2: Tree)
      returns (ghost t1': Tree, ghost t2': Tree)
    requires T.Valid() && Names(data, c1, h1) && t2.Bin? && z == t2.n && RB(Plug(c1, Leaf)) && RB(Plug(c2, t2))
    requires Zip(T.cells, h1, c1, Leaf) && Ends(T.cells, h1, Pre(c1) + Post(c1)) && T.cells[h1].red
    requires Zip(T.cells, h2, c2, t2) && Ends(T.cells, h2, InOrder(Plug(c2, t2))) && T.cells[h2].red
    requires Foot(h1, c1, Leaf) !! Foot(h2, c2, t2)
    modifies T, T.cells.Keys
    ensures T.Valid() && IsRb(T.cells, h1, t1') && IsRb(T.cells, h2, t2')
    ensures InOrder(t1') == Pre(c1) + [z] + Post(c1) && InOrder(t2') == Without(c2, t2)
    ensures OnlyChanged(old(T.cells), T.cells, Foot(h1, c1, Leaf) + Foot(h2, c2, t2))
    ensures Separate(h1, t1', h2, t2')
    ensures {h1} + Nodes(t1') + ({h2} + Nodes(t2')) == Foot(h1, c1, Leaf) + Foot(h2, c2, t2)
  {
    ErasedFoot(T.cells, h2, c2, t2);
    HandedOver(Foot(h1, c1, Leaf), Foot(h2, c2, t2), z);
    var info := Relink(T, h1, h2, z, data, c1, c2, t2);
    t1', t2' := RebalanceBoth(T, h1, h2, z, info, c1, c2, t2);
  }

  lemma HandedOver(a: set<Node>, b: set<Node>, z: Node)
    requires a !! b && z in b
    ensures (a + {z}) !! (b - {z}) && a + {z} + (b - {z}) == a + b
  {
  }

  /** Moves `z` unless the tree of `h1` has a node with an equivalent key. */
  method TransferUnique(T: Traits, h1: Node, comp: Comp, h2: Node, z: Node, ghost t1: Tree, ghost t2: Tree,
      ghost i: nat)
      returns (transferred: bool, ghost t1': Tree, ghost t2': Tree)
    requires T.Valid() && IsRb(T.cells, h1, t1) && IsRb(T.cells, h2, t2) && Separate(h1, t1, h2, t2)
    requires StrictWeak(comp) && Sorted(comp, InOrder(t1))
    requires i < |InOrder(t2)| && z == InOrder(t2)[i]
    modifies T, T.cells.Keys
    ensures T.Valid() && IsRb(T.cells, h1, t1') && IsRb(T.cells, h2, t2') && Separate(h1, t1', h2, t2')
    ensures transferred <==> Absent(comp, InOrder(t1), z.key)
    ensures !transferred ==> T.cells == old(T.cells) && t1' == t1 && t2' == t2
    ensures transferred ==> InOrder(t1') == Inserted(InOrder(t1), UpperBound(comp, InOrder(t1), z.key), z)
    ensures transferred ==> InOrder(t2') == InOrder(t2)[..i] + InOrder(t2)[i + 1..]
    ensures OnlyChanged(old(T.cells), T.cells, {h1} + Nodes(t1) + ({h2} + Nodes(t2)))
    ensures {h1} + Nodes(t1') + ({h2} + Nodes(t2')) == {h1} + Nodes(t1) + ({h2} + Nodes(t2))
  {
    t1', t2' := t1, t2;
    ghost var c1;
    var prev, data;
    prev, transferred, data, c1 := InsertUniqueCheck(T, h1, z.key, comp, CommitData(false, null), t1);
    if transferred {
      t1', t2' := MoveChecked(T, h1, h2, z, data, t1, t2, c1, i);
    }
  }

  /** Offered to its own tree, a node is found there, and stays. */
  method OfferToItself(T: Traits, h: Node, comp: Comp, z: Node, ghost t: Tree) returns (transferred: bool)
    requires T.Valid() && IsRb(T.cells, h, t) && StrictWeak(comp) && Sorted(comp, InOrder(t)) && z in InOrder(t)
    ensures !transferred
  {
    ghost var c;
    var prev, data;
    prev, transferred, data, c := InsertUniqueCheck(T, h, z.key, comp, CommitData(false, null), t);
    assert Equivalent(comp, z.key, z.key);
  }

  /** Both trees in terms of the hole and of the node to be moved. */
  lemma MoveFocus(m: Cells, h1: Node, t1: Tree, c1: Ctx, h2: Node, t2: Tree, i: nat) returns (c2: Ctx, s2: Tree)
    requires IsRb(m, h1, t1) && IsRb(m, h2, t2) && i < |InOrder(t2)| && Plug(c1, Leaf) == t1
    ensures Plug(c2, s2) == t2 && s2.Bin? && s2.n == InOrder(t2)[i]
    ensures Zip(m, h1, c1, Leaf) && Foot(h1, c1, Leaf) == {h1} + Nodes(t1) && InOrder(t1) == Pre(c1) + Post(c1)
    ensures Zip(m, h2, c2, s2) && Foot(h2, c2, s2) == {h2} + Nodes(t2)
    ensures Pre(c1) + [s2.n] + Post(c1) == Inserted(InOrder(t1), |Pre(c1)|, s2.n)
    ensures Without(c2, s2) == InOrder(t2)[..i] + InOrder(t2)[i + 1..]
  {
    c2, s2 := FocusAt(m, h2, t2, i);
    ZipPlug(m, h1, c1, Leaf);
    ZipPlug(m, h2, c2, s2);
    MovedOrder(c1, s2.n, c2, s2);
  }

  /** The node at position `i` of one tree moves to a checked hole of the other. */
  method MoveChecked(T: Traits, h1: Node, h2: Node, z: Node, data: CommitData, ghost t1: Tree, ghost t2: Tree,
      ghost c1: Ctx, ghost i: nat)
      returns (ghost t1': Tree, ghost t2': Tree)
    requires T.Valid() && IsRb(T.cells, h1, t1) && IsRb(T.cells, h2, t2) && Separate(h1, t1, h2, t2)
    requires i < |InOrder(t2)| && z == InOrder(t2)[i] && HoleAt(h1, t1, data, c1, |Pre(c1)|)
    modifies T, T.cells.Keys
    ensures T.Valid() && IsRb(T.cells, h1, t1') && IsRb(T.cells, h2, t2') && Separate(h1, t1', h2, t2')
    ensures |Pre(c1)| <= |InOrder(t1)| && InOrder(t1') == Inserted(InOrder(t1), |Pre(c1)|, z)
    ensures InOrder(t2') == InOrder(t2)[..i] + InOrder(t2)[i + 1..]
    ensures OnlyChanged(old(T.cells), T.cells, {h1} + Nodes(t1) + ({h2} + Nodes(t2)))
    ensures {h1} + Nodes(t1') + ({h2} + Nodes(t2')) == {h1} + Nodes(t1) + ({h2} + Nodes(t2))
  {
    ghost var c2, s2 := MoveFocus(T.cells, h1, t1, c1, h2, t2, i);
    t1', t2' := MoveNode(T, h1, h2, z, data, c1, c2, s2);
  }

  /** Moves `z` behind the nodes with equivalent keys. */
  method TransferEqual(T: Traits, h1: Node, comp: Comp, h2: Node, z: Node, ghost t1: Tree, ghost t2: Tree, ghost i: nat)
      returns (ghost t1': Tree, ghost t2': Tree)
    requires T.Valid() && IsRb(T.cells, h1, t1) && IsRb(T.cells, h2, t2) && Separate(h1, t1, h2, t2)
    requires StrictWeak(comp) && Sorted(comp, InOrder(t1))
    requires i < |InOrder(t2)| && z == InOrder(t2)[i]
    modifies T, T.cells.Keys
    ensures T.Valid() && IsRb(T.cells, h1, t1') && IsRb(T.cells, h2, t2') && Separate(h1, t1', h2, t2')
    ensures InOrder(t1') == Inserted(InOrder(t1), UpperBound(comp, InOrder(t1), z.key), z)
    ensures InOrder(t2') == InOrder(t2)[..i] + InOrder(t2)[i + 1..]
    ensures OnlyChanged(old(T.cells), T.cells, {h1} + Nodes(t1) + ({h2} + Nodes(t2)))
    ensures {h1} + Nodes(t1') + ({h2} + Nodes(t2')) == {h1} + Nodes(t1) + ({h2} + Nodes(t2))
  {
    ghost var c1;
    var data;
    data, c1 := InsertEqualUpperBoundCheck(T, h1, z.key, comp, t1);
    t1', t2' := MoveChecked(T, h1, h2, z, data, t1, t2, c1, i);
  }

  /** The two orders in terms of positions. */
  lemma MovedOrder(c1: Ctx, z: Node, c2: Ctx, s2: Tree)
    requires s2.Bin?
    ensures InOrder(Plug(c1, Leaf)) == Pre(c1) + Post(c1)
    ensures Inserted(Pre(c1) + Post(c1), |Pre(c1)|, z) == Pre(c1) + [z] + Post(c1)
    ensures var s, i := InOrder(Plug(c2, s2)), |Before(c2, s2)|; i < |s| && s[..i] + s[i + 1..] == Without(c2, s2)
  {
    InsertedAtHole(c1, z);
    AroundRoot(c2, s2);
  }
}
