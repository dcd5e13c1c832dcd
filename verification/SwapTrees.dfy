/** The exchange of the places of two nodes, in terms of trees (bstree_algorithms.hpp, rbtree_algorithms.hpp). */
module SwapTrees {
  import opened NodeTraits
  import opened Trees
  import opened TreeGraph
  import opened RedBlack
  import opened RbTree
  import opened SwapNodes
  import TreeBase

  /** `t` with the two nodes exchanged; `a` has the colour `ka` and `b` the colour `kb`. */
  ghost function Moved(t: Tree, a: Node, b: Node, ka: bool, kb: bool): Tree {
    match t
    case Leaf => Leaf
    case Bin(l, n, red, r) =>
      Bin(Moved(l, a, b, ka, kb), Tau(n, a, b), if n == a then kb else if n == b then ka
        else red, Moved(r, a, b, ka, kb))
  }

  ghost predicate SameShape(t: Tree, s: Tree) {
    match t
    case Leaf => s.Leaf?
    case Bin(l, _, _, r) => s.Bin? && SameShape(l, s.l) && SameShape(r, s.r)
  }

  lemma {:induction false} MovedNodes(t: Tree, a: Node, b: Node, ka: bool, kb: bool, x: Node)
    ensures x in Nodes(Moved(t, a, b, ka, kb)) <==> Tau(x, a, b) in Nodes(t)
  {
    if t.Bin? {
      MovedNodes(t.l, a, b, ka, kb, x);
      MovedNodes(t.r, a, b, ka, kb, x);
    }
  }

  lemma MovedApart(s: Tree, t: Tree, a: Node, b: Node, ka: bool, kb: bool)
    requires Nodes(s) !! Nodes(t)
    ensures Nodes(Moved(s, a, b, ka, kb)) !! Nodes(Moved(t, a, b, ka, kb))
  {
    forall x ensures !(x in Nodes(Moved(s, a, b, ka, kb)) && x in Nodes(Moved(t, a, b, ka, kb))) {
      MovedNodes(s, a, b, ka, kb, x);
      MovedNodes(t, a, b, ka, kb, x);
    }
  }

  lemma {:induction false} MovedDistinct(t: Tree, a: Node, b: Node, ka: bool, kb: bool)
    requires Distinct(t)
    ensures Distinct(Moved(t, a, b, ka, kb))
  {
    if t.Bin? {
      MovedDistinct(t.l, a, b, ka, kb);
      MovedDistinct(t.r, a, b, ka, kb);
      MovedApart(t.l, t.r, a, b, ka, kb);
      MovedNodes(t.l, a, b, ka, kb, Tau(t.n, a, b));
      MovedNodes(t.r, a, b, ka, kb, Tau(t.n, a, b));
    }
  }

  /** Shape and order are the same but for the two nodes. */
  lemma {:induction false} MovedOrder(t: Tree, a: Node, b: Node, ka: bool, kb: bool)
    ensures SameShape(t, Moved(t, a, b, ka, kb)) && |InOrder(Moved(t, a, b, ka, kb))| == |InOrder(t)|
    ensures forall i :: 0 <= i < |InOrder(t)| ==>
      var x := InOrder(t)[i]; InOrder(Moved(t, a, b, ka, kb))[i] == if x == a then b else if x == b then a else x
  {
    if t.Bin? {
      MovedOrder(t.l, a, b, ka, kb);
      MovedOrder(t.r, a, b, ka, kb);
    }
  }

  /** In `g`, the node that takes the place of `x` stores what `x` stored in `m`, with the two nodes exchanged. */
  ghost predicate TakesPlace(m: Cells, g: Cells, x: Node, a: Node, b: Node, ka: bool, kb: bool) {
    && x in m && Tau(x, a, b) in g
    && g[Tau(x, a, b)] == TauCell(m[x], a, b).(red := if x == a then kb else if x == b then ka else m[x].red)
  }

  lemma {:induction false} MovedLinked(m: Cells, g: Cells, t: Tree, p: Node?, a: Node, b: Node, ka: bool, kb: bool)
    requires Linked(m, t, p) && forall x <- Nodes(t) :: TakesPlace(m, g, x, a, b, ka, kb)
    ensures Linked(g, Moved(t, a, b, ka, kb), TauLink(p, a, b))
  {
    if t.Bin? {
      assert TakesPlace(m, g, t.n, a, b, ka, kb);
      MovedLinked(m, g, t.l, t.n, a, b, ka, kb);
      MovedLinked(m, g, t.r, t.n, a, b, ka, kb);
    }
  }

  lemma MovedTree(m: Cells, g: Cells, h: Node, t: Tree, a: Node, b: Node, ka: bool, kb: bool)
    requires IsTree(m, h, t) && h != a && h != b && forall x <- Nodes(t) + {h} :: TakesPlace(m, g, x, a, b, ka, kb)
    ensures IsTree(g, h, Moved(t, a, b, ka, kb)) && g[h].red == m[h].red
  {
    MovedLinked(m, g, t, h, a, b, ka, kb);
    MovedDistinct(t, a, b, ka, kb);
    MovedNodes(t, a, b, ka, kb, h);
    MovedOrder(t, a, b, ka, kb);
    assert TakesPlace(m, g, h, a, b, ka, kb);
    assert Root(Moved(t, a, b, ka, kb)) == TauLink(Root(t), a, b);
  }

  /** Links exchanged like that represent the tree of the same shape with the two nodes exchanged, each with its
      colour. */
  lemma SwappedTree(m: Cells, g: Cells, h: Node, t: Tree, a: Node, b: Node, d: set<Node>)
    requires IsTree(m, h, t) && Conjugated(m, g, a, b, d) && Nodes(t) + {h, a, b} <= d && h != a && h != b && a != b
    ensures IsTree(g, h, Moved(t, a, b, m[a].red, m[b].red))
  {
    LinkedIn(m, t, h);
    forall x <- Nodes(t) + {h} ensures TakesPlace(m, g, x, a, b, m[a].red, m[b].red) {
      assert Tau(x, a, b) in m && Tau(x, a, b) in d;
    }
    MovedTree(m, g, h, t, a, b, m[a].red, m[b].red);
  }

  /** A tree, in terms of links: every node has a place in it. */
  lemma TreeAgrees(m: Cells, h: Node, t: Tree, x: Node, a: Node)
    requires Zip(m, h, Top, t) && x in Nodes(t) && a in Nodes(t) && x != a
    ensures x in m && a in m && Agree(m, x, a)
  {
    var c, s := Focus(t, x);
    var d, u := Focus(t, a);
    ZipPlug(m, h, c, s);
    ZipPlug(m, h, d, u);
    assert Linked(m, s.l, x) && Linked(m, s.r, x) && Linked(m, u.l, a) && Linked(m, u.r, a);
  }

  lemma TreePlace(m: Cells, h: Node, t: Tree, a: Node)
    requires Zip(m, h, Top, t) && a in Nodes(t)
    ensures a in m && Proper(m, a) && m[a].parent != null && m[a].parent in Nodes(t) + {h}
    ensures (m[a].left != null ==> m[a].left in Nodes(t)) && (m[a].right != null ==> m[a].right in Nodes(t))
    ensures m[a].parent == h <==> m[h].parent == a
  {
    var c, s := Focus(t, a);
    ZipPlug(m, h, c, s);
    PlugNodes(c, s);
    assert Linked(m, s.l, a) && Linked(m, s.r, a);
  }

  lemma OneTreePlaced(m: Cells, h: Node, t: Tree, a: Node)
    requires Zip(m, h, Top, t) && a in Nodes(t)
    ensures Placed(m, a, h, Nodes(t))
  {
    TreePlace(m, h, t, a);
    LinkedIn(m, t, h);
    forall x <- Nodes(t) | x != a ensures Agree(m, x, a) {
      TreeAgrees(m, h, t, x, a);
    }
  }

  lemma OneTreeScene(m: Cells, h: Node, t: Tree, a: Node, b: Node)
    requires Zip(m, h, Top, t) && a in Nodes(t) && b in Nodes(t) && a != b
    ensures Scene(m, a, h, b, h, Nodes(t))
  {
    OneTreePlaced(m, h, t, a);
    OneTreePlaced(m, h, t, b);
    TreePlace(m, h, t, a);
    TreePlace(m, h, t, b);
  }

  lemma TwoTreesPlaced(m: Cells, h1: Node, t1: Tree, h2: Node, t2: Tree, a: Node)
    requires Zip(m, h1, Top, t1) && Zip(m, h2, Top, t2) && ({h1} + Nodes(t1)) !! ({h2} + Nodes(t2)) && a in Nodes(t1)
    ensures Placed(m, a, h1, Nodes(t1) + Nodes(t2)) && Placed(m, a, h1, Nodes(t2) + Nodes(t1))
  {
    OneTreePlaced(m, h1, t1, a);
    LinkedIn(m, t2, h2);
    forall x <- Nodes(t2) ensures Agree(m, x, a) {
      TreePlace(m, h2, t2, x);
    }
    assert Nodes(t1) + Nodes(t2) == Nodes(t2) + Nodes(t1);
  }

  lemma TwoTreesScene(m: Cells, h1: Node, t1: Tree, h2: Node, t2: Tree, a: Node, b: Node)
    requires Zip(m, h1, Top, t1) && Zip(m, h2, Top, t2) && ({h1} + Nodes(t1)) !! ({h2} + Nodes(t2)) && a in Nodes(t1)
      && b in Nodes(t2)
    requires Ends(m, h1, InOrder(t1)) && Ends(m, h2, InOrder(t2))
    ensures Scene(m, a, h1, b, h2, Nodes(t1) + Nodes(t2)) && m[a].parent != m[b].parent
  {
    TwoTreesPlaced(m, h1, t1, h2, t2, a);
    TwoTreesPlaced(m, h2, t2, h1, t1, b);
    TreePlace(m, h1, t1, a);
    TreePlace(m, h2, t2, b);
    HeaderLinks(m, h1, t1);
    HeaderLinks(m, h2, t2);
  }

  lemma HeaderLinks(m: Cells, h: Node, t: Tree)
    requires IsTree(m, h, t)
    ensures m[h].left in Nodes(t) + {h} && m[h].right in Nodes(t) + {h}
      && (m[h].parent == null || m[h].parent in Nodes(t))
  {
    if InOrder(t) != [] {
      InOrderMember(t, 0);
      InOrderMember(t, |InOrder(t)| - 1);
    }
  }

  /** A node on the way down to `s` is in every tree below the header, if the links on the way are kept. */
  lemma {:induction false} WayKept(m: Cells, g: Cells, h: Node, c: Ctx, s: Tree, u: Tree)
    requires Zip(m, h, c, s) && s.Bin? && Linked(g, u, h) && h in g && g[h].parent == Root(u)
      && g[h].parent == m[h].parent
    requires forall x <- CNodes(c) :: x in m && x in g && g[x].left == m[x].left && g[x].right == m[x].right
    ensures s.n in Nodes(u)
    decreases c
  {
    if !c.Top? {
      ZipUp(m, h, c, s);
      WayKept(m, g, h, c.up, Parented(c, s), u);
      var d, v := Focus(u, c.n);
      LinkedPart(g, d, v, h);
      PlugNodes(d, v);
    }
  }

  /** Siblings are lost: below the header there is no tree any more. */
  lemma SiblingsLost(m: Cells, g: Cells, h: Node, t: Tree, a: Node, b: Node, d: set<Node>, ka: bool, kb: bool, u: Tree)
    requires IsTree(m, h, t) && a in Nodes(t) && b in Nodes(t) && a != b && Nodes(t) + {h} <= d
      && Doubled(m, g, a, b, d, ka, kb)
    requires m[a].parent == m[b].parent
    ensures !IsTree(g, h, u)
  {
    if IsTree(g, h, u) {
      var p := m[a].parent;
      OnlyParent(m, h, t, a, b, p);
      var c, s := Focus(t, p);
      ZipPlug(m, h, c, s);
      forall x <- CNodes(c) ensures x in m && x in g && g[x].left == m[x].left && g[x].right == m[x].right {
        AboveSiblings(m, h, t, a, b, c, s, x);
        assert x in d;
      }
      WayKept(m, g, h, c, s, u);
      TreePlace(g, h, u, p);
    }
  }

  /** The parent of two siblings is in the tree, and neither of them is the root. */
  lemma OnlyParent(m: Cells, h: Node, t: Tree, a: Node, b: Node, p: Node)
    requires IsTree(m, h, t) && a in Nodes(t) && b in Nodes(t) && a != b && a in m && b in m && m[a].parent == p
      && m[b].parent == p
    ensures p in Nodes(t) && p != a && p != b && h != a && h != b && m[h].parent != a && m[h].parent != b
  {
    TreePlace(m, h, t, a);
    TreePlace(m, h, t, b);
  }

  lemma AboveSiblings(m: Cells, h: Node, t: Tree, a: Node, b: Node, c: Ctx, s: Tree, x: Node)
    requires IsTree(m, h, t) && a in Nodes(t) && b in Nodes(t) && a in m && b in m && Plug(c, s) == t && s.Bin?
      && Zip(m, h, c, s)
    requires s.n in m && m[a].parent == s.n && m[b].parent == s.n && s.n != a && s.n != b && x in CNodes(c)
    ensures x in Nodes(t) && x in m && x != s.n && x != a && x != b
    ensures m[x].left != a && m[x].right != a && m[x].left != b && m[x].right != b
  {
    PlugNodes(c, s);
    TreePlace(m, h, t, x);
    ChildOf(m, h, t, c, s, a);
    ChildOf(m, h, t, c, s, b);
    TreeAgrees(m, h, t, x, a);
    TreeAgrees(m, h, t, x, b);
  }

  lemma ChildOf(m: Cells, h: Node, t: Tree, c: Ctx, s: Tree, a: Node)
    requires IsTree(m, h, t) && a in Nodes(t) && a in m && Plug(c, s) == t && s.Bin? && Zip(m, h, c, s) && s.n in m
      && m[a].parent == s.n && s.n != a
    ensures a in Nodes(s) && a !in CNodes(c)
  {
    PlugNodes(c, s);
    TreeAgrees(m, h, t, s.n, a);
    assert Root(s.l) == a || Root(s.r) == a;
    assert (s.l.Bin? ==> s.l.n in Nodes(s.l)) && (s.r.Bin? ==> s.r.n in Nodes(s.r));
  }

  /** The nodes are in one tree, or one in each of two separate trees. */
  ghost predicate InTrees(a: Node, h1: Node, t1: Tree, b: Node, h2: Node, t2: Tree) {
    && a in Nodes(t1) && b in Nodes(t2)
    && ((h1 == h2 && t1 == t2) || ({h1} + Nodes(t1)) !! ({h2} + Nodes(t2)))
  }

  lemma TreesScene(m: Cells, a: Node, h1: Node, t1: Tree, b: Node, h2: Node, t2: Tree)
    requires IsTree(m, h1, t1) && IsTree(m, h2, t2) && InTrees(a, h1, t1, b, h2, t2) && a != b
    ensures Scene(m, a, h1, b, h2, Nodes(t1) + Nodes(t2))
    ensures m[a].parent == m[b].parent ==> h1 == h2 && t1 == t2
  {
    if h1 == h2 {
      OneTreeScene(m, h1, t1, a, b);
      assert Nodes(t1) + Nodes(t1) == Nodes(t1);
    } else {
      TwoTreesScene(m, h1, t1, h2, t2, a, b);
    }
  }

  /** What the writes of the exchange come to, by whether the nodes are siblings. */
  ghost predicate Swapped(m: Cells, g: Cells, a: Node, b: Node, d: set<Node>) {
    && a in m && b in m
    && if m[a].parent != m[b].parent then Conjugated(m, g, a, b, d)
       else Doubled(m, g, a, b, d, m[a].red, m[b].red)
  }

  /** Either way no colour changes, and no node outside of the trees. */
  lemma SwappedFrame(m: Cells, g: Cells, a: Node, b: Node, d: set<Node>)
    requires Swapped(m, g, a, b, d)
    ensures OnlyChanged(m, g, d) && forall x <- m :: g[x].red == m[x].red
  {
  }

  /** The exchange works exactly if the nodes are not siblings: they have exchanged their places, in one tree or in two.
      Of siblings no tree remains. */
  lemma SwapOutcome(m: Cells, g: Cells, a: Node, h1: Node, t1: Tree, b: Node, h2: Node, t2: Tree)
    requires IsTree(m, h1, t1) && IsTree(m, h2, t2) && InTrees(a, h1, t1, b, h2, t2) && a != b
    requires Swapped(m, g, a, b, Nodes(t1) + Nodes(t2) + {h1, h2})
    ensures m[a].parent != m[b].parent ==>
      IsTree(g, h1, Moved(t1, a, b, m[a].red, m[b].red)) && IsTree(g, h2, Moved(t2, a, b, m[a].red, m[b].red))
    ensures m[a].parent == m[b].parent ==> forall u :: !IsTree(g, h1, u)
  {
    var d := Nodes(t1) + Nodes(t2) + {h1, h2};
    TreesScene(m, a, h1, t1, b, h2, t2);
    if m[a].parent != m[b].parent {
      SwappedTree(m, g, h1, t1, a, b, d);
      SwappedTree(m, g, h2, t2, a, b, d);
    } else {
      forall u ensures !IsTree(g, h1, u) {
        SiblingsLost(m, g, h1, t1, a, b, d, m[a].red, m[b].red, u);
      }
    }
  }

  /** The smallest tree in which it does not work: a root with two children. */
  lemma SiblingsExample(h: Node, a: Node, p: Node, b: Node, g: Cells)
    requires h != a && h != p && h != b && a != p && a != b && p != b
    ensures var t := Bin(Bin(Leaf, a, true, Leaf), p, false, Bin(Leaf, b, true, Leaf));
      var m: Cells := map[h := Cell(p, a, b, true), p := Cell(h, a, b, false), a := Cell(p, null, null, true),
        b := Cell(p, null, null, true)];
      IsRb(m, h, t) && InTrees(a, h, t, b, h, t)
        && (Swapped(m, g, a, b, Nodes(t) + {h}) ==> forall u :: !IsTree(g, h, u))
  {
    var l, r := Bin(Leaf, a, true, Leaf), Bin(Leaf, b, true, Leaf);
    var t := Bin(l, p, false, r);
    var m: Cells := map[h := Cell(p, a, b, true), p := Cell(h, a, b, false), a := Cell(p, null, null, true),
      b := Cell(p, null, null, true)];
    Single(a, true);
    Single(b, true);
    assert InOrder(t) == [a, p, b];
    assert Linked(m, l, p) && Linked(m, r, p);
    assert Linked(m, t, h);
    assert Nodes(t) == {a, p, b} && Distinct(t);
    assert RB(t);
    assert IsTree(m, h, t);
    assert IsRb(m, h, t);
    if Swapped(m, g, a, b, Nodes(t) + {h}) {
      assert Nodes(t) + Nodes(t) + {h, h} == Nodes(t) + {h};
      SwapOutcome(m, g, a, h, t, b, h, t);
    }
  }

  /** Exchanges the places of two nodes of search trees. */
  method BstSwapNodes(T: Traits, node1: Node, header1: Node, node2: Node, header2: Node, ghost t1: Tree, ghost t2: Tree)
    requires T.Valid() && IsTree(T.cells, header1, t1) && IsTree(T.cells, header2, t2)
      && InTrees(node1, header1, t1, node2, header2, t2)
    modifies T, T.cells.Keys
    ensures T.Valid() && (node1 == node2 ==> T.cells == old(T.cells))
    ensures OnlyChanged(old(T.cells), T.cells, Nodes(t1) + Nodes(t2) + {header1, header2})
    ensures forall x <- T.cells :: T.cells[x].red == old(T.cells)[x].red
    ensures node1 != node2 ==> Swapped(old(T.cells), T.cells, node1, node2, Nodes(t1) + Nodes(t2) + {header1, header2})
    ensures node1 != node2 && old(node1.parent != node2.parent) ==>
      && IsTree(T.cells, header1, Moved(t1, node1, node2, old(node1.red), old(node2.red)))
      && IsTree(T.cells, header2, Moved(t2, node1, node2, old(node1.red), old(node2.red)))
    ensures node1 != node2 && old(node1.parent == node2.parent) ==> forall u :: !IsTree(T.cells, header1, u)
  {
    if node1 == node2 {
      return;
    }
    ghost var m := T.cells;
    TreesScene(m, node1, header1, t1, node2, header2, t2);
    SwapPlaces(T, node1, header1, node2, header2, Nodes(t1) + Nodes(t2));
    SwapOutcome(m, T.cells, node1, header1, t1, node2, header2, t2);
    SwappedFrame(m, T.cells, node1, node2, Nodes(t1) + Nodes(t2) + {header1, header2});
  }

  /** The same when the headers are not at hand: they are found by climbing. */
  method BstSwap(T: Traits, node1: Node, node2: Node, ghost h1: Node, ghost t1: Tree, ghost h2: Node, ghost t2: Tree)
    requires T.Valid() && IsTree(T.cells, h1, t1) && IsTree(T.cells, h2, t2) && InTrees(node1, h1, t1, node2, h2, t2)
    modifies T, T.cells.Keys
    ensures T.Valid() && (node1 == node2 ==> T.cells == old(T.cells))
    ensures OnlyChanged(old(T.cells), T.cells, Nodes(t1) + Nodes(t2) + {h1, h2})
    ensures forall x <- T.cells :: T.cells[x].red == old(T.cells)[x].red
    ensures node1 != node2 && old(node1.parent != node2.parent) ==>
      && IsTree(T.cells, h1, Moved(t1, node1, node2, old(node1.red), old(node2.red)))
      && IsTree(T.cells, h2, Moved(t2, node1, node2, old(node1.red), old(node2.red)))
    ensures node1 != node2 && old(node1.parent == node2.parent) ==> forall u :: !IsTree(T.cells, h1, u)
  {
    if node1 == node2 {
      return;
    }
    var header1 := TreeBase.GetHeader(T, node1, h1, t1);
    var header2 := TreeBase.GetHeader(T, node2, h2, t2);
    BstSwapNodes(T, node1, header1, node2, header2, t1, t2);
  }

  /** `t` with the two nodes exchanged, colours staying with the places. */
  ghost function Renamed(t: Tree, a: Node, b: Node): Tree {
    match t
    case Leaf => Leaf
    case Bin(l, n, red, r) => Bin(Renamed(l, a, b), Tau(n, a, b), red, Renamed(r, a, b))
  }

  /** That is so if each of the two takes the colour of the other. */
  lemma {:induction false} RenamedMoved(m: Cells, t: Tree, p: Node?, a: Node, b: Node)
    requires Linked(m, t, p) && a in m && b in m
    ensures Renamed(t, a, b) == Moved(t, a, b, m[b].red, m[a].red)
  {
    if t.Bin? {
      RenamedMoved(m, t.l, t.n, a, b);
      RenamedMoved(m, t.r, t.n, a, b);
    }
  }

  lemma {:induction false} RenamedBalanced(t: Tree, a: Node, b: Node)
    ensures BH(Renamed(t, a, b)) == BH(t) && (Balanced(t) ==> Balanced(Renamed(t, a, b)))
      && IsRed(Renamed(t, a, b)) == IsRed(t)
  {
    if t.Bin? {
      RenamedBalanced(t.l, a, b);
      RenamedBalanced(t.r, a, b);
    }
  }

  method SwapColors(T: Traits, node1: Node, node2: Node)
    requires T.Valid() && node1 in T.cells && node2 in T.cells && node1 != node2
    modifies T, T.cells.Keys
    ensures T.Valid() && OnlyChanged(old(T.cells), T.cells, {node1, node2})
    ensures T.cells[node1] == old(T.cells)[node1].(red := old(T.cells)[node2].red)
    ensures T.cells[node2] == old(T.cells)[node2].(red := old(T.cells)[node1].red)
  {
    var c := node1.red;
    T.SetColor(node1, node2.red);
    T.SetColor(node2, c);
  }

  lemma ColorsDoubled(m: Cells, f: Cells, g: Cells, a: Node, b: Node, d: set<Node>)
    requires a in m && b in m && a in d && b in d && Doubled(m, f, a, b, d, m[a].red, m[b].red)
    requires OnlyChanged(f, g, {a, b}) && a != b && g[a] == f[a].(red := f[b].red) && g[b] == f[b].(red := f[a].red)
    ensures Doubled(m, g, a, b, d, m[b].red, m[a].red) && OnlyChanged(m, g, d)
  {
  }

  /** The exchange of colours does not concern the links. */
  lemma ColorsSwapped(m: Cells, f: Cells, g: Cells, a: Node, h1: Node, t1: Tree, b: Node, h2: Node, t2: Tree)
    requires IsRb(m, h1, t1) && IsRb(m, h2, t2) && InTrees(a, h1, t1, b, h2, t2) && a != b
    requires Swapped(m, f, a, b, Nodes(t1) + Nodes(t2) + {h1, h2}) && OnlyChanged(f, g, {a, b}) && a in f && b in f
    requires g[a] == f[a].(red := f[b].red) && g[b] == f[b].(red := f[a].red)
    ensures m[a].parent != m[b].parent ==> IsRb(g, h1, Renamed(t1, a, b)) && IsRb(g, h2, Renamed(t2, a, b))
    ensures m[a].parent == m[b].parent ==>
      Doubled(m, g, a, b, Nodes(t1) + Nodes(t2) + {h1, h2}, m[b].red, m[a].red) && forall u :: !IsTree(g, h1, u)
    ensures OnlyChanged(m, g, Nodes(t1) + Nodes(t2) + {h1, h2})
  {
    var d := Nodes(t1) + Nodes(t2) + {h1, h2};
    TreesScene(m, a, h1, t1, b, h2, t2);
    if m[a].parent != m[b].parent {
      RecoloredTree(m, f, g, h1, t1, a, b, d);
      RecoloredTree(m, f, g, h2, t2, a, b, d);
    } else {
      OnlyParent(m, h1, t1, a, b, m[a].parent);
      ColorsDoubled(m, f, g, a, b, d);
      forall u ensures !IsTree(g, h1, u) {
        SiblingsLost(m, g, h1, t1, a, b, d, m[b].red, m[a].red, u);
      }
    }
  }

  lemma RecoloredTree(m: Cells, f: Cells, g: Cells, h: Node, t: Tree, a: Node, b: Node, d: set<Node>)
    requires IsRb(m, h, t) && Conjugated(m, f, a, b, d) && Nodes(t) + {h, a, b} <= d && h != a && h != b && a != b
    requires OnlyChanged(f, g, {a, b}) && a in f && b in f
    requires g[a] == f[a].(red := f[b].red) && g[b] == f[b].(red := f[a].red)
    ensures IsRb(g, h, Renamed(t, a, b))
  {
    LinkedIn(m, t, h);
    forall x <- Nodes(t) + {h} ensures TakesPlace(m, g, x, a, b, m[b].red, m[a].red) {
      assert Tau(x, a, b) in m && Tau(x, a, b) in d;
    }
    MovedTree(m, g, h, t, a, b, m[b].red, m[a].red);
    RenamedMoved(m, t, h, a, b);
    RenamedBalanced(t, a, b);
  }

  /** Exchanges the places of two nodes of red-black trees, and their colours. This works exactly if they are not
      siblings. */
  method RbSwapNodes(T: Traits, node1: Node, header1: Node, node2: Node, header2: Node, ghost t1: Tree, ghost t2: Tree)
    requires T.Valid() && IsRb(T.cells, header1, t1) && IsRb(T.cells, header2, t2)
      && InTrees(node1, header1, t1, node2, header2, t2)
    modifies T, T.cells.Keys
    ensures T.Valid() && (node1 == node2 ==> T.cells == old(T.cells))
    ensures OnlyChanged(old(T.cells), T.cells, Nodes(t1) + Nodes(t2) + {header1, header2})
    ensures node1 != node2 && old(node1.parent != node2.parent) ==>
      IsRb(T.cells, header1, Renamed(t1, node1, node2)) && IsRb(T.cells, header2, Renamed(t2, node1, node2))
    ensures node1 != node2 && old(node1.parent == node2.parent) ==>
      && Doubled(old(T.cells), T.cells, node1, node2, Nodes(t1) + Nodes(t2) + {header1, header2}, old(node2.red),
           old(node1.red))
      && forall u :: !IsTree(T.cells, header1, u)
  {
    if node1 == node2 {
      return;
    }
    ghost var m := T.cells;
    TreesScene(m, node1, header1, t1, node2, header2, t2);
    BstSwapNodes(T, node1, header1, node2, header2, t1, t2);
    ghost var f := T.cells;
    SwapColors(T, node1, node2);
    ColorsSwapped(m, f, T.cells, node1, header1, t1, node2, header2, t2);
  }

  /** The same when the headers are not at hand. */
  method RbSwap(T: Traits, node1: Node, node2: Node, ghost h1: Node, ghost t1: Tree, ghost h2: Node, ghost t2: Tree)
    requires T.Valid() && IsRb(T.cells, h1, t1) && IsRb(T.cells, h2, t2) && InTrees(node1, h1, t1, node2, h2, t2)
    modifies T, T.cells.Keys
    ensures T.Valid() && (node1 == node2 ==> T.cells == old(T.cells))
    ensures OnlyChanged(old(T.cells), T.cells, Nodes(t1) + Nodes(t2) + {h1, h2})
    ensures node1 != node2 && old(node1.parent != node2.parent) ==>
      IsRb(T.cells, h1, Renamed(t1, node1, node2)) && IsRb(T.cells, h2, Renamed(t2, node1, node2))
    ensures node1 != node2 && old(node1.parent == node2.parent) ==> forall u :: !IsTree(T.cells, h1, u)
  {
    if node1 == node2 {
      return;
    }
    var header1 := TreeBase.GetHeader(T, node1, h1, t1);
    var header2 := TreeBase.GetHeader(T, node2, h2, t2);
    RbSwapNodes(T, node1, header1, node2, header2, t1, t2);
  }
}
