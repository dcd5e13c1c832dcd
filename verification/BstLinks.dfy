/** Linking a node into a binary tree, unlinking one, and walking in order (bstree_algorithms.hpp). */
module BstLinks {
  import opened NodeTraits
  import opened Trees
  import opened TreeGraph
  import opened Rotations

  /** Where a checked insertion is to link the new node; the node is null until a check fills it in. */
  datatype CommitData = CommitData(linkLeft: bool, node: Node?)

  /** `data` names the hole of `c`. */
  ghost predicate Names(data: CommitData, c: Ctx, h: Node) {
    data.node == Parent(c, h) && (c.InL? ==> data.linkLeft) && (c.InR? ==> !data.linkLeft)
  }

  /** Resets the links of a node that is in no tree. */
  method Init(T: Traits, node: Node)
    requires T.Valid() && node in T.cells
    modifies T, node
    ensures T.Valid() && T.turns == old(T.turns)
      && T.cells == old(T.cells[node := Cell(null, null, null, T.cells[node].red)])
  {
    ghost var m := T.cells;
    T.SetParent(node, null);
    T.SetLeft(node, null);
    Overwritten(m, node, m[node].(parent := null), m[node].(parent := null, left := null));
    T.SetRight(node, null);
    Overwritten(m, node, m[node].(parent := null, left := null), Cell(null, null, null, m[node].red));
  }

  /** Makes `h` the header of an empty tree. */
  method ResetHeader(T: Traits, h: Node)
    requires T.Valid() && h in T.cells
    modifies T, h
    ensures T.Valid() && T.turns == old(T.turns) && T.cells == old(T.cells[h := Cell(null, h, h, T.cells[h].red)])
  {
    ghost var m := T.cells;
    T.SetParent(h, null);
    T.SetLeft(h, h);
    Overwritten(m, h, m[h].(parent := null), m[h].(parent := null, left := h));
    T.SetRight(h, h);
    Overwritten(m, h, m[h].(parent := null, left := h), Cell(null, h, h, m[h].red));
  }

  lemma Committed(m: Cells, m': Cells, h: Node, c: Ctx, n: Node)
    requires Zip(m, h, c, Leaf) && n in m && n !in Foot(h, c, Leaf)
    requires Parent(c, h) in m
    requires var m1 := WithChild(m, c, h, n);
      m'.Keys == m.Keys && m'[n] == Cell(Parent(c, h), null, null, m[n].red)
      && m'[h].parent == m1[h].parent && forall x <- m :: x != n && x != h ==> m'[x] == m1[x]
    ensures Zip(m', h, c, Bin(Leaf, n, m[n].red, Leaf))
  {
    var m1 := WithChild(m, c, h, n);
    ChildReplaced(m, c, null, h, n);
    AroundFrame(m1, m', c, n, h);
  }

  /** How the ends of the sequence change when `n` is put in at a hole. */
  lemma CommittedEnds(h: Node, c: Ctx, n: Node)
    requires Apart(h, c, Leaf)
    ensures c.Top? ==> Pre(c) == [] && Post(c) == []
    ensures c.InL? ==> Post(c) != [] && (First(Pre(c) + Post(c), h) == c.n <==> Pre(c) == [])
    ensures c.InR? ==> Pre(c) != [] && (Last(Pre(c) + Post(c), h) == c.n <==> Post(c) == [])
  {
    HoleOrder(h, c);
    HoleNext(c);
    EndsApart(Pre(c), Post(c), h);
  }

  /** No node is on both sides of a hole. */
  lemma HoleOrder(h: Node, c: Ctx)
    requires Apart(h, c, Leaf)
    ensures NoDup(Pre(c) + Post(c))
  {
    PlugNodes(c, Leaf);
    InOrderNoDup(Plug(c, Leaf));
    PlugInOrder(c, Leaf);
    WithoutEmpty(Pre(c), Post(c));
  }

  lemma WithoutEmpty(a: seq<Node>, b: seq<Node>)
    ensures a + [] + b == a + b
  {
  }

  /** Next to a hole is the node it hangs off. */
  lemma HoleNext(c: Ctx)
    ensures c.Top? ==> Pre(c) == [] && Post(c) == []
    ensures (c.InL? ==> Post(c) != [] && Post(c)[0] == c.n) && (c.InR? ==> Pre(c) != [] && Pre(c)[|Pre(c)| - 1] == c.n)
  {
  }

  lemma EndsApart(a: seq<Node>, b: seq<Node>, h: Node)
    requires NoDup(a + b)
    ensures b != [] ==> (First(a + b, h) == b[0] <==> a == [])
    ensures a != [] ==> (Last(a + b, h) == a[|a| - 1] <==> b == [])
  {
    var s := a + b;
    assert b != [] ==> s[|a|] == b[0];
    assert a != [] ==> s[|a| - 1] == a[|a| - 1];
  }

  /** `m` with the links of the header and of the parent set to the new node. */
  ghost function LinkedBelow(m: Cells, h: Node, n: Node, data: CommitData): Cells
    requires h in m && data.node != null && data.node in m
  {
    var p: Node := data.node;
    if p == h then
      var m1: Cells := m[h := m[h].(parent := n)];
      var m2: Cells := m1[h := m1[h].(right := n)];
      m2[h := m2[h].(left := n)]
    else if data.linkLeft then
      var m1: Cells := m[p := m[p].(left := n)];
      if p == m1[h].left then m1[h := m1[h].(left := n)] else m1
    else
      var m1: Cells := m[p := m[p].(right := n)];
      if p == m1[h].right then m1[h := m1[h].(right := n)] else m1
  }

  ghost function CommitCells(m: Cells, h: Node, n: Node, data: CommitData): Cells
    requires h in m && n in m && data.node != null && data.node in m
  {
    var m1 := LinkedBelow(m, h, n, data);
    var m2: Cells := m1[n := m1[n].(parent := data.node)];
    var m3: Cells := m2[n := m2[n].(right := null)];
    m3[n := m3[n].(left := null)]
  }

  method LinkBelow(T: Traits, h: Node, newNode: Node, data: CommitData)
    requires T.Valid() && h in T.cells && newNode in T.cells && data.node != null && data.node in T.cells
    modifies T, T.cells.Keys
    ensures T.Valid() && T.turns == old(T.turns) && T.cells == LinkedBelow(old(T.cells), h, newNode, data)
  {
    var parentNode: Node := data.node;
    if parentNode == h {
      T.SetParent(h, newNode);
      T.SetRight(h, newNode);
      T.SetLeft(h, newNode);
    } else if data.linkLeft {
      T.SetLeft(parentNode, newNode);
      if parentNode == h.left {
        T.SetLeft(h, newNode);
      }
    } else {
      T.SetRight(parentNode, newNode);
      if parentNode == h.right {
        T.SetRight(h, newNode);
      }
    }
  }

  /** A committed insertion puts the new node, as a leaf, at the hole it was checked for. */
  lemma CommitTree(m: Cells, h: Node, c: Ctx, n: Node, data: CommitData)
    requires Zip(m, h, c, Leaf) && Ends(m, h, Pre(c) + Post(c))
    requires n in m && n !in Foot(h, c, Leaf) && Names(data, c, h)
    ensures data.node != null && data.node in m
    ensures var m' := CommitCells(m, h, n, data);
      && Zip(m', h, c, Bin(Leaf, n, m[n].red, Leaf)) && Ends(m', h, Pre(c) + [n] + Post(c))
      && OnlyChanged(m, m', Foot(h, c, Leaf) + {n})
      && m'[h].red == m[h].red && m'[n].red == m[n].red
  {
    assert Parent(c, h) in m;
    CommittedEnds(h, c, n);
    var m' := CommitCells(m, h, n, data);
    Committed(m, m', h, c, n);
    assert Parent(c, h) in Foot(h, c, Leaf);
  }

  /** Links `newNode` in at a checked hole. */
  method InsertCommit(T: Traits, h: Node, newNode: Node, data: CommitData, ghost c: Ctx)
    requires T.Valid() && Zip(T.cells, h, c, Leaf) && Ends(T.cells, h, Pre(c) + Post(c))
    requires newNode in T.cells && newNode !in Foot(h, c, Leaf) && Names(data, c, h)
    modifies T, T.cells.Keys
    ensures T.Valid() && T.turns == old(T.turns)
    ensures OnlyChanged(old(T.cells), T.cells, Foot(h, c, Leaf) + {newNode}) && newNode in T.cells && h in T.cells
    ensures Zip(T.cells, h, c, Bin(Leaf, newNode, T.cells[newNode].red, Leaf))
      && Ends(T.cells, h, Pre(c) + [newNode] + Post(c))
    ensures T.cells[h].red == old(T.cells)[h].red && T.cells[newNode].red == old(T.cells)[newNode].red
  {
    CommitTree(T.cells, h, c, newNode, data);
    CommitLinks(T, h, newNode, data);
  }

  /** The writes alone. */
  method CommitLinks(T: Traits, h: Node, newNode: Node, data: CommitData)
    requires T.Valid() && h in T.cells && newNode in T.cells && data.node != null && data.node in T.cells
    modifies T, T.cells.Keys
    ensures T.Valid() && T.turns == old(T.turns) && T.cells == CommitCells(old(T.cells), h, newNode, data)
  {
    LinkBelow(T, h, newNode, data);
    T.SetParent(newNode, data.node);
    T.SetRight(newNode, null);
    T.SetLeft(newNode, null);
  }
}
