/** The checker of the container's integrity (bstree_algorithms.hpp, rbtree_algorithms.hpp). */
module Checker {
  import opened NodeTraits
  import opened Trees
  import opened TreeGraph
  import opened TreeBase
  import opened RedBlack
  import opened Order
  import opened Rebalance

  /** What the checker returns for a subtree. */
  datatype Checked = Checked(minKeyNode: Node?, maxKeyNode: Node?, nodeCount: nat, blackCount: nat)

  /** What it should return. */
  ghost function Summary(t: Tree): Checked {
    if t.Leaf? then Checked(null, null, 0, 0) else Checked(LeftEnd(t).n, RightEnd(t).n, Size(t), BH(t))
  }

  /** What is checked of the subtree `t` below `p`; `top` if it is the whole tree. */
  ghost predicate Passes(m: Cells, t: Tree, p: Node, comp: Comp, top: bool) {
    Linked(m, t, p) && Sorted(comp, InOrder(t)) && Balanced(t) && (top ==> !IsRed(t))
  }

  lemma SortedAround(comp: Comp, a: seq<Node>, n: Node, b: seq<Node>)
    requires StrictWeak(comp)
    ensures Sorted(comp, a + [n] + b) <==>
      && Sorted(comp, a) && Sorted(comp, b)
      && (a == [] || !comp(n.key, a[|a| - 1].key)) && (b == [] || !comp(b[0].key, n.key))
  {
    var s := a + [n] + b;
    assert forall i :: 0 <= i < |a| ==> s[i] == a[i];
    assert s[|a|] == n;
    assert forall i :: 0 <= i < |b| ==> s[|a| + 1 + i] == b[i];
    assert forall i :: |a| < i < |s| ==> s[i] == b[i - |a| - 1];
  }

  /** The links below a node determine the tree below it. */
  lemma {:induction false} SameUnfolding(m: Cells, t: Tree, t': Tree)
    requires Children(m, t) && Children(m, t') && Root(t) == Root(t')
    ensures t == t'
  {
    if t.Bin? {
      SameUnfolding(m, t.l, t'.l);
      SameUnfolding(m, t.r, t'.r);
    }
  }

  lemma {:induction false} SubtreeChildren(m: Cells, c: Ctx, t: Tree)
    requires Children(m, Plug(c, t))
    ensures Children(m, t) && Size(t) <= Size(Plug(c, t))
  {
    if !c.Top? {
      SubtreeChildren(m, c.up, Parented(c, t));
    }
  }

  /** So no node is below itself. */
  lemma Acyclic(m: Cells, t: Tree)
    requires Children(m, t) && t.Bin?
    ensures t.n !in Nodes(t.l) && t.n !in Nodes(t.r)
  {
    if t.n in Nodes(t.l) {
      var c, s := Focus(t.l, t.n);
      SubtreeChildren(m, c, s);
      SameUnfolding(m, s, t);
    } else if t.n in Nodes(t.r) {
      var c, s := Focus(t.r, t.n);
      SubtreeChildren(m, c, s);
      SameUnfolding(m, s, t);
    }
  }

  /** The checks at one node, in terms of what its subtrees returned: order, then count. */
  method BstNodeCheck(T: Traits, p: Node, left: Checked, right: Checked, comp: Comp) returns (ok: bool, ret: Checked)
    requires T.Valid() && p in T.cells
    ensures ok <==>
      (left.maxKeyNode != null ==> !comp(p.key, left.maxKeyNode.key))
      && (right.minKeyNode != null ==> !comp(right.minKeyNode.key, p.key))
    ensures ret == Checked(if T.cells[p].left != null then left.minKeyNode
      else p, if T.cells[p].right != null then right.maxKeyNode else p,
                           left.nodeCount + right.nodeCount + 1, 0)
  {
    ok := (left.maxKeyNode == null || !comp(p.key, left.maxKeyNode.key))
      && (right.minKeyNode == null || !comp(right.minKeyNode.key, p.key));
    ret := Checked(if p.left != null then left.minKeyNode else p, if p.right != null then right.maxKeyNode else p,
                   left.nodeCount + right.nodeCount + 1, 0);
  }

  /** The checks of a red-black tree's node: no red child of a red node, no red root, equal black counts. */
  method RbNodeCheck(T: Traits, p: Node, left: Checked, right: Checked, comp: Comp, ghost t: Tree, ghost q: Node,
      ghost top: bool)
      returns (ok: bool, ret: Checked)
    requires T.Valid() && Children(T.cells, t) && t.Bin? && p == t.n && T.cells[p].parent == q && q in T.cells
    requires T.cells[q].parent == p <==> top
    requires StrictWeak(comp) && Passes(T.cells, t.l, p, comp, false) && Passes(T.cells, t.r, p, comp, false)
    requires left == Summary(t.l) && right == Summary(t.r)
    ensures ok <==> Passes(T.cells, t, q, comp, top)
    ensures ok ==> ret == Summary(t)
  {
    CheckedNode(T.cells, t, q, comp, top);
    ret := Checked(null, null, 0, 0);
    if p.red {
      if (p.left != null && p.left.red) || (p.right != null && p.right.red) {
        return false, ret;
      }
      if p.parent.parent == p {
        return false, ret;
      }
    }
    if left.blackCount != right.blackCount {
      return false, ret;
    }
    var blackCount := left.blackCount + if p.red then 0 else 1;
    ok, ret := BstNodeCheck(T, p, left, right, comp);
    ret := ret.(blackCount := blackCount);
    SummaryOf(t);
  }

  lemma SummaryOf(t: Tree)
    requires t.Bin?
    ensures Summary(t) == Checked(if t.l.Bin? then Summary(t.l).minKeyNode
      else t.n, if t.r.Bin? then Summary(t.r).maxKeyNode else t.n,
                                  Summary(t.l).nodeCount + Summary(t.r).nodeCount + 1,
                                    Summary(t.l).blackCount + if t.red then 0 else 1)
  {
    assert LeftEnd(t) == if t.l.Leaf? then t else LeftEnd(t.l);
    assert RightEnd(t) == if t.r.Leaf? then t else RightEnd(t.r);
    assert t.l.Leaf? ==> BH(t.l) == 0 && Size(t.l) == 0;
    assert t.r.Leaf? ==> Size(t.r) == 0;
  }

  /** It is about the order of the subtree: its two ends, and how many nodes it has. */
  lemma SummaryOrder(t: Tree)
    ensures var s := InOrder(t); Summary(t) == if s == [] then Checked(null, null, 0, 0)
      else Checked(s[0], s[|s| - 1], |s|, BH(t))
  {
    InOrderNodes(t);
    if t.Bin? {
      LeftEndFirst(t);
      RightEndLast(t);
    }
  }

  lemma CheckedNode(m: Cells, t: Tree, q: Node, comp: Comp, top: bool)
    requires Children(m, t) && t.Bin? && m[t.n].parent == q && StrictWeak(comp)
    requires Passes(m, t.l, t.n, comp, false) && Passes(m, t.r, t.n, comp, false)
    ensures Passes(m, t, q, comp, top) <==>
      && (t.red ==> !IsRed(t.l) && !IsRed(t.r) && !top) && BH(t.l) == BH(t.r)
      && (t.l.Bin? ==> !comp(t.n.key, RightEnd(t.l).n.key)) && (t.r.Bin? ==> !comp(LeftEnd(t.r).n.key, t.n.key))
  {
    SortedAround(comp, InOrder(t.l), t.n, InOrder(t.r));
    if t.l.Bin? {
      RightEndLast(t.l);
    }
    if t.r.Bin? {
      LeftEndFirst(t.r);
    }
  }

  /** Where a subtree does not pass, the tree does not. */
  lemma PartsPass(m: Cells, t: Tree, q: Node, comp: Comp, top: bool)
    requires Passes(m, t, q, comp, top) && t.Bin? && StrictWeak(comp)
    ensures Passes(m, t.l, t.n, comp, false) && Passes(m, t.r, t.n, comp, false)
  {
    SortedAround(comp, InOrder(t.l), t.n, InOrder(t.r));
  }

  /** Checks the subtree at `node`, the links of which lead to the nodes of `t`; false where an assertion fails. */
  method CheckSubtree(T: Traits, node: Node, comp: Comp, ghost t: Tree, ghost q: Node, ghost top: bool)
      returns (ok: bool, ret: Checked)
    requires T.Valid() && Children(T.cells, t) && t.Bin? && node == t.n && T.cells[node].parent == q && q in T.cells
      && q !in Nodes(t)
    requires (T.cells[q].parent == node <==> top) && StrictWeak(comp)
    ensures ok <==> Passes(T.cells, t, q, comp, top)
    ensures var s := InOrder(t);
      ok ==> s != [] && ret == Checked(s[0], s[|s| - 1], |s|, BH(t)) == Summary(t)
    decreases t, 0
  {
    SummaryOrder(t);
    Acyclic(T.cells, t);
    if Passes(T.cells, t, q, comp, top) {
      PartsPass(T.cells, t, q, comp, top);
    }
    var checkReturnLeft, checkReturnRight;
    ok, checkReturnLeft := CheckChild(T, node.left, node, comp, t.l);
    ret := checkReturnLeft;
    if ok {
      ok, checkReturnRight := CheckChild(T, node.right, node, comp, t.r);
      if ok {
        ok, ret := RbNodeCheck(T, node, checkReturnLeft, checkReturnRight, comp, t, q, top);
      }
    }
  }

  /** The subtree below one link of `node`, if there is one. */
  method CheckChild(T: Traits, child: Node?, node: Node, comp: Comp, ghost s: Tree) returns (ok: bool, ret: Checked)
    requires T.Valid() && Children(T.cells, s) && child == Root(s) && node in T.cells && node !in Nodes(s)
    requires (child != null ==> T.cells[node].parent != child) && StrictWeak(comp)
    ensures ok <==> Passes(T.cells, s, node, comp, false)
    ensures ok ==> ret == Summary(s)
    decreases s, 1
  {
    ok, ret := true, Checked(null, null, 0, 0);
    if child != null {
      if child.parent != node {
        return false, ret;
      }
      ok, ret := CheckSubtree(T, child, comp, s, node, false);
    }
  }

  /** What is checked of a whole tree. */
  ghost predicate WellFormed(m: Cells, h: Node, t: Tree, comp: Comp) {
    Linked(m, t, h) && Ends(m, h, InOrder(t)) && Sorted(comp, InOrder(t)) && RB(t)
  }

  /** Checks a container whose links lead to the nodes of `t`. */
  method Check(T: Traits, h: Node, comp: Comp, ghost t: Tree) returns (ok: bool, ret: Checked)
    requires T.Valid() && h in T.cells && T.cells[h].parent == Root(t) && Children(T.cells, t) && h !in Nodes(t)
      && StrictWeak(comp)
    ensures ok <==> WellFormed(T.cells, h, t, comp)
    ensures var s := InOrder(t);
      ok ==> ret == if s == [] then Checked(null, null, 0, 0) else Checked(s[0], s[|s| - 1], |s|, BH(t))
  {
    ret := Checked(null, null, 0, 0);
    var root := h.parent;
    if root == null {
      ok := h.left == h && h.right == h;
    } else {
      if root.parent != h {
        return false, ret;
      }
      ok, ret := CheckSubtree(T, root, comp, t, h, true);
      if !ok {
        return;
      }
      LeftEndFirst(t);
      RightEndLast(t);
      var p := Minimum(T, root, t, h);
      if h.left != p {
        return false, ret;
      }
      p := Maximum(T, root, t, h);
      ok := h.right == p;
    }
  }

  /** No node has one and the same child on both sides. */
  ghost predicate NoTwins(t: Tree) {
    t.Bin? ==> (t.l.Bin? && t.r.Bin? ==> t.l.n != t.r.n) && NoTwins(t.l) && NoTwins(t.r)
  }

  /** A node below both children of another would make the children the same. */
  lemma {:induction false} CommonBelow(m: Cells, l: Tree, r: Tree, p: Node, c: Ctx, s: Tree)
    requires Linked(m, l, p) && Linked(m, r, p) && Plug(c, s) == l && s.Bin? && s.n in Nodes(r) && p !in Nodes(l)
      && p !in Nodes(r)
    ensures l.Bin? && r.Bin? && l.n == r.n
    decreases c
  {
    var d, u := Focus(r, s.n);
    LinkedPart(m, c, s, p);
    LinkedPart(m, d, u, p);
    if !c.Top? {
      PlugInside(c, s);
      assert !d.Top?;
      PlugInside(d, u);
      CommonBelow(m, l, r, p, c.up, Parented(c, s));
    } else if !d.Top? {
      PlugInside(d, u);
    }
  }

  lemma PlugInside(c: Ctx, s: Tree)
    requires !c.Top?
    ensures c.n in Nodes(Plug(c, s))
  {
    PlugNodes(c, s);
  }

  lemma NothingCommon(m: Cells, t: Tree)
    requires t.Bin? && Linked(m, t.l, t.n) && Linked(m, t.r, t.n) && t.n !in Nodes(t.l) && t.n !in Nodes(t.r)
    ensures Nodes(t.l) !! Nodes(t.r) <==> (t.l.Bin? && t.r.Bin? ==> t.l.n != t.r.n)
  {
    if t.l.Bin? && t.r.Bin? && t.l.n == t.r.n {
      assert t.l.n in Nodes(t.l) && t.l.n in Nodes(t.r);
    } else if x :| x in Nodes(t.l) && x in Nodes(t.r) {
      var c, s := Focus(t.l, x);
      CommonBelow(m, t.l, t.r, t.n, c, s);
    }
  }

  lemma {:induction false} LinkedDistinct(m: Cells, t: Tree, p: Node)
    requires Linked(m, t, p) && p !in Nodes(t)
    ensures Distinct(t) <==> NoTwins(t)
  {
    LinkedChildren(m, t, p);
    if t.Bin? {
      Acyclic(m, t);
      LinkedDistinct(m, t.l, t.n);
      LinkedDistinct(m, t.r, t.n);
      NothingCommon(m, t);
    }
  }

  /** What passes the check is a red-black tree, unless some node has the same child on both sides. */
  lemma CheckedTree(m: Cells, h: Node, t: Tree, comp: Comp)
    requires h in m && m[h].parent == Root(t) && h !in Nodes(t) && Children(m, t)
    ensures WellFormed(m, h, t, comp) && NoTwins(t) <==> IsTree(m, h, t) && RB(t) && Sorted(comp, InOrder(t))
  {
    if WellFormed(m, h, t, comp) {
      LinkedDistinct(m, t, h);
    }
    if IsTree(m, h, t) {
      LinkedDistinct(m, t, h);
    }
  }

  /** Such a node is not detected, if its child has an equivalent key. */
  lemma TwinsPass(h: Node, p: Node, x: Node, comp: Comp)
    requires h != p && h != x && p != x && p.key == x.key && StrictWeak(comp)
    ensures var leaf := Bin(Leaf, x, true, Leaf); var t := Bin(leaf, p, false, leaf);
      var m: Cells := map[h := Cell(p, x, x, true), p := Cell(h, x, x, false), x := Cell(p, null, null, true)];
      Children(m, t) && WellFormed(m, h, t, comp) && !Distinct(t)
  {
    var leaf := Bin(Leaf, x, true, Leaf);
    var t := Bin(leaf, p, false, leaf);
    assert InOrder(leaf) == [x];
    assert InOrder(t) == [x, p, x];
    assert x in Nodes(leaf);
    assert Balanced(leaf);
    assert !comp(x.key, x.key);
    var m: Cells := map[h := Cell(p, x, x, true), p := Cell(h, x, x, false), x := Cell(p, null, null, true)];
    assert Linked(m, leaf, p) && Linked(m, t, h);
    assert First([x, p, x], h) == x && Last([x, p, x], h) == x;
    var s := [x, p, x];
    forall i, j | 0 <= i < j < |s| ensures !comp(s[j].key, s[i].key) {
      assert s[i].key == x.key && s[j].key == x.key;
    }
    assert RB(t);
  }
}
