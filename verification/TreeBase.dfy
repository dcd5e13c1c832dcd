/** Walking through a tree in order, and telling its header (detail/bstree_algorithms_base.hpp). */
module TreeBase {
  import opened NodeTraits
  import opened Trees
  import opened TreeGraph

  /** The leftmost node of a subtree. */
  method Minimum(T: Traits, node: Node, ghost t: Tree, ghost p: Node?) returns (n: Node)
    requires T.Valid() && Linked(T.cells, t, p) && t.Bin? && node == t.n
    ensures n == LeftEnd(t).n && n == InOrder(t)[0]
  {
    LeftEndFirst(t);
    n := node;
    ghost var s, q := t, p;
    while n.left != null
      invariant s.Bin? && n == s.n && Linked(T.cells, s, q) && LeftEnd(s) == LeftEnd(t)
      decreases s
    {
      q := n;
      n, s := n.left, s.l;
    }
  }

  /** The rightmost node of a subtree. */
  method Maximum(T: Traits, node: Node, ghost t: Tree, ghost p: Node?) returns (n: Node)
    requires T.Valid() && Linked(T.cells, t, p) && t.Bin? && node == t.n
    ensures n == RightEnd(t).n && n == InOrder(t)[|InOrder(t)| - 1]
  {
    RightEndLast(t);
    n := node;
    ghost var s, q := t, p;
    while n.right != null
      invariant s.Bin? && n == s.n && Linked(T.cells, s, q) && RightEnd(s) == RightEnd(t)
      decreases s
    {
      q := n;
      n, s := n.right, s.r;
    }
  }

  /** The header's right link, seen from the root: it is the root itself exactly if that has no right child. */
  lemma RightmostRoot(m: Cells, h: Node, t: Tree)
    requires IsTree(m, h, t) && t.Bin?
    ensures m[h].right == t.n <==> t.r.Leaf?
    ensures m[h].left == t.n <==> t.l.Leaf?
  {
    RightEndLast(t);
    LeftEndFirst(t);
    if t.r.Bin? {
      RightEndInside(t.r);
    }
    if t.l.Bin? {
      LeftEndInside(t.l);
    }
  }

  lemma {:induction false} RightEndInside(t: Tree)
    requires t.Bin?
    ensures RightEnd(t).n in Nodes(t)
  {
    if t.r.Bin? {
      RightEndInside(t.r);
    }
  }

  lemma {:induction false} LeftEndInside(t: Tree)
    requires t.Bin?
    ensures LeftEnd(t).n in Nodes(t)
  {
    if t.l.Bin? {
      LeftEndInside(t.l);
    }
  }

  /** The climb from a node without right child has arrived at the root of `s`, with `p` the parent. */
  ghost predicate Climbing(m: Cells, h: Node, x: Node, p: Node, c: Ctx, d: Ctx, s: Tree) {
    && IsTree(m, h, Plug(d, s)) && Zip(m, h, d, s) && s.Bin? && x == s.n && p == Parent(d, h) && Post(d) == Post(c)
  }

  /** One step of the climb: up from a right child; from the root there may be one more, onto the header. */
  lemma ClimbStep(m: Cells, h: Node, x: Node, p: Node, c: Ctx, d: Ctx, s: Tree)
    requires Climbing(m, h, x, p, c, d, s)
    ensures p in m && (m[p].right == x <==> d.InR? || (d.Top? && s.r.Leaf?))
    ensures d.InR? ==> m[p].parent == Parent(d.up, h) && Climbing(m, h, p, Parent(d.up, h), c, d.up, Parented(d, s))
    ensures d.Top? ==> m[h].parent == x
    ensures m[x].right != p
  {
    if d.Top? {
      RightmostRoot(m, h, s);
    } else {
      ZipUp(m, h, d, s);
      ChildSide(m, h, d, s);
    }
    assert s.r.Bin? ==> s.r.n in Nodes(s.r);
  }

  /** The in-order successor; after the last node, the header. */
  method NextNode(T: Traits, node: Node, ghost h: Node, ghost c: Ctx, ghost t: Tree) returns (next: Node)
    requires T.Valid() && IsTree(T.cells, h, Plug(c, t)) && Zip(T.cells, h, c, t) && t.Bin? && node == t.n
    ensures next == First(InOrder(t.r) + Post(c), h)
  {
    if node.right != null {
      next := Minimum(T, node.right, t.r, node);
    } else {
      var n: Node, p: Node := node, node.parent;
      ghost var d, s, over := c, t, false;
      while n == p.right
        invariant !over ==> Climbing(T.cells, h, n, p, c, d, s)
        invariant over ==>
          n == h && h in T.cells && p in T.cells && T.cells[h].parent == p && T.cells[h].right == p
          && T.cells[p].right == null && Post(c) == []
        decreases if over then 0 else 1 + Depth(d)
      {
        ClimbStep(T.cells, h, n, p, c, d, s);
        n := p;
        p := p.parent;
        if d.InR? {
          d, s := d.up, Parented(d, s);
        } else {
          over := true;
        }
      }
      if !over {
        ClimbStep(T.cells, h, n, p, c, d, s);
      }
      next := if n.right != p then p else n;
      assert InOrder(t.r) + Post(c) == Post(c);
    }
  }

  /** The header can be told from the nodes by its links. */
  lemma HeaderShape(m: Cells, h: Node, t: Tree, p: Node)
    requires IsTree(m, h, t) && p in Nodes(t) + {h}
    ensures p in m && (m[p].left != null ==> m[p].left in m) && (m[p].right != null ==> m[p].right in m)
    ensures p == h <==>
      m[p].parent == null ||
      (m[p].left != null && m[p].right != null
        && (m[p].left == m[p].right || m[m[p].left].parent != p || m[m[p].right].parent != p))
  {
    LinkedIn(m, t, h);
    if p == h {
      if t.Bin? {
        HeaderEnds(m, h, t);
      }
    } else {
      var c, s := Focus(t, p);
      ZipPlug(m, h, c, s);
      assert Linked(m, s.l, p) && Linked(m, s.r, p);
    }
  }

  /** Of a tree with more than one node, at most one end has the header as its parent. */
  lemma HeaderEnds(m: Cells, h: Node, t: Tree)
    requires IsTree(m, h, t) && t.Bin?
    ensures m[h].left in Nodes(t) && m[h].right in Nodes(t) && m[h].left in m && m[h].right in m
    ensures m[h].left == m[h].right || m[m[h].left].parent != h || m[m[h].right].parent != h
  {
    LinkedIn(m, t, h);
    InOrderMember(t, 0);
    InOrderMember(t, |InOrder(t)| - 1);
    var l: Node, r: Node := m[h].left, m[h].right;
    OnlyRoot(m, h, t, l);
    OnlyRoot(m, h, t, r);
  }

  /** Only the root has the header as its parent. */
  lemma OnlyRoot(m: Cells, h: Node, t: Tree, x: Node)
    requires Zip(m, h, Top, t) && x in Nodes(t)
    ensures x in m && (m[x].parent == h <==> x == t.n)
  {
    var c, s := Focus(t, x);
    ZipPlug(m, h, c, s);
    if !c.Top? {
      PlugRoot(c, s, s);
      PlugNodes(c.up, Parented(c, s));
    }
  }

  method IsHeader(T: Traits, p: Node, ghost h: Node, ghost t: Tree) returns (r: bool)
    requires T.Valid() && IsTree(T.cells, h, t) && p in Nodes(t) + {h}
    ensures r <==> p == h
  {
    HeaderShape(T.cells, h, t, p);
    var pLeft, pRight := p.left, p.right;
    r := p.parent == null
      || (pLeft != null && pRight != null && (pLeft == pRight || pLeft.parent != p || pRight.parent != p));
  }

  /** The in-order predecessor of a node that has one, and of the header the last node. */
  method PrevNode(T: Traits, node: Node, ghost h: Node, ghost c: Ctx, ghost t: Tree) returns (n: Node)
    requires T.Valid() && IsTree(T.cells, h, Plug(c, t)) && t.Bin?
    requires node == h || (Zip(T.cells, h, c, t) && node == t.n && Pre(c) + InOrder(t.l) != [])
    ensures n == Last(if node == h then InOrder(Plug(c, t)) else Pre(c) + InOrder(t.l), h)
  {
    PlugNodes(c, t);
    var isHeader := IsHeader(T, node, h, Plug(c, t));
    if isHeader {
      PlugInOrder(c, t);
      n := Maximum(T, node.parent, Plug(c, t), h);
    } else if node.left != null {
      n := Maximum(T, node.left, t.l, node);
    } else {
      var p, x := node, node.parent;
      ghost var d, s := c, t;
      assert Pre(c) + InOrder(t.l) == Pre(c);
      while p == x.left
        invariant Zip(T.cells, h, d, s) && s.Bin? && p == s.n && x == Parent(d, h) && Pre(d) == Pre(c)
        decreases d
      {
        ZipUp(T.cells, h, d, s);
        ChildSide(T.cells, h, d, s);
        d, s := d.up, Parented(d, s);
        p := x;
        x := x.parent;
      }
      ChildSide(T.cells, h, d, s);
      n := x;
    }
  }

  /** Only for the root, and for the header, the parent's parent is the node itself. */
  lemma Grandparent(m: Cells, h: Node, c: Ctx, t: Tree)
    requires Zip(m, h, c, t) && t.Bin?
    ensures t.n in m && m[t.n].parent == Parent(c, h) && Parent(c, h) in m
    ensures m[Parent(c, h)].parent == if c.Top? then t.n else Parent(c.up, h)
    ensures m[Parent(c, h)].parent == t.n <==> c.Top?
  {
  }

  /** The header of the tree that a node is in. */
  method GetHeader(T: Traits, node: Node, ghost h: Node, ghost t: Tree) returns (n: Node)
    requires T.Valid() && IsTree(T.cells, h, t) && node in Nodes(t) + {h}
    ensures n == h
  {
    LinkedIn(T.cells, t, h);
    ghost var c, s := Top, t;
    if node != h {
      c, s := Focus(t, node);
      ZipPlug(T.cells, h, c, s);
      Grandparent(T.cells, h, c, s);
    }
    n := node;
    var p := node.parent;
    if p != null {
      var pp := p.parent;
      if n != pp {
        var again := true;
        while again
          invariant Zip(T.cells, h, c, s) && s.Bin? && n == s.n && p == Parent(c, h) && pp == T.cells[p].parent
          invariant !again ==> c.Top?
          invariant again ==> !c.Top?
          decreases c, again
        {
          Grandparent(T.cells, h, c, s);
          ZipUp(T.cells, h, c, s);
          c, s := c.up, Parented(c, s);
          Grandparent(T.cells, h, c, s);
          n := p;
          p := pp;
          pp := pp.parent;
          again := n != pp;
        }
        n := p;
      } else {
        var isHeader := IsHeader(T, n, h, t);
        if !isHeader {
          n := p;
        }
      }
    }
  }
}
