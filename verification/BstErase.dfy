/** Unlinking a node from a binary tree (bstree_algorithms.hpp). */
module BstErase {
  import opened NodeTraits
  import opened Trees
  import opened TreeGraph
  import opened Rotations
  import opened TreeBase

  /** What the caller needs to rebalance: the node put in the place of the one that left its place,
      its parent, and the node that took the place of the erased one. */
  datatype RebalanceInfo = RebalanceInfo(x: Node?, xParent: Node, y: Node)

  /** `m` with `x` put at the hole of `c`, its parent link set first. */
  ghost function Spliced(m: Cells, h: Node, c: Ctx, x: Node?): Cells
    requires Parent(c, h) in m && (x != null ==> x in m)
  {
    WithChild(if x == null then m else var x': Node := x; m[x' := m[x'].(parent := Parent(c, h))], c, h, x)
  }

  /** A node with at most one child leaves: the child takes its place. */
  lemma SplicedOut(m: Cells, h: Node, c: Ctx, z: Node, kz: bool, l: Tree, r: Tree, x: Tree)
    requires Zip(m, h, c, Bin(l, z, kz, r)) && (l.Leaf? || r.Leaf?) && x == if l.Leaf? then r else l
    ensures Parent(c, h) in m && (x.Bin? ==> x.n in m)
    ensures Zip(Spliced(m, h, c, Root(x)), h, c, x)
    ensures Foot(h, c, x) == Foot(h, c, Bin(l, z, kz, r)) - {z}
  {
    assert Linked(m, x, z);
    var m1: Cells := if x.Leaf? then m else m[x.n := m[x.n].(parent := Parent(c, h))];
    Reparented(m, m1, x, z, Parent(c, h));
    assert x.Bin? ==> x.n in Nodes(x);
    AroundFrame(m, m1, c, z, h);
    ChildReplaced(m1, c, z, h, Root(x));
    LinkedFrame(m1, Spliced(m, h, c, Root(x)), x, Parent(c, h));
  }

  /** `m` with the node `y` adopting the children `l` and `r`, below the parent `p`. */
  ghost function Adopted(m: Cells, p: Node, y: Node, l: Node, r: Node?): Cells
    requires y in m && l in m && (r != null ==> r in m)
  {
    var m1: Cells := m[y := Cell(p, l, r, m[y].red)];
    var m2: Cells := m1[l := m1[l].(parent := y)];
    if r == null then m2 else var r': Node := r; m2[r' := m2[r'].(parent := y)]
  }

  lemma AdoptedChanges(m: Cells, p: Node, y: Node, l: Node, r: Node?)
    requires y in m && l in m && (r != null ==> r in m) && y != l && y != r
    ensures Adopted(m, p, y, l, r)[y] == Cell(p, l, r, m[y].red)
    ensures OnlyChanged(m, Adopted(m, p, y, l, r), {y, l} + Some(r))
  {
  }

  lemma AdoptedChildren(m: Cells, p: Node, z: Node, y: Node, l: Tree, r: Tree)
    requires Linked(m, l, z) && Linked(m, r, z) && l.Bin? && Distinct(l) && Distinct(r) && Nodes(l) !! Nodes(r)
    requires y in m && y !in Nodes(l) && y !in Nodes(r)
    ensures r.Bin? ==> r.n in m
    ensures ChildCell(Adopted(m, p, y, l.n, Root(r)), y, l, r, m[y].red)
  {
    assert l.n in Nodes(l) && (r.Bin? ==> r.n in Nodes(r));
    var m1: Cells := m[y := Cell(p, l.n, Root(r), m[y].red)];
    LinkedFrame(m, m1, l, z);
    LinkedFrame(m, m1, r, z);
    var m2: Cells := m1[l.n := m1[l.n].(parent := y)];
    Reparented(m1, m2, l, z, y);
    LinkedFrame(m1, m2, r, z);
    if r.Bin? {
      var m3: Cells := m2[r.n := m2[r.n].(parent := y)];
      LinkedFrame(m2, m3, l, y);
      Reparented(m2, m3, r, z, y);
    }
  }

  /** Another node takes the place of the root of the subtree in focus. */
  lemma ReplacedRoot(m: Cells, h: Node, c: Ctx, z: Node, kz: bool, y: Node, l: Tree, r: Tree)
    requires Zip(m, h, c, Bin(l, z, kz, r)) && y in m && y !in Foot(h, c, Bin(l, z, kz, r)) && l.Bin?
    ensures Parent(c, h) in m && l.n in m && (r.Bin? ==> r.n in m)
    ensures Zip(WithChild(Adopted(m, Parent(c, h), y, l.n, Root(r)), c, h, y), h, c, Bin(l, y, m[y].red, r))
  {
    AdoptedChildren(m, Parent(c, h), z, y, l, r);
    var m1 := Adopted(m, Parent(c, h), y, l.n, Root(r));
    AdoptedChanges(m, Parent(c, h), y, l.n, Root(r));
    assert l.n in Nodes(l) && (r.Bin? ==> r.n in Nodes(r));
    AroundFrame(m, m1, c, z, h);
    assert m1[y := m1[y].(parent := Parent(c, h))] == m1;
    Rehung(m1, h, c, z, Bin(l, y, m[y].red, r));
  }

  /** Writes of the source for a node with two children, in its order. */
  ghost function EraseTwoCells(m: Cells, h: Node, c: Ctx, y: Node, zl: Node, zr: Node, x: Node?): Cells
    requires y in m && zl in m && zr in m && (x != null ==> x in m) && Parent(c, h) in m
    requires y != zr ==> m[y].parent != null && m[y].parent in m
  {
    var m1: Cells := m[zl := m[zl].(parent := y)];
    var m2: Cells := m1[y := m1[y].(left := zl)];
    var m3 := if y == zr then m2 else UnderRight(m2, y, zr, x);
    var m4: Cells := m3[y := m3[y].(parent := Parent(c, h))];
    WithChild(m4, c, h, y)
  }

  /** The successor takes the right subtree, and hands its own right child to its old parent. */
  ghost function UnderRight(m: Cells, y: Node, zr: Node, x: Node?): (m': Cells)
    requires y in m && zr in m && (x != null ==> x in m) && y != zr
    requires m[y].parent != null && m[y].parent in m
    ensures m'.Keys == m.Keys
  {
    var m1: Cells := m[y := m[y].(right := zr)];
    var m2: Cells := m1[zr := m1[zr].(parent := y)];
    var xp: Node := m2[y].parent;
    var m3: Cells := if x == null then m2 else var x': Node := x; m2[x' := m2[x'].(parent := xp)];
    m3[xp := m3[xp].(left := x)]
  }

  lemma WithChildSame(m: Cells, m': Cells, h: Node, c: Ctx, x: Node?, z: Node)
    requires OnlyChanged(m, m', {z}) && z in m && Parent(c, h) in m && Parent(c, h) != z
    ensures OnlyChanged(WithChild(m, c, h, x), WithChild(m', c, h, x), {z})
    ensures WithChild(m', c, h, x)[z] == m'[z]
  {
  }

  /** Erasing by relinking equals splicing the successor out and putting it in the place of `z`,
      except for what the erased node `z` itself stores. */
  lemma EraseTwoNear(m: Cells, h: Node, c: Ctx, l: Tree, z: Node, kz: bool, y: Node, x: Node?)
    requires y in m && z in m && l.Bin? && l.n in m && (x != null ==> x in m) && Parent(c, h) in m
    requires m[y].right == x && (x != null ==> m[x].parent == y)
    requires z != y && z != l.n && y != l.n && x != z && x != y && x != l.n && Parent(c, h) != z
    ensures var m' := EraseTwoCells(m, h, c, y, l.n, y, x);
            var m1 := Spliced(m, h, InR(c, l, z, kz), x);
            var m2 := WithChild(Adopted(m1, Parent(c, h), y, l.n, x), c, h, y);
            OnlyChanged(m2, m', {z}) && m'[z] == m[z]
  {
    var m1: Cells := m[l.n := m[l.n].(parent := y)];
    var m2: Cells := m1[y := m1[y].(left := l.n)];
    var m4: Cells := m2[y := m2[y].(parent := Parent(c, h))];
    WithChildSame(Adopted(Spliced(m, h, InR(c, l, z, kz), x), Parent(c, h), y, l.n, x), m4, h, c, y, z);
  }

  /** The same links come about in the order of the source and in that of splicing and adopting. */
  lemma FarLinks(m: Cells, p: Node, q: Node, y: Node, zl: Node, zr: Node, x: Node?)
    requires y in m && zl in m && zr in m && (x != null ==> x in m) && q in m && m[y].parent == q
    requires y != zl && y != zr && zl != zr && x != y && x != zl && x != zr && q != y && q != zl && q != x
    ensures var m1: Cells := m[zl := m[zl].(parent := y)]; var m2: Cells := m1[y := m1[y].(left := zl)];
            var m3 := UnderRight(m2, y, zr, x); var m4: Cells := m3[y := m3[y].(parent := p)];
            var s1: Cells := if x == null then m else var x': Node := x; m[x' := m[x'].(parent := q)];
            var s2: Cells := s1[q := s1[q].(left := x)];
            m4.Keys == m.Keys && Adopted(s2, p, y, zl, zr).Keys == m.Keys
              && forall n <- m :: m4[n] == Adopted(s2, p, y, zl, zr)[n]
  {
  }

  lemma EraseTwoFar(m: Cells, h: Node, c: Ctx, d: Ctx, z: Node, y: Node, zl: Node, zr: Node, x: Node?)
    requires y in m && z in m && zl in m && zr in m && (x != null ==> x in m) && Parent(c, h) in m
    requires d.InL? && d.n in m && m[y].parent == d.n
    requires z != y && z != zl && z != zr && y != zl && y != zr && zl != zr
    requires x != z && x != y && x != zl && x != zr && d.n != z && d.n != y && d.n != zl && d.n != x
      && Parent(c, h) != z
    ensures var m' := EraseTwoCells(m, h, c, y, zl, zr, x);
            var m1 := Spliced(m, h, d, x);
            var m2 := WithChild(Adopted(m1, Parent(c, h), y, zl, zr), c, h, y);
            OnlyChanged(m2, m', {z}) && m'[z] == m[z]
  {
    var m1: Cells := m[zl := m[zl].(parent := y)];
    var m2: Cells := m1[y := m1[y].(left := zl)];
    var m3 := UnderRight(m2, y, zr, x);
    var m4: Cells := m3[y := m3[y].(parent := Parent(c, h))];
    var a := Adopted(Spliced(m, h, d, x), Parent(c, h), y, zl, zr);
    FarLinks(m, Parent(c, h), d.n, y, zl, zr, x);
    WithChildSame(a, m4, h, c, y, z);
  }

  /** The tree without the root of the subtree in focus, whose successor, at the end of the
      leftmost path of the right subtree, takes its place. The hole is where the successor was. */
  ghost function WithoutRoot(c: Ctx, t: Tree): Ctx
    requires t.Bin? && t.r.Bin?
  {
    Append(LeftPath(t.r), InR(c, t.l, LeftEnd(t.r).n, LeftEnd(t.r).red))
  }

  lemma ZipPath(m: Cells, h: Node, c: Ctx, p: Ctx, t: Tree)
    ensures Zip(m, h, Append(p, c), t) <==> Zip(m, h, c, Plug(p, t))
    ensures Foot(h, Append(p, c), t) == Foot(h, c, Plug(p, t))
  {
    ZipPlug(m, h, Append(p, c), t);
    ZipPlug(m, h, c, Plug(p, t));
    PlugAppend(p, c, t);
  }

  /** The nodes the source touches when it erases a node with two children. */
  lemma EraseTwoNodes(m: Cells, h: Node, c: Ctx, t: Tree)
    requires Zip(m, h, c, t) && t.Bin? && t.l.Bin? && t.r.Bin?
    ensures var e, d, y := LeftEnd(t.r), Append(LeftPath(t.r), InR(c, t.l, t.n, t.red)), LeftEnd(t.r).n;
      && Zip(m, h, d, e) && Foot(h, d, e) == Foot(h, c, t)
      && t.n in m && y in m && t.l.n in m && t.r.n in m && Parent(c, h) in m
      && m[y] == Cell(Parent(d, h), null, Root(e.r), e.red)
      && (e.r.Bin? ==> e.r.n in m && m[e.r.n].parent == y)
      && (y == t.r.n <==> LeftPath(t.r).Top?) && (y == t.r.n ==> d == InR(c, t.l, t.n, t.red))
      && (y != t.r.n ==> d.InL?)
  {
    var p, e := LeftPath(t.r), LeftEnd(t.r);
    var c1 := InR(c, t.l, t.n, t.red);
    ZipUp(m, h, c1, t.r);
    assert Linked(m, t.l, t.n);
    LeftEndFirst(t.r);
    ZipPath(m, h, c1, p, e);
    AppendParent(p, c1, h);
    assert Linked(m, e.r, e.n);
    if !p.Top? {
      LeftPathRoot(t.r);
    }
  }

  lemma LeftPathRoot(t: Tree)
    requires t.Bin? && Distinct(t) && t.l.Bin?
    ensures LeftEnd(t).n in Nodes(t.l) && LeftEnd(t).n != t.n && !LeftPath(t).Top?
  {
    LeftEndFirst(t.l);
    PlugNodes(LeftPath(t.l), LeftEnd(t.l));
    AppendParent(LeftPath(t.l), InL(Top, t.n, t.red, t.r), t.n);
  }

  lemma EraseTwoChanges(m: Cells, h: Node, c: Ctx, y: Node, zl: Node, zr: Node, x: Node?)
    requires y in m && zl in m && zr in m && (x != null ==> x in m) && Parent(c, h) in m
    requires y != zr ==> m[y].parent != null && m[y].parent in m
    requires h in m && h != y && h != zl && h != zr && h != x && (y != zr ==> m[y].parent != h) && h !in CNodes(c)
    ensures Reshaped(m, EraseTwoCells(m, h, c, y, zl, zr, x), h,
              {y, zl, zr, Parent(c, h)} + Some(x) + if y == zr then {} else Some(m[y].parent))
  {
  }

  /** The successor of the root spliced out of the right subtree. */
  lemma SuccessorOut(m: Cells, h: Node, c: Ctx, t: Tree)
    requires Zip(m, h, c, t) && t.Bin? && t.l.Bin? && t.r.Bin?
    ensures var e, d := LeftEnd(t.r), Append(LeftPath(t.r), InR(c, t.l, t.n, t.red));
      && Parent(d, h) in m && e.n in m && (e.r.Bin? ==> e.r.n in m)
      && var m1, r := Spliced(m, h, d, Root(e.r)), Plug(LeftPath(t.r), e.r);
         && Zip(m1, h, c, Bin(t.l, t.n, t.red, r))
         && Foot(h, c, Bin(t.l, t.n, t.red, r)) == Foot(h, c, t) - {e.n}
         && Root(r) == (if e.n == t.r.n then Root(e.r) else t.r.n)
         && e.n in m1 && m1[e.n].red == e.red
  {
    EraseTwoNodes(m, h, c, t);
    var p, e := LeftPath(t.r), LeftEnd(t.r);
    var c1 := InR(c, t.l, t.n, t.red);
    var d, r := Append(p, c1), Plug(p, e.r);
    SplicedOut(m, h, d, e.n, e.red, Leaf, e.r, e.r);
    var m1 := Spliced(m, h, d, Root(e.r));
    ZipPath(m1, h, c1, p, e.r);
    ZipUp(m1, h, c1, r);
    LeftEndFirst(t.r);
    if !p.Top? {
      PlugRoot(p, e, e.r);
    }
  }

  /** The successor put in the place of the root. */
  lemma SuccessorUp(m: Cells, h: Node, c: Ctx, t: Tree)
    requires Zip(m, h, c, t) && t.Bin? && t.l.Bin? && t.r.Bin?
    ensures var e, d := LeftEnd(t.r), Append(LeftPath(t.r), InR(c, t.l, t.n, t.red));
      && Parent(d, h) in m && e.n in m && t.l.n in m && (e.r.Bin? ==> e.r.n in m) && t.r.n in m && Parent(c, h) in m
      && var m1 := Spliced(m, h, d, Root(e.r));
         var r := if e.n == t.r.n then Root(e.r) else t.r.n;
         Zip(WithChild(Adopted(m1, Parent(c, h), e.n, t.l.n, r), c, h, e.n), h, WithoutRoot(c, t), e.r)
    ensures Foot(h, WithoutRoot(c, t), LeftEnd(t.r).r) == Foot(h, c, t) - {t.n}
  {
    EraseTwoNodes(m, h, c, t);
    SuccessorOut(m, h, c, t);
    var p, e := LeftPath(t.r), LeftEnd(t.r);
    SuccessorIn(Spliced(m, h, Append(p, InR(c, t.l, t.n, t.red)), Root(e.r)), h, c, t);
    SuccessorFoot(h, c, t);
  }

  lemma SuccessorIn(m1: Cells, h: Node, c: Ctx, t: Tree)
    requires t.Bin? && t.l.Bin? && t.r.Bin?
    requires var e, r := LeftEnd(t.r), Plug(LeftPath(t.r), LeftEnd(t.r).r);
      && Zip(m1, h, c, Bin(t.l, t.n, t.red, r)) && e.n !in Foot(h, c, Bin(t.l, t.n, t.red, r))
      && e.n in m1 && m1[e.n].red == e.red
    ensures var e, r := LeftEnd(t.r), Plug(LeftPath(t.r), LeftEnd(t.r).r);
      && t.l.n in m1 && (r.Bin? ==> r.n in m1) && Parent(c, h) in m1
      && Zip(WithChild(Adopted(m1, Parent(c, h), e.n, t.l.n, Root(r)), c, h, e.n), h, WithoutRoot(c, t), e.r)
  {
    var p, e := LeftPath(t.r), LeftEnd(t.r);
    var r, c2 := Plug(p, e.r), InR(c, t.l, e.n, e.red);
    ReplacedRoot(m1, h, c, t.n, t.red, e.n, t.l, r);
    var m2 := WithChild(Adopted(m1, Parent(c, h), e.n, t.l.n, Root(r)), c, h, e.n);
    ZipUp(m2, h, c2, r);
    ZipPath(m2, h, c2, p, e.r);
  }

  lemma SuccessorFoot(h: Node, c: Ctx, t: Tree)
    requires t.Bin? && t.r.Bin? && Apart(h, c, t)
    ensures Foot(h, WithoutRoot(c, t), LeftEnd(t.r).r) == Foot(h, c, t) - {t.n}
  {
    var p, e := LeftPath(t.r), LeftEnd(t.r);
    LeftEndFirst(t.r);
    PlugNodes(p, e);
    AppendNodes(p, InR(c, t.l, e.n, e.red));
  }

  lemma {:induction false} AppendNodes(inner: Ctx, outer: Ctx)
    ensures CNodes(Append(inner, outer)) == CNodes(inner) + CNodes(outer)
  {
    if !inner.Top? {
      AppendNodes(inner.up, outer);
    }
  }

  /** Relinking a node with two children out of the tree. */
  lemma EraseTwoTree(m: Cells, h: Node, c: Ctx, t: Tree)
    requires Zip(m, h, c, t) && t.Bin? && t.l.Bin? && t.r.Bin?
    ensures var e := LeftEnd(t.r);
      && e.n in m && t.l.n in m && t.r.n in m && t.n in m && (e.r.Bin? ==> e.r.n in m) && Parent(c, h) in m
      && (e.n != t.r.n ==> m[e.n].parent != null && m[e.n].parent in m)
      && var m' := EraseTwoCells(m, h, c, e.n, t.l.n, t.r.n, Root(e.r));
         Zip(m', h, WithoutRoot(c, t), e.r) && m'[t.n] == m[t.n] && Reshaped(m, m', h, Foot(h, c, t))
  {
    EraseTwoNodes(m, h, c, t);
    SuccessorUp(m, h, c, t);
    SuccessorFoot(h, c, t);
    var p, e := LeftPath(t.r), LeftEnd(t.r);
    var d := Append(p, InR(c, t.l, t.n, t.red));
    var m' := EraseTwoCells(m, h, c, e.n, t.l.n, t.r.n, Root(e.r));
    EraseTwoApart(h, c, t);
    if e.n == t.r.n {
      EraseTwoNear(m, h, c, t.l, t.n, t.red, e.n, Root(e.r));
    } else {
      EraseTwoFar(m, h, c, d, t.n, e.n, t.l.n, t.r.n, Root(e.r));
    }
    EraseTwoChanges(m, h, c, e.n, t.l.n, t.r.n, Root(e.r));
    var m1 := Spliced(m, h, d, Root(e.r));
    var m2 := WithChild(Adopted(m1, Parent(c, h), e.n, t.l.n, if e.n == t.r.n then Root(e.r) else t.r.n), c, h, e.n);
    ZipFrame(m2, m', h, WithoutRoot(c, t), e.r);
  }

  lemma EraseTwoApart(h: Node, c: Ctx, t: Tree)
    requires Apart(h, c, t) && t.Bin? && t.l.Bin? && t.r.Bin?
    ensures var e, d := LeftEnd(t.r), Append(LeftPath(t.r), InR(c, t.l, t.n, t.red));
      && t.n != t.l.n && t.n != t.r.n && t.l.n != t.r.n && e.n != t.n && e.n != t.l.n
      && Root(e.r) != t.n && Root(e.r) != t.l.n && Root(e.r) != e.n
      && Parent(c, h) != t.n && Parent(c, h) !in Nodes(t)
      && {t.n, t.l.n, t.r.n, e.n} + Some(Root(e.r)) <= Nodes(t) && h !in Nodes(t) && h !in CNodes(c)
      && (e.n != t.r.n ==> d.InL? && d.n in Nodes(t.r) && d.n != e.n && d.n != Root(e.r) && Root(e.r) != t.r.n)
  {
    var p, e := LeftPath(t.r), LeftEnd(t.r);
    LeftEndFirst(t.r);
    PlugNodes(p, e);
    AppendParent(p, InR(c, t.l, t.n, t.red), h);
    assert t.l.n in Nodes(t.l) && t.r.n in Nodes(t.r) && e.n in Nodes(e) && (e.r.Bin? ==> e.r.n in Nodes(e.r));
    if !p.Top? {
      PlugRoot(p, e, Leaf);
      PlugNodes(p, Leaf);
      assert p.n in CNodes(p) && Plug(p, Leaf).n in Nodes(Plug(p, Leaf));
    }
  }

  /** The hole the erased node leaves, and what fills it. */
  ghost function ErasedCtx(c: Ctx, t: Tree): Ctx
    requires t.Bin?
  {
    if t.l.Leaf? || t.r.Leaf? then c else WithoutRoot(c, t)
  }

  ghost function ErasedSub(t: Tree): Tree
    requires t.Bin?
  {
    if t.l.Leaf? then t.r else if t.r.Leaf? then t.l else LeftEnd(t.r).r
  }

  /** The nodes around the root of the subtree in focus, in order. */
  ghost function Without(c: Ctx, t: Tree): seq<Node>
    requires t.Bin?
  {
    Before(c, t) + After(c, t)
  }

  lemma Regroup6<T>(a: seq<T>, b: seq<T>, e: seq<T>, x: seq<T>, p: seq<T>, q: seq<T>)
    ensures (a + b + e + []) + x + (p + q) == a + b + (e + x + p) + q
  {
  }

  lemma ErasedInOrder(c: Ctx, t: Tree)
    requires t.Bin?
    ensures InOrder(Plug(ErasedCtx(c, t), ErasedSub(t))) == Without(c, t)
  {
    PlugInOrder(ErasedCtx(c, t), ErasedSub(t));
    if t.l.Bin? && t.r.Bin? {
      ErasedTwoOrder(c, t);
    } else {
      EmptySides(Pre(c), InOrder(t.l), InOrder(t.r));
    }
  }

  lemma EmptySides(a: seq<Node>, l: seq<Node>, r: seq<Node>)
    ensures (l == [] ==> a + l == a) && (r == [] ==> a + l + r == a + l)
  {
  }

  lemma ErasedTwoOrder(c: Ctx, t: Tree)
    requires t.Bin? && t.l.Bin? && t.r.Bin?
    ensures Pre(ErasedCtx(c, t)) + InOrder(ErasedSub(t)) + Post(ErasedCtx(c, t)) == Without(c, t)
  {
    var p, e := LeftPath(t.r), LeftEnd(t.r);
    var c2 := InR(c, t.l, e.n, e.red);
    SuccessorFirst(t.r);
    PreAppend(p, c2);
    Regroup6(Pre(c), InOrder(t.l), [e.n], InOrder(e.r), Post(p), Post(c));
    Trailing(Pre(c) + InOrder(t.l) + [e.n]);
  }

  lemma Trailing(a: seq<Node>)
    ensures a + [] == a
  {
  }

  lemma SuccessorFirst(r: Tree)
    requires r.Bin?
    ensures InOrder(r) == [LeftEnd(r).n] + InOrder(LeftEnd(r).r) + Post(LeftPath(r)) && Pre(LeftPath(r)) == []
  {
    LeftEndFirst(r);
    PlugInOrder(LeftPath(r), LeftEnd(r));
    assert InOrder(LeftEnd(r)) == [LeftEnd(r).n] + InOrder(LeftEnd(r).r);
  }

  lemma MiddleOut(a: seq<Node>, z: Node, b: seq<Node>, h: Node)
    requires NoDup(a + [z] + b)
    ensures a != [] ==> First(a + [z] + b, h) == First(a + b, h) == a[0] != z
    ensures a == [] ==> First(a + [z] + b, h) == z && a + b == b
    ensures b != [] ==> Last(a + [z] + b, h) == Last(a + b, h) == b[|b| - 1] != z
    ensures b == [] ==> Last(a + [z] + b, h) == z && a + b == a
  {
    var s := a + [z] + b;
    assert s[|a|] == z;
    assert a != [] ==> s[0] == a[0];
    assert b != [] ==> s[|s| - 1] == b[|b| - 1];
  }

  lemma CtxEnds(c: Ctx, h: Node)
    ensures Pre(c) == [] ==> First(Post(c), h) == Parent(c, h)
    ensures Post(c) == [] ==> Last(Pre(c), h) == Parent(c, h)
  {
  }

  /** What becomes of the two ends of the order when the root of the subtree in focus goes. */
  lemma ErasedEnds(h: Node, c: Ctx, t: Tree)
    requires Apart(h, c, t) && t.Bin?
    ensures var s, s' := InOrder(Plug(c, t)), Without(c, t);
      && (First(s, h) == t.n ==> t.l.Leaf? && First(s', h) == if t.r.Leaf? then Parent(c, h) else InOrder(t.r)[0])
      && (First(s, h) != t.n ==> First(s', h) == First(s, h))
      && (Last(s, h) == t.n ==>
        t.r.Leaf? && Last(s', h) == if t.l.Leaf? then Parent(c, h) else InOrder(t.l)[|InOrder(t.l)| - 1])
      && (Last(s, h) != t.n ==> Last(s', h) == Last(s, h))
  {
    AroundRoot(c, t);
    MiddleOut(Before(c, t), t.n, After(c, t), h);
    CtxEnds(c, h);
    BeforeEnds(c, t, h);
  }

  lemma BeforeEnds(c: Ctx, t: Tree, h: Node)
    requires t.Bin?
    ensures Before(c, t) == [] ==> t.l.Leaf? && Pre(c) == []
    ensures After(c, t) == [] ==> t.r.Leaf? && Post(c) == []
    ensures First(After(c, t), h) == if t.r.Leaf? then First(Post(c), h) else InOrder(t.r)[0]
    ensures Last(Before(c, t), h) == if t.l.Leaf? then Last(Pre(c), h) else InOrder(t.l)[|InOrder(t.l)| - 1]
  {
    assert t.r.Leaf? ==> After(c, t) == Post(c);
    assert t.l.Leaf? ==> Before(c, t) == Pre(c);
  }

  /** A node with at most one child: its child, if any, is linked to its parent. */
  method SpliceOut(T: Traits, h: Node, x: Node?, zParent: Node, zIsLeft: bool, ghost c: Ctx)
    requires T.Valid() && zParent in T.cells && (x != null ==> x in T.cells) && zParent == Parent(c, h)
      && h !in CNodes(c)
    requires (c.InL? ==> zIsLeft) && (c.InR? ==> !zIsLeft)
    modifies T, T.cells.Keys
    ensures T.Valid() && T.turns == old(T.turns) && T.cells == Spliced(old(T.cells), h, c, x)
  {
    if x != null {
      T.SetParent(x, zParent);
    }
    SetChild(T, h, x, zParent, zIsLeft, c);
  }

  /** The header's links to the ends are moved off the erased node. */
  method FixEnds(T: Traits, h: Node, z: Node, zLeft: Node?, zRight: Node?, zParent: Node, ghost c: Ctx, ghost t: Tree)
    requires T.Valid() && Apart(h, c, t) && t.Bin? && (t.l.Leaf? || t.r.Leaf?) && z == t.n
    requires zLeft == Root(t.l) && zRight == Root(t.r) && zParent == Parent(c, h)
    requires Zip(T.cells, h, c, ErasedSub(t)) && Ends(T.cells, h, InOrder(Plug(c, t)))
    modifies T, T.cells.Keys
    ensures T.Valid() && T.turns == old(T.turns) && Zip(T.cells, h, c, ErasedSub(t)) && Ends(T.cells, h, Without(c, t))
    ensures OnlyChanged(old(T.cells), T.cells, {h}) && T.cells[h].red == old(T.cells)[h].red
  {
    ErasedEnds(h, c, t);
    if h.left == z {
      var first := zParent;
      if zRight != null {
        first := Minimum(T, zRight, t.r, zParent);
      }
      EndsSet(T.cells, T.cells[h := T.cells[h].(left := first)], h, c, ErasedSub(t));
      T.SetLeft(h, first);
    }
    if h.right == z {
      var last := zParent;
      if zLeft != null {
        last := Maximum(T, zLeft, t.l, zParent);
      }
      EndsSet(T.cells, T.cells[h := T.cells[h].(right := last)], h, c, ErasedSub(t));
      T.SetRight(h, last);
    }
  }

  /** The successor, not itself the right child, takes the right subtree; its own right child
      moves up to its old parent. */
  method TakeRight(T: Traits, y: Node, zRight: Node, x: Node?) returns (xParent: Node)
    requires T.Valid() && y in T.cells && zRight in T.cells && (x != null ==> x in T.cells) && y != zRight
    requires T.cells[y].parent != null && T.cells[y].parent in T.cells
    modifies T, T.cells.Keys
    ensures T.Valid() && T.turns == old(T.turns) && T.cells == UnderRight(old(T.cells), y, zRight, x)
      && xParent == old(T.cells)[y].parent
  {
    T.SetRight(y, zRight);
    T.SetParent(zRight, y);
    xParent := y.parent;
    if x != null {
      T.SetParent(x, xParent);
    }
    T.SetLeft(xParent, x);
  }

  /** The successor `y` takes the place of a node with two children. */
  method RelinkSuccessor(T: Traits, h: Node, y: Node, zLeft: Node, zRight: Node, x: Node?, zParent: Node, zIsLeft: bool,
      ghost c: Ctx)
      returns (xParent: Node)
    requires T.Valid() && y in T.cells && zLeft in T.cells && zRight in T.cells && zParent in T.cells
      && (x != null ==> x in T.cells)
    requires y != zLeft && (y != zRight ==> T.cells[y].parent != null && T.cells[y].parent in T.cells)
    requires zParent == Parent(c, h) && h !in CNodes(c) && (c.InL? ==> zIsLeft) && (c.InR? ==> !zIsLeft)
    modifies T, T.cells.Keys
    ensures T.Valid() && T.turns == old(T.turns) && T.cells == EraseTwoCells(old(T.cells), h, c, y, zLeft, zRight, x)
    ensures xParent == if y == zRight then y else old(T.cells)[y].parent
  {
    T.SetParent(zLeft, y);
    T.SetLeft(y, zLeft);
    if y != zRight {
      xParent := TakeRight(T, y, zRight, x);
    } else {
      xParent := y;
    }
    T.SetParent(y, zParent);
    SetChild(T, h, y, zParent, zIsLeft, c);
  }

  method EraseTwo(T: Traits, h: Node, z: Node, zLeft: Node, zRight: Node, zParent: Node, zIsLeft: bool, ghost c: Ctx,
      ghost t: Tree)
      returns (info: RebalanceInfo)
    requires T.Valid() && Zip(T.cells, h, c, t) && t.Bin? && z == t.n && t.l.Bin? && t.r.Bin?
    requires zLeft == t.l.n && zRight == t.r.n && zParent == Parent(c, h)
    requires (c.InL? ==> zIsLeft) && (c.InR? ==> !zIsLeft)
    modifies T, T.cells.Keys
    ensures T.Valid() && T.turns == old(T.turns) && Zip(T.cells, h, WithoutRoot(c, t), LeftEnd(t.r).r)
    ensures Reshaped(old(T.cells), T.cells, h, Foot(h, c, t))
    ensures z in T.cells && T.cells[z] == old(T.cells)[z]
    ensures info.x == Root(LeftEnd(t.r).r) && info.xParent == Parent(WithoutRoot(c, t), h) && info.y == LeftEnd(t.r).n
  {
    assert Linked(T.cells, t.r, z);
    var y := Minimum(T, zRight, t.r, z);
    var x := y.right;
    EraseTwoNodes(T.cells, h, c, t);
    EraseTwoTree(T.cells, h, c, t);
    EraseTwoApart(h, c, t);
    AppendParent(LeftPath(t.r), InR(c, t.l, t.n, t.red), h);
    AppendParent(LeftPath(t.r), InR(c, t.l, y, LeftEnd(t.r).red), h);
    var xParent := RelinkSuccessor(T, h, y, zLeft, zRight, x, zParent, zIsLeft, c);
    info := RebalanceInfo(x, xParent, y);
  }

  method EraseOne(T: Traits, h: Node, z: Node, zLeft: Node?, zRight: Node?, zParent: Node, zIsLeft: bool, ghost c: Ctx,
      ghost t: Tree)
      returns (info: RebalanceInfo)
    requires T.Valid() && Zip(T.cells, h, c, t) && t.Bin? && z == t.n && (t.l.Leaf? || t.r.Leaf?)
    requires Ends(T.cells, h, InOrder(Plug(c, t)))
    requires zLeft == Root(t.l) && zRight == Root(t.r) && zParent == Parent(c, h)
    requires (c.InL? ==> zIsLeft) && (c.InR? ==> !zIsLeft)
    modifies T, T.cells.Keys
    ensures T.Valid() && T.turns == old(T.turns) && Zip(T.cells, h, c, ErasedSub(t)) && Ends(T.cells, h, Without(c, t))
    ensures OnlyChanged(old(T.cells), T.cells, Foot(h, c, t))
    ensures z in T.cells && T.cells[z] == old(T.cells)[z] && T.cells[h].red == old(T.cells)[h].red
    ensures info == RebalanceInfo(Root(ErasedSub(t)), zParent, z)
  {
    var x := if zLeft == null then zRight else zLeft;
    EraseOneCells(T.cells, h, c, t);
    SpliceOut(T, h, x, zParent, zIsLeft, c);
    FixEnds(T, h, z, zLeft, zRight, zParent, c, t);
    info := RebalanceInfo(x, zParent, z);
  }

  lemma EraseOneCells(m: Cells, h: Node, c: Ctx, t: Tree)
    requires Zip(m, h, c, t) && t.Bin? && (t.l.Leaf? || t.r.Leaf?)
    ensures Parent(c, h) in m && (ErasedSub(t).Bin? ==> ErasedSub(t).n in m)
    ensures var m' := Spliced(m, h, c, Root(ErasedSub(t)));
      && Zip(m', h, c, ErasedSub(t)) && Reshaped(m, m', h, Foot(h, c, t)) && m'[h].red == m[h].red
      && t.n in m && t.n in m' && m'[t.n] == m[t.n] && t.n != h && h in Foot(h, c, t)
  {
    var x := Root(ErasedSub(t));
    SplicedOut(m, h, c, t.n, t.red, t.l, t.r, ErasedSub(t));
    SplicedChanges(m, h, c, x);
    assert x != null ==> x in Nodes(ErasedSub(t)) && x in Nodes(t) && x != t.n;
  }

  lemma SplicedChanges(m: Cells, h: Node, c: Ctx, x: Node?)
    requires Parent(c, h) in m && (x != null ==> x in m) && h in m && h != x && h !in CNodes(c)
    ensures Reshaped(m, Spliced(m, h, c, x), h, {Parent(c, h)} + Some(x))
  {
  }

  /** Unlinks `z`. The colours stay with the nodes. */
  method Erase(T: Traits, h: Node, z: Node, ghost c: Ctx, ghost t: Tree) returns (info: RebalanceInfo)
    requires T.Valid() && Zip(T.cells, h, c, t) && t.Bin? && z == t.n && Ends(T.cells, h, InOrder(Plug(c, t)))
    modifies T, T.cells.Keys
    ensures T.Valid() && T.turns == old(T.turns) && Zip(T.cells, h, ErasedCtx(c, t), ErasedSub(t))
      && Ends(T.cells, h, Without(c, t))
    ensures info.x == Root(ErasedSub(t)) && info.xParent == Parent(ErasedCtx(c, t), h)
    ensures info.y == if t.l.Leaf? || t.r.Leaf? then z else LeftEnd(t.r).n
    ensures OnlyChanged(old(T.cells), T.cells, Foot(h, c, t))
    ensures z in T.cells && T.cells[z] == old(T.cells)[z] && T.cells[h].red == old(T.cells)[h].red
  {
    var zLeft, zRight, zParent := z.left, z.right, z.parent;
    AroundSide(T.cells, h, c, z);
    var zIsLeft := zParent.left == z;
    if zLeft != null && zRight != null {
      ErasedEnds(h, c, t);
      info := EraseTwo(T, h, z, zLeft, zRight, zParent, zIsLeft, c, t);
    } else {
      info := EraseOne(T, h, z, zLeft, zRight, zParent, zIsLeft, c, t);
    }
  }
}
