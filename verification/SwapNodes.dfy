/** Exchanging the places of two nodes (bstree_algorithms.hpp, rbtree_algorithms.hpp). */
module SwapNodes {
  import opened NodeTraits

  /** `x` with the two nodes exchanged. */
  ghost function Tau(x: Node, a: Node, b: Node): Node {
    if x == a then b else if x == b then a else x
  }

  ghost function TauLink(x: Node?, a: Node, b: Node): Node? {
    if x == null then null else Tau(x, a, b)
  }

  ghost function TauCell(c: Cell, a: Node, b: Node): Cell {
    Cell(TauLink(c.parent, a, b), TauLink(c.left, a, b), TauLink(c.right, a, b), c.red)
  }

  /** The header `h`, with links to `a` redirected to `b`. */
  ghost function HeaderRedirected(m: Cells, h: Node, a: Node, b: Node): Cells
    requires h in m
  {
    var m1: Cells := if a == m[h].left then m[h := m[h].(left := b)] else m;
    var m2: Cells := if a == m1[h].right then m1[h := m1[h].(right := b)] else m1;
    if a == m2[h].parent then m2[h := m2[h].(parent := b)] else m2
  }

  method RedirectHeader(T: Traits, h: Node, a: Node, b: Node)
    requires T.Valid() && h in T.cells
    modifies T, h
    ensures T.Valid() && T.cells == HeaderRedirected(old(T.cells), h, a, b)
  {
    if a == h.left {
      T.SetLeft(h, b);
    }
    if a == h.right {
      T.SetRight(h, b);
    }
    if a == h.parent {
      T.SetParent(h, b);
    }
  }

  /** The header `h`, with the two nodes exchanged in its links. */
  ghost function HeaderSwapped(m: Cells, h: Node, a: Node, b: Node): Cells
    requires h in m
  {
    var m1: Cells :=
      if a == m[h].left then m[h := m[h].(left := b)] else if b == m[h].left then m[h := m[h].(left := a)] else m;
    var m2: Cells :=
      if a == m1[h].right then m1[h := m1[h].(right := b)] else if b == m1[h].right then m1[h := m1[h].(right := a)]
        else m1;
    if a == m2[h].parent then m2[h := m2[h].(parent := b)] else if b == m2[h].parent then m2[h := m2[h].(parent := a)]
      else m2
  }

  method SwapInHeader(T: Traits, h: Node, a: Node, b: Node)
    requires T.Valid() && h in T.cells
    modifies T, h
    ensures T.Valid() && T.cells == HeaderSwapped(old(T.cells), h, a, b)
  {
    if a == h.left {
      T.SetLeft(h, b);
    } else if b == h.left {
      T.SetLeft(h, a);
    }
    if a == h.right {
      T.SetRight(h, b);
    } else if b == h.right {
      T.SetRight(h, a);
    }
    if a == h.parent {
      T.SetParent(h, b);
    } else if b == h.parent {
      T.SetParent(h, a);
    }
  }

  lemma HeaderCells(m: Cells, h: Node, a: Node, b: Node)
    requires h in m && a != b
    ensures HeaderSwapped(m, h, a, b) == m[h := TauCell(m[h], a, b)]
    ensures m[h].left != b && m[h].right != b && m[h].parent != b ==>
      HeaderRedirected(m, h, a, b) == m[h := TauCell(m[h], a, b)]
  {
  }

  /** If one of the nodes is the parent of the other, each links to itself instead. */
  ghost function Untied(m: Cells, a: Node, b: Node): Cells
    requires a in m && b in m && a != b
  {
    if m[b].parent == a then
      var m1: Cells := m[b := m[b].(parent := b)];
      if m1[a].right == b then m1[a := m1[a].(right := a)] else m1[a := m1[a].(left := a)]
    else if m[a].parent == b then
      var m1: Cells := m[a := m[a].(parent := a)];
      if m1[b].right == a then m1[b := m1[b].(right := b)] else m1[b := m1[b].(left := b)]
    else m
  }

  method Untie(T: Traits, a: Node, b: Node)
    requires T.Valid() && a in T.cells && b in T.cells && a != b
    modifies T, T.cells.Keys
    ensures T.Valid() && T.cells == Untied(old(T.cells), a, b)
  {
    if a == b.parent {
      T.SetParent(b, b);
      if b == a.right {
        T.SetRight(a, a);
      } else {
        T.SetLeft(a, a);
      }
    } else if b == a.parent {
      T.SetParent(a, a);
      if a == b.right {
        T.SetRight(b, b);
      } else {
        T.SetLeft(b, b);
      }
    }
  }

  /** The links of the two nodes exchanged, one kind after the other. */
  ghost function Exchanged(m: Cells, a: Node, b: Node): Cells
    requires a in m && b in m
  {
    var m1: Cells := m[a := m[a].(left := m[b].left)];
    var m2: Cells := m1[b := m1[b].(left := m[a].left)];
    var m3: Cells := m2[a := m2[a].(right := m2[b].right)];
    var m4: Cells := m3[b := m3[b].(right := m2[a].right)];
    var m5: Cells := m4[a := m4[a].(parent := m4[b].parent)];
    m5[b := m5[b].(parent := m4[a].parent)]
  }

  method Exchange(T: Traits, a: Node, b: Node)
    requires T.Valid() && a in T.cells && b in T.cells
    modifies T, T.cells.Keys
    ensures T.Valid() && T.cells == Exchanged(old(T.cells), a, b)
  {
    var temp := a.left;
    T.SetLeft(a, b.left);
    T.SetLeft(b, temp);
    temp := a.right;
    T.SetRight(a, b.right);
    T.SetRight(b, temp);
    temp := a.parent;
    T.SetParent(a, b.parent);
    T.SetParent(b, temp);
  }

  lemma ExchangedCells(m: Cells, a: Node, b: Node)
    requires a in m && b in m && a != b
    ensures OnlyChanged(m, Exchanged(m, a, b), {a, b})
    ensures Exchanged(m, a, b)[a] == m[b].(red := m[a].red) && Exchanged(m, a, b)[b] == m[a].(red := m[b].red)
  {
  }

  /** What `x` stores after `n` has taken the place of `other`: the children and the parent of `n` know it. */
  ghost function ChildAdjusted(m: Cells, n: Node, x: Node): Cell
    requires n in m && x in m
  {
    m[x].(parent := if x == m[n].left || x == m[n].right then n else m[x].parent)
  }

  ghost function ParentAdjusted(c: Cell, other: Node, n: Node): Cell {
    c.(left := if c.left == other then n else c.left, right := if c.right == other then n else c.right)
  }

  ghost function Adjusted(m: Cells, n: Node, other: Node, header: Node, x: Node): Cell
    requires n in m && x in m
  {
    if x == m[n].parent && x != header then ParentAdjusted(ChildAdjusted(m, n, x), other, n) else ChildAdjusted(m, n, x)
  }

  ghost predicate LinksIn(m: Cells, n: Node) {
    && n in m && (m[n].left != null ==> m[n].left in m) && (m[n].right != null ==> m[n].right in m)
    && (m[n].parent != null ==> m[n].parent in m)
    && m[n].left != n && m[n].right != n && m[n].parent != n
  }

  method AdjustChildren(T: Traits, n: Node)
    requires T.Valid() && LinksIn(T.cells, n)
    modifies T, T.cells.Keys
    ensures T.Valid() && T.cells.Keys == old(T.cells).Keys
    ensures forall x <- T.cells :: T.cells[x] == ChildAdjusted(old(T.cells), n, x)
  {
    var temp := n.left;
    if temp != null {
      T.SetParent(temp, n);
    }
    temp := n.right;
    if temp != null {
      T.SetParent(temp, n);
    }
  }

  method AdjustParent(T: Traits, temp: Node, n: Node, other: Node)
    requires T.Valid() && temp in T.cells
    modifies T, temp
    ensures T.Valid() && OnlyChanged(old(T.cells), T.cells, {temp})
      && T.cells[temp] == ParentAdjusted(old(T.cells)[temp], other, n)
  {
    if temp.left == other {
      T.SetLeft(temp, n);
    }
    if temp.right == other {
      T.SetRight(temp, n);
    }
  }

  /** `f` is `e` with the neighbours of `n` adjusted. */
  ghost predicate IsAdjusted(e: Cells, f: Cells, n: Node, other: Node, header: Node)
    requires n in e
  {
    f.Keys == e.Keys && forall x <- e :: f[x] == Adjusted(e, n, other, header, x)
  }

  method AdjustAdjacent(T: Traits, n: Node, other: Node, header: Node)
    requires T.Valid() && LinksIn(T.cells, n)
    modifies T, T.cells.Keys
    ensures T.Valid() && IsAdjusted(old(T.cells), T.cells, n, other, header)
  {
    AdjustChildren(T, n);
    var temp := n.parent;
    if temp != null && temp != header {
      AdjustParent(T, temp, n, other);
    }
  }

  /** `x` and `a` agree on whether one is the parent of the other. */
  ghost predicate Agree(m: Cells, x: Node, a: Node)
    requires x in m && a in m
  {
    && (m[x].parent == a <==> m[a].left == x || m[a].right == x)
    && (m[a].parent == x <==> m[x].left == a || m[x].right == a)
    && !(m[x].parent == a && m[a].parent == x)
  }

  /** `a` has distinct neighbours, and is none of them. */
  ghost predicate Proper(m: Cells, a: Node)
    requires a in m
  {
    && m[a].left != a && m[a].right != a && m[a].parent != a
    && (m[a].left != null ==> m[a].left != m[a].right)
  }

  /** After untying and exchanging, each of the two nodes stores what the other did, with the two exchanged. */
  lemma Exchanging(m: Cells, a: Node, b: Node)
    requires a in m && b in m && a != b && Agree(m, a, b) && Agree(m, b, a) && Proper(m, a) && Proper(m, b)
    ensures var e := Exchanged(Untied(m, a, b), a, b);
      && OnlyChanged(m, e, {a, b})
      && e[a] == TauCell(m[b], a, b).(red := m[a].red) && e[b] == TauCell(m[a], a, b).(red := m[b].red)
  {
    ExchangedCells(Untied(m, a, b), a, b);
  }

  /** `x` agrees with both nodes, and is not the parent of both. */
  ghost predicate Beside(m: Cells, x: Node, a: Node, b: Node)
    requires x in m && a in m && b in m
  {
    Agree(m, x, a) && Agree(m, x, b) && !(m[a].parent == x && m[b].parent == x)
  }

  lemma AdjustedParentTwice(m: Cells, e: Cells, f: Cells, a: Node, b: Node, h1: Node, h2: Node, x: Node)
    requires a in m && b in m && x in m && a != b && x != a && x != b && x != h1 && x != h2
    requires e.Keys == m.Keys && f.Keys == m.Keys && Agree(m, x, a) && Agree(m, x, b)
    requires e[x] == m[x] && e[a] == TauCell(m[b], a, b).(red := m[a].red)
      && e[b] == TauCell(m[a], a, b).(red := m[b].red)
    requires f[b] == e[b] && f[x] == Adjusted(e, a, b, h2, x)
    ensures Adjusted(f, b, a, h1, x).parent == TauLink(m[x].parent, a, b)
  {
  }

  lemma AdjustedLeftTwice(m: Cells, e: Cells, f: Cells, a: Node, b: Node, h1: Node, h2: Node, x: Node)
    requires a in m && b in m && x in m && a != b && x != a && x != b && x != h1 && x != h2
    requires e.Keys == m.Keys && f.Keys == m.Keys && Beside(m, x, a, b)
    requires e[x] == m[x] && e[a] == TauCell(m[b], a, b).(red := m[a].red)
      && e[b] == TauCell(m[a], a, b).(red := m[b].red)
    requires f[b] == e[b] && f[x] == Adjusted(e, a, b, h2, x)
    ensures Adjusted(f, b, a, h1, x).left == TauLink(m[x].left, a, b)
  {
  }

  lemma AdjustedRightTwice(m: Cells, e: Cells, f: Cells, a: Node, b: Node, h1: Node, h2: Node, x: Node)
    requires a in m && b in m && x in m && a != b && x != a && x != b && x != h1 && x != h2
    requires e.Keys == m.Keys && f.Keys == m.Keys && Beside(m, x, a, b)
    requires e[x] == m[x] && e[a] == TauCell(m[b], a, b).(red := m[a].red)
      && e[b] == TauCell(m[a], a, b).(red := m[b].red)
    requires f[b] == e[b] && f[x] == Adjusted(e, a, b, h2, x)
    ensures Adjusted(f, b, a, h1, x).right == TauLink(m[x].right, a, b)
  {
  }

  /** What the two adjustments make of any other node. */
  lemma AdjustedTwice(m: Cells, e: Cells, f: Cells, a: Node, b: Node, h1: Node, h2: Node, x: Node)
    requires a in m && b in m && x in m && a != b && x != a && x != b && x != h1 && x != h2
    requires e.Keys == m.Keys && f.Keys == m.Keys && Proper(m, a) && Proper(m, b) && Agree(m, a, b)
    requires e[x] == m[x] && e[a] == TauCell(m[b], a, b).(red := m[a].red)
      && e[b] == TauCell(m[a], a, b).(red := m[b].red)
    requires f[b] == e[b] && f[x] == Adjusted(e, a, b, h2, x)
    requires Beside(m, x, a, b)
    ensures Adjusted(f, b, a, h1, x) == TauCell(m[x], a, b)
  {
    AdjustedParentTwice(m, e, f, a, b, h1, h2, x);
    AdjustedLeftTwice(m, e, f, a, b, h1, h2, x);
    AdjustedRightTwice(m, e, f, a, b, h1, h2, x);
  }

  /** The places of `a`, below the header `h`, as the links tell: `d` are the nodes of the trees concerned. */
  ghost predicate Placed(m: Cells, a: Node, h: Node, d: set<Node>) {
    && a in d && h !in d && h in m && d <= m.Keys && Proper(m, a)
    && (m[a].left != null ==> m[a].left in d) && (m[a].right != null ==> m[a].right in d)
    && m[a].parent != null && m[a].parent in d + {h}
    && forall x <- d :: x != a ==> Agree(m, x, a)
  }

  /** Two nodes of one tree, or of two trees that do not know of each other. */
  ghost predicate Scene(m: Cells, a: Node, h1: Node, b: Node, h2: Node, d: set<Node>) {
    && a != b && Placed(m, a, h1, d) && Placed(m, b, h2, d) && (m[a].parent == m[b].parent ==> m[a].parent in d)
    && (h1 != h2 ==>
        && m[a].parent !in {b, h2} && m[b].parent !in {a, h1}
        && m[h1].left != b && m[h1].right != b && m[h1].parent != b && m[h2].left != a && m[h2].right != a
          && m[h2].parent != a)
  }

  ghost function HeadersSwapped(m: Cells, a: Node, h1: Node, b: Node, h2: Node): Cells
    requires h1 in m && h2 in m
  {
    m[h1 := TauCell(m[h1], a, b)][h2 := TauCell(m[h2], a, b)]
  }

  /** The headers, and then the links of the two nodes. */
  ghost predicate HalfSwapped(m: Cells, e: Cells, a: Node, h1: Node, b: Node, h2: Node, d: set<Node>)
    requires Scene(m, a, h1, b, h2, d)
  {
    && OnlyChanged(HeadersSwapped(m, a, h1, b, h2), e, {a, b})
    && e[a] == TauCell(m[b], a, b).(red := m[a].red) && e[b] == TauCell(m[a], a, b).(red := m[b].red)
  }

  lemma TauReversed(c: Cell, a: Node, b: Node)
    requires a != b
    ensures TauCell(c, b, a) == TauCell(c, a, b)
  {
  }

  /** With two headers, only links of their own trees are met. */
  lemma TwoHeaders(m: Cells, a: Node, h1: Node, b: Node, h2: Node, d: set<Node>)
    requires Scene(m, a, h1, b, h2, d) && h1 != h2
    ensures HeaderRedirected(HeaderRedirected(m, h1, a, b), h2, b, a) == HeadersSwapped(m, a, h1, b, h2)
    ensures Untied(HeadersSwapped(m, a, h1, b, h2), a, b) == HeadersSwapped(m, a, h1, b, h2)
  {
    HeaderCells(m, h1, a, b);
    HeaderCells(m[h1 := TauCell(m[h1], a, b)], h2, b, a);
    TauReversed(m[h2], a, b);
  }

  lemma OneHeader(m: Cells, a: Node, h: Node, b: Node)
    requires h in m && a != b
    ensures HeaderSwapped(m, h, a, b) == HeadersSwapped(m, a, h, b, h)
  {
    HeaderCells(m, h, a, b);
    Overwritten(m, h, TauCell(m[h], a, b), TauCell(m[h], a, b));
  }

  lemma HalfSwap(m: Cells, a: Node, h1: Node, b: Node, h2: Node, d: set<Node>)
    requires Scene(m, a, h1, b, h2, d)
    ensures HalfSwapped(m, Exchanged(Untied(HeadersSwapped(m, a, h1, b, h2), a, b), a, b), a, h1, b, h2, d)
  {
    Exchanging(HeadersSwapped(m, a, h1, b, h2), a, b);
  }

  lemma UntiedKeys(m: Cells, a: Node, h1: Node, b: Node, h2: Node)
    requires a in m && b in m && h1 in m && h2 in m && a != b
    ensures Untied(HeadersSwapped(m, a, h1, b, h2), a, b).Keys == m.Keys
  {
  }

  method SwapHeaders(T: Traits, a: Node, h1: Node, b: Node, h2: Node, ghost d: set<Node>)
    requires T.Valid() && Scene(T.cells, a, h1, b, h2, d)
    modifies T, T.cells.Keys
    ensures T.Valid() && T.cells.Keys == old(T.cells).Keys
    ensures T.cells == Untied(HeadersSwapped(old(T.cells), a, h1, b, h2), a, b)
  {
    ghost var m := T.cells;
    UntiedKeys(m, a, h1, b, h2);
    if h1 != h2 {
      TwoHeaders(m, a, h1, b, h2, d);
      RedirectHeader(T, h1, a, b);
      RedirectHeader(T, h2, b, a);
    } else {
      OneHeader(m, a, h1, b);
      SwapInHeader(T, h1, a, b);
      Untie(T, a, b);
    }
  }

  method SwapHeadersAndLinks(T: Traits, a: Node, h1: Node, b: Node, h2: Node, ghost d: set<Node>)
    requires T.Valid() && Scene(T.cells, a, h1, b, h2, d)
    modifies T, T.cells.Keys
    ensures T.Valid() && HalfSwapped(old(T.cells), T.cells, a, h1, b, h2, d)
  {
    HalfSwap(T.cells, a, h1, b, h2, d);
    SwapHeaders(T, a, h1, b, h2, d);
    Exchange(T, a, b);
  }

  lemma FirstAdjusted(m: Cells, e: Cells, a: Node, h1: Node, b: Node, h2: Node, d: set<Node>)
    requires Scene(m, a, h1, b, h2, d) && HalfSwapped(m, e, a, h1, b, h2, d)
    ensures e.Keys == m.Keys && LinksIn(e, a) && LinksIn(e, b)
    ensures Adjusted(e, a, b, h2, a) == e[a] && Adjusted(e, a, b, h2, b) == e[b]
    ensures Adjusted(e, b, a, h1, a) == e[a] && Adjusted(e, b, a, h1, b) == e[b]
  {
  }

  /** The two nodes and the headers after both adjustments. */
  lemma SwappedFour(m: Cells, e: Cells, f: Cells, g: Cells, a: Node, h1: Node, b: Node, h2: Node, d: set<Node>)
    requires Scene(m, a, h1, b, h2, d) && HalfSwapped(m, e, a, h1, b, h2, d)
    requires a in e && IsAdjusted(e, f, a, b, h2) && b in f && IsAdjusted(f, g, b, a, h1)
    ensures LinksIn(f, b) && f[b] == e[b] && f[a] == e[a] && g[a] == e[a] && g[b] == e[b]
    ensures g[h1] == TauCell(m[h1], a, b) && g[h2] == TauCell(m[h2], a, b)
  {
    FirstAdjusted(m, e, a, h1, b, h2, d);
  }

  /** A node outside of the trees. */
  lemma SwappedOutside(m: Cells, e: Cells, f: Cells, g: Cells, a: Node, h1: Node, b: Node, h2: Node, d: set<Node>,
      x: Node)
    requires Scene(m, a, h1, b, h2, d) && HalfSwapped(m, e, a, h1, b, h2, d)
    requires a in e && IsAdjusted(e, f, a, b, h2) && b in f && IsAdjusted(f, g, b, a, h1)
    requires x in m && x !in d && x != h1 && x != h2
    ensures g[x] == m[x]
  {
    FirstAdjusted(m, e, a, h1, b, h2, d);
  }

  lemma SwappedOther(m: Cells, e: Cells, f: Cells, g: Cells, a: Node, h1: Node, b: Node, h2: Node, d: set<Node>,
      x: Node)
    requires Scene(m, a, h1, b, h2, d) && HalfSwapped(m, e, a, h1, b, h2, d)
    requires a in e && IsAdjusted(e, f, a, b, h2) && b in f && IsAdjusted(f, g, b, a, h1)
    requires x in d && x != a && x != b && !(m[a].parent == x && m[b].parent == x)
    ensures g[x] == TauCell(m[x], a, b)
  {
    FirstAdjusted(m, e, a, h1, b, h2, d);
    AdjustedTwice(m, e, f, a, b, h1, h2, x);
  }

  /** The parent of both ends up with one and the same child on both sides. */
  lemma SwappedSiblings(m: Cells, e: Cells, f: Cells, g: Cells, a: Node, h1: Node, b: Node, h2: Node, d: set<Node>,
      x: Node)
    requires Scene(m, a, h1, b, h2, d) && HalfSwapped(m, e, a, h1, b, h2, d)
    requires a in e && IsAdjusted(e, f, a, b, h2) && b in f && IsAdjusted(f, g, b, a, h1)
    requires x in d && m[a].parent == x && m[b].parent == x
    ensures g[x] == m[x].(left := b, right := b)
  {
    FirstAdjusted(m, e, a, h1, b, h2, d);
  }

  /** In `g` every node `x` stores what the node whose place it takes stored in `m`, with the two nodes
      exchanged; colours stay with their nodes. */
  ghost predicate Conjugated(m: Cells, g: Cells, a: Node, b: Node, d: set<Node>) {
    a in m && b in m && g.Keys == m.Keys && forall x <- m :: g[x] == if x in d
      then TauCell(m[Tau(x, a, b)], a, b).(red := m[x].red) else m[x]
  }

  /** For siblings: in `g` their parent has the one of them on both sides, and all other nodes are as they should be;
      `a` has the colour `ka` and `b` the colour `kb`. */
  ghost predicate Doubled(m: Cells, g: Cells, a: Node, b: Node, d: set<Node>, ka: bool, kb: bool) {
    && a in m && b in m && m[a].parent != null && g.Keys == m.Keys
    && var p := m[a].parent;
      && p in d && p in m && p != a && p != b && g[p] == m[p].(left := b, right := b)
      && forall x <- m :: x != p ==> g[x] == if x in d
        then TauCell(m[Tau(x, a, b)], a, b).(red := if x == a then ka else if x == b then kb else m[x].red) else m[x]
  }

  /** The node `x` stores what it should. */
  ghost predicate InPlace(m: Cells, g: Cells, a: Node, b: Node, d: set<Node>, x: Node) {
    && a in m && b in m && x in m && x in g
    && g[x] == if x in d then TauCell(m[Tau(x, a, b)], a, b).(red := m[x].red) else m[x]
  }

  /** Every node but the common parent, if there is one, is as it should be. */
  lemma SwappedNode(m: Cells, e: Cells, f: Cells, g: Cells, a: Node, h1: Node, b: Node, h2: Node, d: set<Node>, x: Node)
    requires Scene(m, a, h1, b, h2, d) && HalfSwapped(m, e, a, h1, b, h2, d)
    requires a in e && IsAdjusted(e, f, a, b, h2) && b in f && IsAdjusted(f, g, b, a, h1)
    requires x in m && (m[a].parent == x ==> m[b].parent != x)
    ensures InPlace(m, g, a, b, d + {h1, h2}, x)
  {
    if x in {a, b, h1, h2} {
      SwappedFour(m, e, f, g, a, h1, b, h2, d);
    } else if x in d {
      SwappedOther(m, e, f, g, a, h1, b, h2, d, x);
    } else {
      SwappedOutside(m, e, f, g, a, h1, b, h2, d, x);
    }
  }

  lemma SwappedAll(m: Cells, e: Cells, f: Cells, g: Cells, a: Node, h1: Node, b: Node, h2: Node, d: set<Node>)
    requires Scene(m, a, h1, b, h2, d) && HalfSwapped(m, e, a, h1, b, h2, d)
    requires a in e && IsAdjusted(e, f, a, b, h2) && b in f && IsAdjusted(f, g, b, a, h1)
    ensures m[a].parent != m[b].parent ==> Conjugated(m, g, a, b, d + {h1, h2})
    ensures m[a].parent == m[b].parent ==> Doubled(m, g, a, b, d + {h1, h2}, m[a].red, m[b].red)
  {
    SwappedKeys(m, e, f, g, a, h1, b, h2, d);
    forall x <- m | m[a].parent == x ==> m[b].parent != x ensures InPlace(m, g, a, b, d + {h1, h2}, x) {
      SwappedNode(m, e, f, g, a, h1, b, h2, d, x);
    }
    if m[a].parent == m[b].parent {
      SwappedSiblings(m, e, f, g, a, h1, b, h2, d, m[a].parent);
      AllDoubled(m, g, a, b, d + {h1, h2});
    } else {
      AllConjugated(m, g, a, b, d + {h1, h2});
    }
  }

  lemma SwappedKeys(m: Cells, e: Cells, f: Cells, g: Cells, a: Node, h1: Node, b: Node, h2: Node, d: set<Node>)
    requires Scene(m, a, h1, b, h2, d) && HalfSwapped(m, e, a, h1, b, h2, d)
    requires a in e && IsAdjusted(e, f, a, b, h2) && b in f && IsAdjusted(f, g, b, a, h1)
    ensures g.Keys == m.Keys && a in m && b in m
    ensures m[a].parent == m[b].parent ==>
      m[a].parent != null && m[a].parent in d && m[a].parent in m && m[a].parent != a && m[a].parent != b
  {
  }

  lemma AllConjugated(m: Cells, g: Cells, a: Node, b: Node, d: set<Node>)
    requires g.Keys == m.Keys && a in m && b in m && m[a].parent != m[b].parent
    requires forall x <- m | m[a].parent == x ==> m[b].parent != x :: InPlace(m, g, a, b, d, x)
    ensures Conjugated(m, g, a, b, d)
  {
    forall x <- m ensures InPlace(m, g, a, b, d, x) {
    }
  }

  lemma AllDoubled(m: Cells, g: Cells, a: Node, b: Node, d: set<Node>)
    requires g.Keys == m.Keys && a in m && b in m && m[a].parent == m[b].parent && m[a].parent != null
    requires forall x <- m | m[a].parent == x ==> m[b].parent != x :: InPlace(m, g, a, b, d, x)
    requires var p := m[a].parent; p in d && p in m && p != a && p != b && g[p] == m[p].(left := b, right := b)
    ensures Doubled(m, g, a, b, d, m[a].red, m[b].red)
  {
    forall x <- m | x != m[a].parent ensures InPlace(m, g, a, b, d, x) {
    }
  }

  /** Exchanges the places of `node1`, below `header1`, and `node2`, below `header2`. */
  method SwapPlaces(T: Traits, node1: Node, header1: Node, node2: Node, header2: Node, ghost d: set<Node>)
    requires T.Valid() && Scene(T.cells, node1, header1, node2, header2, d)
    modifies T, T.cells.Keys
    ensures T.Valid() && T.cells.Keys == old(T.cells).Keys
    ensures old(node1.parent != node2.parent) ==>
      Conjugated(old(T.cells), T.cells, node1, node2, d + {header1, header2})
    ensures old(node1.parent == node2.parent) ==>
      Doubled(old(T.cells), T.cells, node1, node2, d + {header1, header2}, old(node1.red), old(node2.red))
  {
    ghost var m := T.cells;
    SwapHeadersAndLinks(T, node1, header1, node2, header2, d);
    ghost var e := T.cells;
    FirstAdjusted(m, e, node1, header1, node2, header2, d);
    AdjustAdjacent(T, node1, node2, header2);
    ghost var f := T.cells;
    assert LinksIn(f, node2);
    AdjustAdjacent(T, node2, node1, header1);
    SwappedFour(m, e, f, T.cells, node1, header1, node2, header2, d);
    SwappedAll(m, e, f, T.cells, node1, header1, node2, header2, d);
  }
}
