/** Searching a sorted binary tree (bstree_algorithms.hpp). */
module Search {
  import opened NodeTraits
  import opened Trees
  import opened TreeGraph
  import opened TreeBase
  import opened Order

  /** The element at position `i`, or the header at the end. */
  ghost function At(s: seq<Node>, i: nat, h: Node): Node {
    if i < |s| then s[i] else h
  }

  /** A search for the bound of `p` has narrowed the tree down to `t`; `y` comes next after it. */
  ghost predicate Narrowed(m: Cells, h: Node, c: Ctx, t: Tree, y: Node, p: int -> bool) {
    && Zip(m, h, c, t) && y == First(Post(c), h)
    && All(Pre(c), p) && None(Post(c), p) && Partitioned(InOrder(t), p)
  }

  lemma Descend(m: Cells, h: Node, c: Ctx, t: Tree, y: Node, p: int -> bool)
    requires Narrowed(m, h, c, t, y, p) && t.Bin?
    ensures p(t.n.key) ==> Narrowed(m, h, InR(c, t.l, t.n, t.red), t.r, y, p)
    ensures !p(t.n.key) ==> Narrowed(m, h, InL(c, t.n, t.red, t.r), t.l, t.n, p)
  {
    PartitionedParts(InOrder(t.l), t.n, InOrder(t.r), p);
    if p(t.n.key) {
      ZipUp(m, h, InR(c, t.l, t.n, t.red), t.r);
      AllConcat(Pre(c), InOrder(t.l), p);
      AllConcat(Pre(c) + InOrder(t.l), [t.n], p);
    } else {
      ZipUp(m, h, InL(c, t.n, t.red, t.r), t.l);
      AllConcat([t.n], InOrder(t.r), p);
      AllConcat([t.n] + InOrder(t.r), Post(c), p);
    }
  }

  lemma Arrived(m: Cells, h: Node, c: Ctx, y: Node, p: int -> bool)
    requires Narrowed(m, h, c, Leaf, y, p)
    ensures var s := InOrder(Plug(c, Leaf)); Bound(s, p) == |Pre(c)| && y == At(s, Bound(s, p), h)
  {
    PlugInOrder(c, Leaf);
    assert Pre(c) + [] + Post(c) == Pre(c) + Post(c);
    BoundAt(Pre(c), Post(c), p);
  }

  method LowerBoundLoop(T: Traits, x0: Node?, y0: Node, key: int, comp: Comp, ghost h: Node, ghost c0: Ctx,
      ghost t0: Tree)
      returns (y: Node, ghost comparisons: nat, ghost c: Ctx)
    requires T.Valid() && x0 == Root(t0) && Narrowed(T.cells, h, c0, t0, y0, BeforeLower(comp, key))
    ensures y == At(InOrder(Plug(c0, t0)), LowerBound(comp, InOrder(Plug(c0, t0)), key), h)
    ensures Plug(c, Leaf) == Plug(c0, t0) && |Pre(c)| == LowerBound(comp, InOrder(Plug(c0, t0)), key)
    ensures comparisons == Depth(c) - Depth(c0) <= Height(t0)
  {
    var x := x0;
    y := y0;
    comparisons := 0;
    c := c0;
    ghost var t, p := t0, BeforeLower(comp, key);
    while x != null
      invariant x == Root(t) && Narrowed(T.cells, h, c, t, y, p) && Plug(c, t) == Plug(c0, t0)
      invariant comparisons == Depth(c) - Depth(c0) && comparisons + Height(t) <= Height(t0)
      decreases t
    {
      Descend(T.cells, h, c, t, y, p);
      assert Linked(T.cells, t, Parent(c, h));
      comparisons := comparisons + 1;
      if comp(x.key, key) {
        c, t := InR(c, t.l, t.n, t.red), t.r;
        x := x.right;
      } else {
        c, t := InL(c, t.n, t.red, t.r), t.l;
        y := x;
        x := x.left;
      }
    }
    Arrived(T.cells, h, c, y, p);
  }

  method UpperBoundLoop(T: Traits, x0: Node?, y0: Node, key: int, comp: Comp, ghost h: Node, ghost c0: Ctx,
      ghost t0: Tree)
      returns (y: Node, ghost comparisons: nat, ghost c: Ctx)
    requires T.Valid() && x0 == Root(t0) && Narrowed(T.cells, h, c0, t0, y0, BeforeUpper(comp, key))
    ensures y == At(InOrder(Plug(c0, t0)), UpperBound(comp, InOrder(Plug(c0, t0)), key), h)
    ensures Plug(c, Leaf) == Plug(c0, t0) && |Pre(c)| == UpperBound(comp, InOrder(Plug(c0, t0)), key)
    ensures comparisons == Depth(c) - Depth(c0) <= Height(t0)
  {
    var x := x0;
    y := y0;
    comparisons := 0;
    c := c0;
    ghost var t, p := t0, BeforeUpper(comp, key);
    while x != null
      invariant x == Root(t) && Narrowed(T.cells, h, c, t, y, p) && Plug(c, t) == Plug(c0, t0)
      invariant comparisons == Depth(c) - Depth(c0) && comparisons + Height(t) <= Height(t0)
      decreases t
    {
      Descend(T.cells, h, c, t, y, p);
      assert Linked(T.cells, t, Parent(c, h));
      comparisons := comparisons + 1;
      if comp(key, x.key) {
        c, t := InL(c, t.n, t.red, t.r), t.l;
        y := x;
        x := x.left;
      } else {
        c, t := InR(c, t.l, t.n, t.red), t.r;
        x := x.right;
      }
    }
    Arrived(T.cells, h, c, y, p);
  }

  /** The search for a bound of the whole tree starts at the root. */
  lemma NarrowedTop(m: Cells, h: Node, t: Tree, comp: Comp, key: int)
    requires Zip(m, h, Top, t) && StrictWeak(comp) && Sorted(comp, InOrder(t))
    ensures Narrowed(m, h, Top, t, h, BeforeLower(comp, key))
    ensures Narrowed(m, h, Top, t, h, BeforeUpper(comp, key))
  {
    SortedPartitioned(comp, InOrder(t), key);
  }

  method FindLowerBound(T: Traits, h: Node, key: int, comp: Comp, ghost t: Tree)
      returns (y: Node, ghost comparisons: nat, ghost c: Ctx)
    requires T.Valid() && Zip(T.cells, h, Top, t) && StrictWeak(comp) && Sorted(comp, InOrder(t))
    ensures y == At(InOrder(t), LowerBound(comp, InOrder(t), key), h)
    ensures Plug(c, Leaf) == t && |Pre(c)| == LowerBound(comp, InOrder(t), key) && comparisons == Depth(c) <= Height(t)
  {
    NarrowedTop(T.cells, h, t, comp, key);
    y, comparisons, c := LowerBoundLoop(T, h.parent, h, key, comp, h, Top, t);
  }

  method FindUpperBound(T: Traits, h: Node, key: int, comp: Comp, ghost t: Tree)
      returns (y: Node, ghost comparisons: nat, ghost c: Ctx)
    requires T.Valid() && Zip(T.cells, h, Top, t) && StrictWeak(comp) && Sorted(comp, InOrder(t))
    ensures y == At(InOrder(t), UpperBound(comp, InOrder(t), key), h)
    ensures Plug(c, Leaf) == t && |Pre(c)| == UpperBound(comp, InOrder(t), key) && comparisons == Depth(c) <= Height(t)
  {
    NarrowedTop(T.cells, h, t, comp, key);
    y, comparisons, c := UpperBoundLoop(T, h.parent, h, key, comp, h, Top, t);
  }

  /** Both searches for both keys have narrowed the tree down to `t`. */
  ghost predicate NarrowedBoth(m: Cells, h: Node, c: Ctx, t: Tree, y: Node, comp: Comp, lower: int, upper: int) {
    && Narrowed(m, h, c, t, y, BeforeLower(comp, lower)) && Narrowed(m, h, c, t, y, BeforeUpper(comp, lower))
    && Narrowed(m, h, c, t, y, BeforeLower(comp, upper)) && Narrowed(m, h, c, t, y, BeforeUpper(comp, upper))
  }

  lemma DescendBoth(m: Cells, h: Node, c: Ctx, t: Tree, y: Node, comp: Comp, lower: int, upper: int)
    requires NarrowedBoth(m, h, c, t, y, comp, lower, upper) && t.Bin? && StrictWeak(comp) && !comp(upper, lower)
    ensures comp(t.n.key, lower) ==>
      comp(t.n.key, upper) && NarrowedBoth(m, h, InR(c, t.l, t.n, t.red), t.r, y, comp, lower, upper)
    ensures comp(upper, t.n.key) ==>
      !comp(t.n.key, lower) && NarrowedBoth(m, h, InL(c, t.n, t.red, t.r), t.l, t.n, comp, lower, upper)
    ensures !comp(t.n.key, lower) ==> Narrowed(m, h, InL(c, t.n, t.red, t.r), t.l, t.n, BeforeLower(comp, lower))
    ensures !comp(upper, t.n.key) ==> Narrowed(m, h, InR(c, t.l, t.n, t.red), t.r, y, BeforeUpper(comp, upper))
  {
    Descend(m, h, c, t, y, BeforeLower(comp, lower));
    Descend(m, h, c, t, y, BeforeUpper(comp, lower));
    Descend(m, h, c, t, y, BeforeLower(comp, upper));
    Descend(m, h, c, t, y, BeforeUpper(comp, upper));
  }

  /** The ends of the range, as the two independent searches find them. */
  ghost predicate RangeEnds(h: Node, s: seq<Node>, comp: Comp, lower: int, upper: int, leftClosed: bool,
      rightClosed: bool, first: Node, second: Node) {
    && first == At(s, if leftClosed then LowerBound(comp, s, lower) else UpperBound(comp, s, lower), h)
    && second == At(s, if rightClosed then UpperBound(comp, s, upper) else LowerBound(comp, s, upper), h)
  }

  /** At the first node inside the range the descent splits. */
  method SplitRange(T: Traits, h: Node, x: Node, y: Node, lower: int, upper: int, comp: Comp, leftClosed: bool,
      rightClosed: bool, ghost c: Ctx, ghost t: Tree)
      returns (first: Node, second: Node)
    requires T.Valid() && t.Bin? && x == t.n && NarrowedBoth(T.cells, h, c, t, y, comp, lower, upper)
    requires StrictWeak(comp) && !comp(upper, lower) && !comp(x.key, lower) && !comp(upper, x.key)
    ensures RangeEnds(h, InOrder(Plug(c, t)), comp, lower, upper, leftClosed, rightClosed, first, second)
  {
    DescendBoth(T.cells, h, c, t, y, comp, lower, upper);
    assert Linked(T.cells, t, Parent(c, h));
    ghost var n, hole;
    if leftClosed {
      first, n, hole := LowerBoundLoop(T, x.left, x, lower, comp, h, InL(c, t.n, t.red, t.r), t.l);
    } else {
      first, n, hole := UpperBoundLoop(T, x, y, lower, comp, h, c, t);
    }
    if rightClosed {
      second, n, hole := UpperBoundLoop(T, x.right, y, upper, comp, h, InR(c, t.l, t.n, t.red), t.r);
    } else {
      second, n, hole := LowerBoundLoop(T, x, y, upper, comp, h, c, t);
    }
  }

  /** If the descent never splits, the range is empty. */
  lemma ArrivedBoth(m: Cells, h: Node, c: Ctx, y: Node, comp: Comp, lower: int, upper: int, leftClosed: bool,
      rightClosed: bool)
    requires NarrowedBoth(m, h, c, Leaf, y, comp, lower, upper)
    ensures RangeEnds(h, InOrder(Plug(c, Leaf)), comp, lower, upper, leftClosed, rightClosed, y, y)
  {
    Arrived(m, h, c, y, BeforeLower(comp, lower));
    Arrived(m, h, c, y, BeforeUpper(comp, lower));
    Arrived(m, h, c, y, BeforeLower(comp, upper));
    Arrived(m, h, c, y, BeforeUpper(comp, upper));
  }

  /** One descent for both ends of a range, split where the range begins to matter. */
  method BoundedRange(T: Traits, h: Node, lower: int, upper: int, comp: Comp, leftClosed: bool, rightClosed: bool,
      ghost t0: Tree)
      returns (first: Node, second: Node)
    requires T.Valid() && Zip(T.cells, h, Top, t0) && StrictWeak(comp) && Sorted(comp, InOrder(t0))
    requires !comp(upper, lower) && (comp(lower, upper) || leftClosed || rightClosed)
    ensures var s := InOrder(t0);
      && first == At(s, if leftClosed then LowerBound(comp, s, lower) else UpperBound(comp, s, lower), h)
      && second == At(s, if rightClosed then UpperBound(comp, s, upper) else LowerBound(comp, s, upper), h)
  {
    var y: Node := h;
    var x := h.parent;
    ghost var c, t := Top, t0;
    NarrowedTop(T.cells, h, t, comp, lower);
    NarrowedTop(T.cells, h, t, comp, upper);
    while x != null
      invariant x == Root(t) && NarrowedBoth(T.cells, h, c, t, y, comp, lower, upper) && Plug(c, t) == t0
      decreases t
    {
      DescendBoth(T.cells, h, c, t, y, comp, lower, upper);
      assert Linked(T.cells, t, Parent(c, h));
      if comp(x.key, lower) {
        assert comp(x.key, upper);
        c, t := InR(c, t.l, t.n, t.red), t.r;
        x := x.right;
      } else if comp(upper, x.key) {
        c, t := InL(c, t.n, t.red, t.r), t.l;
        y := x;
        x := x.left;
      } else {
        assert leftClosed || rightClosed || comp(lower, x.key) || comp(x.key, upper);
        first, second := SplitRange(T, h, x, y, lower, upper, comp, leftClosed, rightClosed, c, t);
        return;
      }
    }
    ArrivedBoth(T.cells, h, c, y, comp, lower, upper, leftClosed, rightClosed);
    first, second := y, y;
  }

  /** The focus on the node at position `i` of a tree. */
  lemma FocusAt(m: Cells, h: Node, t: Tree, i: nat) returns (c: Ctx, s: Tree)
    requires Zip(m, h, Top, t) && i < |InOrder(t)|
    ensures Plug(c, s) == t && s.Bin? && s.n == InOrder(t)[i] && Zip(m, h, c, s) && |Before(c, s)| == i
  {
    var x := InOrder(t)[i];
    InOrderMember(t, i);
    c, s := Focus(t, x);
    ZipPlug(m, h, c, s);
    AroundRoot(c, s);
    assert InOrder(t)[|Before(c, s)|] == x;
  }

  lemma NextAt(c: Ctx, s: Tree, h: Node)
    requires s.Bin?
    ensures First(After(c, s), h) == At(InOrder(Plug(c, s)), |Before(c, s)| + 1, h)
    ensures |Before(c, s)| < |InOrder(Plug(c, s))|
    ensures Last(Before(c, s), h) == if |Before(c, s)| == 0 then h else InOrder(Plug(c, s))[|Before(c, s)| - 1]
  {
    AroundRoot(c, s);
  }

  /** The node after the one at position `i`. */
  method Next(T: Traits, h: Node, node: Node, ghost t: Tree, ghost i: nat) returns (n: Node)
    requires T.Valid() && IsTree(T.cells, h, t) && i < |InOrder(t)| && node == InOrder(t)[i]
    ensures n == At(InOrder(t), i + 1, h)
  {
    ghost var c, s := FocusAt(T.cells, h, t, i);
    NextAt(c, s, h);
    n := NextNode(T, node, h, c, s);
  }

  /** The elements equivalent to a key, or the place where they would be. */
  method EqualRange(T: Traits, h: Node, key: int, comp: Comp, ghost t: Tree) returns (first: Node, second: Node)
    requires T.Valid() && Zip(T.cells, h, Top, t) && StrictWeak(comp) && Sorted(comp, InOrder(t))
    ensures first == At(InOrder(t), LowerBound(comp, InOrder(t), key), h)
    ensures second == At(InOrder(t), UpperBound(comp, InOrder(t), key), h)
  {
    first, second := BoundedRange(T, h, key, key, comp, true, true, t);
  }

  /** The positions between the two bounds of a key are exactly those of the equivalent elements. */
  lemma EqualRangeExact(comp: Comp, s: seq<Node>, key: int)
    requires StrictWeak(comp) && Sorted(comp, s)
    ensures LowerBound(comp, s, key) <= UpperBound(comp, s, key) <= |s|
    ensures forall i :: 0 <= i < |s| ==>
              (LowerBound(comp, s, key) <= i < UpperBound(comp, s, key) <==> Equivalent(comp, s[i].key, key))
  {
    var l, u := LowerBound(comp, s, key), UpperBound(comp, s, key);
    forall i | 0 <= i < l ensures comp(s[i].key, key) {
      assert s[i] == s[..l][i];
    }
    forall i | 0 <= i < u ensures !comp(key, s[i].key) {
      assert s[i] == s[..u][i];
    }
  }

  /** How many elements are equivalent to a key. */
  ghost function Equivalents(comp: Comp, s: seq<Node>, key: int): nat {
    if s == [] then 0
    else Equivalents(comp, s[..|s| - 1], key) + if Equivalent(comp, s[|s| - 1].key, key) then 1 else 0
  }

  lemma {:induction false} EquivalentsBetween(comp: Comp, s: seq<Node>, key: int, l: nat, u: nat)
    requires l <= u
    requires forall i :: 0 <= i < |s| ==> (l <= i < u <==> Equivalent(comp, s[i].key, key))
    ensures Equivalents(comp, s, key) == if |s| <= l then 0 else if |s| <= u then |s| - l else u - l
  {
    if s != [] {
      EquivalentsBetween(comp, s[..|s| - 1], key, l, u);
    }
  }

  method Count(T: Traits, h: Node, key: int, comp: Comp, ghost t: Tree) returns (n: nat)
    requires T.Valid() && IsTree(T.cells, h, t) && StrictWeak(comp) && Sorted(comp, InOrder(t))
    ensures n == Equivalents(comp, InOrder(t), key)
  {
    ghost var s := InOrder(t);
    ghost var l, u := LowerBound(comp, s, key), UpperBound(comp, s, key);
    EqualRangeExact(comp, s, key);
    EquivalentsBetween(comp, s, key, l, u);
    InOrderNoDup(t);
    InOrderNodes(t);
    var first, second := EqualRange(T, h, key, comp, t);
    n := 0;
    while first != second
      invariant l + n <= u && first == At(s, l + n, h)
      decreases u - l - n
    {
      first := Next(T, h, first, t, l + n);
      n := n + 1;
    }
    assert l + n == u;
  }

  /** The first element equivalent to a key, as a range. */
  method LowerBoundRange(T: Traits, h: Node, key: int, comp: Comp, ghost t: Tree) returns (first: Node, second: Node)
    requires T.Valid() && IsTree(T.cells, h, t) && StrictWeak(comp) && Sorted(comp, InOrder(t))
    ensures var s, l := InOrder(t), LowerBound(comp, InOrder(t), key);
      && first == At(s, l, h)
      && second == At(s, if l < |s| && !comp(key, s[l].key) then l + 1 else l, h)
  {
    InOrderNodes(t);
    ghost var n, hole;
    first, n, hole := FindLowerBound(T, h, key, comp, t);
    second := first;
    if first != h && !comp(key, first.key) {
      second := Next(T, h, second, t, LowerBound(comp, InOrder(t), key));
    }
  }

  /** Where no two keys are equivalent, `LowerBoundRange` returns what `EqualRange` returns. */
  lemma LowerBoundRangeUnique(comp: Comp, s: seq<Node>, key: int)
    requires StrictWeak(comp) && StrictlySorted(comp, s)
    ensures var l := LowerBound(comp, s, key);
      UpperBound(comp, s, key) == if l < |s| && !comp(key, s[l].key) then l + 1 else l
  {
    var l, u := LowerBound(comp, s, key), UpperBound(comp, s, key);
    EqualRangeExact(comp, s, key);
    if l + 1 < |s| {
      assert comp(s[l].key, s[l + 1].key);
    }
  }

  /** The first element equivalent to the key, or the header. */
  method Find(T: Traits, h: Node, key: int, comp: Comp, ghost t: Tree) returns (n: Node)
    requires T.Valid() && Zip(T.cells, h, Top, t) && StrictWeak(comp) && Sorted(comp, InOrder(t))
    ensures n == h <==> forall i :: 0 <= i < |InOrder(t)| ==> !Equivalent(comp, InOrder(t)[i].key, key)
    ensures n != h ==> n == At(InOrder(t), LowerBound(comp, InOrder(t), key), h) && Equivalent(comp, n.key, key)
  {
    EqualRangeExact(comp, InOrder(t), key);
    InOrderNodes(t);
    ghost var k, hole;
    n, k, hole := FindLowerBound(T, h, key, comp, t);
    if n == h || comp(key, n.key) {
      n := h;
    }
  }
}
