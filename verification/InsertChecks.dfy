/** Finding out whether and where a node can be inserted, with and without a hint (bstree_algorithms.hpp). */
module InsertChecks {
  import opened NodeTraits
  import opened Trees
  import opened TreeGraph
  import opened TreeBase
  import opened BstLinks
  import opened RbTree
  import opened Order
  import opened Search

  /** `data` names the hole of `c`, which is the place in `t` after `i` nodes. */
  ghost predicate HoleAt(h: Node, t: Tree, data: CommitData, c: Ctx, i: nat) {
    Plug(c, Leaf) == t && Names(data, c, h) && |Pre(c)| == i
  }

  /** No element is equivalent to the key. */
  ghost predicate Absent(comp: Comp, s: seq<Node>, key: int) {
    forall i :: 0 <= i < |s| ==> !Equivalent(comp, s[i].key, key)
  }

  /** The element before the upper bound decides whether the key is present. */
  lemma PresentBefore(comp: Comp, a: seq<Node>, b: seq<Node>, key: int)
    requires StrictWeak(comp) && Sorted(comp, a + b) && All(a, BeforeUpper(comp, key))
      && None(b, BeforeUpper(comp, key))
    ensures Absent(comp, a + b, key) <==> a == [] || comp(a[|a| - 1].key, key)
    ensures UpperBound(comp, a + b, key) == |a|
  {
    var s := a + b;
    BoundAt(a, b, BeforeUpper(comp, key));
    forall j | |a| <= j < |s| ensures comp(key, s[j].key) {
      assert s[j] == b[j - |a|];
    }
    forall i | 0 <= i < |a| ensures !comp(key, s[i].key) && !comp(a[|a| - 1].key, s[i].key) {
      assert s[i] == a[i] && s[|a| - 1] == a[|a| - 1];
    }
  }

  /** The search for the upper bound has arrived: the node before it tells whether the key is present. */
  lemma UniqueArrived(m: Cells, h: Node, c: Ctx, y: Node, comp: Comp, key: int)
    requires Narrowed(m, h, c, Leaf, y, BeforeUpper(comp, key)) && StrictWeak(comp)
      && Sorted(comp, InOrder(Plug(c, Leaf)))
    ensures var s, a := InOrder(Plug(c, Leaf)), Pre(c);
      && UpperBound(comp, s, key) == |a| && (Absent(comp, s, key) <==> a == [] || comp(a[|a| - 1].key, key))
      && (a != [] ==> s[|a| - 1] == a[|a| - 1])
      && (a != [] ==> (Equivalent(comp, a[|a| - 1].key, key) || comp(a[|a| - 1].key, key)))
  {
    PlugInOrder(c, Leaf);
    assert Pre(c) + [] + Post(c) == Pre(c) + Post(c);
    PresentBefore(comp, Pre(c), Post(c), key);
    if Pre(c) != [] {
      assert InOrder(Plug(c, Leaf))[|Pre(c)| - 1] == Pre(c)[|Pre(c)| - 1];
    }
  }

  /** Descends to the hole at the upper bound, remembering the last node passed on the right. */
  method DescendToUpper(T: Traits, h: Node, key: int, comp: Comp, ghost t0: Tree)
      returns (prev: Node?, y: Node, leftChild: bool, ghost c: Ctx)
    requires T.Valid() && Narrowed(T.cells, h, Top, t0, h, BeforeUpper(comp, key))
    ensures Plug(c, Leaf) == t0 && Narrowed(T.cells, h, c, Leaf, First(Post(c), h), BeforeUpper(comp, key))
    ensures y == Parent(c, h) && leftChild == !c.InR? && prev == if Pre(c) == [] then null else Pre(c)[|Pre(c)| - 1]
  {
    y := h;
    var x := h.parent;
    prev := null;
    leftChild := true;
    ghost var t, p := t0, BeforeUpper(comp, key);
    c := Top;
    while x != null
      invariant x == Root(t) && y == Parent(c, h) && Narrowed(T.cells, h, c, t, First(Post(c), h), p)
        && Plug(c, t) == t0
      invariant leftChild == !c.InR?
      invariant prev == if Pre(c) == [] then null else Pre(c)[|Pre(c)| - 1]
      decreases t
    {
      Descend(T.cells, h, c, t, First(Post(c), h), p);
      assert Linked(T.cells, t, Parent(c, h));
      y := x;
      leftChild := comp(key, x.key);
      if leftChild {
        c, t := InL(c, t.n, t.red, t.r), t.l;
        x := x.left;
      } else {
        c, t := InR(c, t.l, t.n, t.red), t.r;
        prev := y;
        x := x.right;
      }
    }
  }

  /** Whether a node with an equivalent key is present, and, if not, where to link a new one. */
  method InsertUniqueCheck(T: Traits, h: Node, key: int, comp: Comp, data0: CommitData, ghost t0: Tree)
      returns (prev: Node?, notPresent: bool, data: CommitData, ghost c: Ctx)
    requires T.Valid() && Zip(T.cells, h, Top, t0) && StrictWeak(comp) && Sorted(comp, InOrder(t0))
    ensures notPresent <==> Absent(comp, InOrder(t0), key)
    ensures notPresent ==> HoleAt(h, t0, data, c, UpperBound(comp, InOrder(t0), key))
    ensures !notPresent ==> prev != null && Equivalent(comp, prev.key, key) && data == data0
    ensures var s, u := InOrder(t0), UpperBound(comp, InOrder(t0), key); prev == if u == 0 then null else s[u - 1]
  {
    var y, leftChild;
    NarrowedTop(T.cells, h, t0, comp, key);
    prev, y, leftChild, c := DescendToUpper(T, h, key, comp, t0);
    UniqueArrived(T.cells, h, c, First(Post(c), h), comp, key);
    notPresent := prev == null || comp(prev.key, key);
    data := data0;
    if notPresent {
      data := CommitData(leftChild, y);
    }
  }

  method InsertEqualUpperBoundCheck(T: Traits, h: Node, key: int, comp: Comp, ghost t0: Tree)
      returns (data: CommitData, ghost c: Ctx)
    requires T.Valid() && Zip(T.cells, h, Top, t0) && StrictWeak(comp) && Sorted(comp, InOrder(t0))
    ensures HoleAt(h, t0, data, c, UpperBound(comp, InOrder(t0), key))
  {
    var y: Node := h;
    var x := h.parent;
    ghost var t, p := t0, BeforeUpper(comp, key);
    c := Top;
    NarrowedTop(T.cells, h, t0, comp, key);
    while x != null
      invariant x == Root(t) && y == Parent(c, h) && Narrowed(T.cells, h, c, t, First(Post(c), h), p)
        && Plug(c, t) == t0
      invariant (c.InL? ==> comp(key, y.key)) && (c.InR? ==> !comp(key, y.key))
      decreases t
    {
      Descend(T.cells, h, c, t, First(Post(c), h), p);
      assert Linked(T.cells, t, Parent(c, h));
      y := x;
      if comp(key, x.key) {
        c, t := InL(c, t.n, t.red, t.r), t.l;
        x := x.left;
      } else {
        c, t := InR(c, t.l, t.n, t.red), t.r;
        x := x.right;
      }
    }
    Arrived(T.cells, h, c, First(Post(c), h), p);
    assert c.Top? <==> y == h;
    data := CommitData(y == h || comp(key, y.key), y);
  }

  method InsertEqualLowerBoundCheck(T: Traits, h: Node, key: int, comp: Comp, ghost t0: Tree)
      returns (data: CommitData, ghost c: Ctx)
    requires T.Valid() && Zip(T.cells, h, Top, t0) && StrictWeak(comp) && Sorted(comp, InOrder(t0))
    ensures HoleAt(h, t0, data, c, LowerBound(comp, InOrder(t0), key))
  {
    var y: Node := h;
    var x := h.parent;
    ghost var t, p := t0, BeforeLower(comp, key);
    c := Top;
    NarrowedTop(T.cells, h, t0, comp, key);
    while x != null
      invariant x == Root(t) && y == Parent(c, h) && Narrowed(T.cells, h, c, t, First(Post(c), h), p)
        && Plug(c, t) == t0
      invariant (c.InL? ==> !comp(y.key, key)) && (c.InR? ==> comp(y.key, key))
      decreases t
    {
      Descend(T.cells, h, c, t, First(Post(c), h), p);
      assert Linked(T.cells, t, Parent(c, h));
      y := x;
      if !comp(x.key, key) {
        c, t := InL(c, t.n, t.red, t.r), t.l;
        x := x.left;
      } else {
        c, t := InR(c, t.l, t.n, t.red), t.r;
        x := x.right;
      }
    }
    Arrived(T.cells, h, c, First(Post(c), h), p);
    assert c.Top? <==> y == h;
    data := CommitData(y == h || !comp(y.key, key), y);
  }

  /** The hole right of the last node of a tree. */
  ghost function RightHole(t: Tree): Ctx
    requires t.Bin?
  {
    InR(RightPath(t), RightEnd(t).l, RightEnd(t).n, RightEnd(t).red)
  }

  lemma RightHoleEnd(t: Tree)
    requires t.Bin?
    ensures Plug(RightHole(t), Leaf) == t && Pre(RightHole(t)) == InOrder(t) && Post(RightHole(t)) == []
    ensures InOrder(t) != [] && InOrder(t)[|InOrder(t)| - 1] == RightEnd(t).n
  {
    RightEndLast(t);
    var p, e := RightPath(t), RightEnd(t);
    PlugInOrder(p, e);
    assert InOrder(e) == InOrder(e.l) + [e.n];
    assert e == Bin(e.l, e.n, e.red, Leaf);
    assert Pre(p) + (InOrder(e.l) + [e.n]) + [] == Pre(p) + InOrder(e.l) + [e.n];
  }

  /** The hole just before position `i`: left of the node there, or, if that has a left child, right
      of the node before it. */
  lemma HoleBefore(m: Cells, h: Node, t: Tree, i: nat) returns (c: Ctx)
    requires IsTree(m, h, t) && i <= |InOrder(t)|
    ensures Plug(c, Leaf) == t && |Pre(c)| == i
    ensures var s, hint := InOrder(t), At(InOrder(t), i, h);
      hint in m && if t.Leaf? || m[hint].left == null then !c.InR? && Parent(c, h) == hint
                   else i > 0 && c.InR? && c.n == s[i - 1]
  {
    if t.Leaf? {
      c := Top;
    } else if i == |InOrder(t)| {
      RightHoleEnd(t);
      c := RightHole(t);
    } else {
      c := HoleBeforeNode(m, h, t, i);
    }
  }

  lemma HoleBeforeNode(m: Cells, h: Node, t: Tree, i: nat) returns (c: Ctx)
    requires Zip(m, h, Top, t) && i < |InOrder(t)|
    ensures Plug(c, Leaf) == t && |Pre(c)| == i
    ensures var s, hint := InOrder(t), InOrder(t)[i];
      hint in m && if m[hint].left == null then c.InL? && c.n == hint
                   else i > 0 && c.InR? && c.n == s[i - 1]
  {
    var d, s := FocusAt(m, h, t, i);
    if s.l.Leaf? {
      c := InL(d, s.n, s.red, s.r);
    } else {
      var d' := InL(d, s.n, s.red, s.r);
      RightHoleEnd(s.l);
      c := Append(RightHole(s.l), d');
      PlugAppend(RightHole(s.l), d', Leaf);
      PreAppend(RightHole(s.l), d');
      NextAt(d, s, h);
    }
  }

  /** The node before the one at position `i`, or before the header. */
  method Previous(T: Traits, h: Node, node: Node, ghost t: Tree, ghost i: nat) returns (n: Node)
    requires T.Valid() && IsTree(T.cells, h, t) && 0 < i <= |InOrder(t)| && node == At(InOrder(t), i, h)
    ensures n == InOrder(t)[i - 1]
  {
    InOrderNodes(t);
    ghost var c, s := Top, t;
    if i < |InOrder(t)| {
      InOrderMember(t, i);
      c, s := FocusAt(T.cells, h, t, i);
      NextAt(c, s, h);
    }
    n := PrevNode(T, node, h, c, s);
  }

  /** Position `i` of the order, which is that of `hint`: its hole. */
  method CommitBefore(T: Traits, h: Node, hint: Node, prev: Node, ghost t: Tree, ghost i: nat)
      returns (data: CommitData, ghost c: Ctx)
    requires T.Valid() && IsTree(T.cells, h, t) && i <= |InOrder(t)| && hint == At(InOrder(t), i, h)
    requires i > 0 ==> prev == InOrder(t)[i - 1]
    ensures HoleAt(h, t, data, c, i)
  {
    c := HoleBefore(T.cells, h, t, i);
    var linkLeft := h.parent == null || hint.left == null;
    data := CommitData(linkLeft, if linkLeft then hint else prev);
  }

  /** The position just before `pos`, wherever the order of keys would put the new node. */
  method InsertBeforeCheck(T: Traits, h: Node, pos: Node, ghost t: Tree, ghost i: nat)
      returns (data: CommitData, ghost c: Ctx)
    requires T.Valid() && IsTree(T.cells, h, t) && i <= |InOrder(t)| && pos == At(InOrder(t), i, h)
    ensures HoleAt(h, t, data, c, i)
  {
    AtFirst(T.cells, h, t, i);
    var prev := pos;
    if pos != h.left {
      prev := Previous(T, h, pos, t, i);
    }
    data, c := CommitBefore(T, h, pos, prev, t, i);
  }

  /** Only position 0 is that of the node the header links to as the first. */
  lemma AtFirst(m: Cells, h: Node, t: Tree, i: nat)
    requires IsTree(m, h, t) && i <= |InOrder(t)|
    ensures At(InOrder(t), i, h) == m[h].left <==> i == 0
    ensures At(InOrder(t), i, h) == h <==> i == |InOrder(t)|
    ensures At(InOrder(t), i, h) in m
  {
    InOrderNoDup(t);
    if i < |InOrder(t)| {
      InOrderMember(t, i);
    }
    if InOrder(t) != [] {
      InOrderMember(t, 0);
    }
    LinkedIn(m, t, h);
  }

  /** Where all keys before position `i` are less, and all from there on greater, the key is absent. */
  lemma FitsUnique(comp: Comp, s: seq<Node>, key: int, i: nat)
    requires StrictWeak(comp) && Sorted(comp, s) && i <= |s|
    requires i > 0 ==> comp(s[i - 1].key, key)
    requires i < |s| ==> comp(key, s[i].key)
    ensures Absent(comp, s, key) && UpperBound(comp, s, key) == i
  {
    var p := BeforeUpper(comp, key);
    forall j | 0 <= j < i ensures comp(s[j].key, key) {
    }
    forall j | i <= j < |s| ensures comp(key, s[j].key) {
    }
    BoundAt(s[..i], s[i..], p);
    assert s[..i] + s[i..] == s;
  }

  /** With a hint the answer is the same, whatever the hint. The hint is used, and then no node is returned, exactly if
      the key is absent and belongs just before it. */
  method InsertUniqueCheckHint(T: Traits, h: Node, hint: Node, key: int, comp: Comp, data0: CommitData, ghost t: Tree,
      ghost i: nat)
      returns (prev: Node?, notPresent: bool, data: CommitData, ghost c: Ctx)
    requires T.Valid() && IsTree(T.cells, h, t) && StrictWeak(comp) && Sorted(comp, InOrder(t))
    requires i <= |InOrder(t)| && hint == At(InOrder(t), i, h)
    ensures notPresent <==> Absent(comp, InOrder(t), key)
    ensures notPresent ==> HoleAt(h, t, data, c, UpperBound(comp, InOrder(t), key))
    ensures !notPresent ==> prev != null && Equivalent(comp, prev.key, key) && data == data0
    ensures var s, u := InOrder(t), UpperBound(comp, InOrder(t), key);
      prev == if u == 0 || (notPresent && i == u) then null else s[u - 1]
  {
    UniqueHint(comp, InOrder(t), key, i);
    AtFirst(T.cells, h, t, i);
    if hint == h || comp(key, hint.key) {
      var before := hint;
      if hint != h.left {
        before := Previous(T, h, hint, t, i);
      }
      if hint == h.left || comp(before.key, key) {
        FitsUnique(comp, InOrder(t), key, i);
        data, c := CommitBefore(T, h, hint, before, t, i);
        return null, true, data, c;
      }
    }
    prev, notPresent, data, c := InsertUniqueCheck(T, h, key, comp, data0, t);
  }

  /** What the comparisons with the nodes at and before a hint say of an absent key. */
  lemma UniqueHint(comp: Comp, s: seq<Node>, key: int, i: nat)
    requires StrictWeak(comp) && Sorted(comp, s) && i <= |s|
    ensures Absent(comp, s, key) && i == UpperBound(comp, s, key) ==>
      (i < |s| ==> comp(key, s[i].key)) && (0 < i ==> comp(s[i - 1].key, key))
  {
    var u := UpperBound(comp, s, key);
    assert 0 < u ==> s[u - 1] == s[..u][u - 1];
  }

  /** The hint is used if the key fits just before it; otherwise the new node goes as close to the hint as it may. */
  method InsertEqualCheck(T: Traits, h: Node, hint: Node, key: int, comp: Comp, ghost t: Tree, ghost i: nat)
      returns (data: CommitData, ghost c: Ctx)
    requires T.Valid() && IsTree(T.cells, h, t) && StrictWeak(comp) && Sorted(comp, InOrder(t))
    requires i <= |InOrder(t)| && hint == At(InOrder(t), i, h)
    ensures HoleAt(h, t, data, c, |Pre(c)|)
    ensures var l, u := LowerBound(comp, InOrder(t), key), UpperBound(comp, InOrder(t), key);
      |Pre(c)| == if i < l then l else if u < i then u else i
  {
    AtFirst(T.cells, h, t, i);
    EqualHint(comp, InOrder(t), key, i);
    if hint == h || !comp(hint.key, key) {
      var prev := hint;
      if hint != h.left {
        prev := Previous(T, h, hint, t, i);
      }
      if hint == h.left || !comp(key, prev.key) {
        data, c := CommitBefore(T, h, hint, prev, t, i);
      } else {
        data, c := InsertEqualUpperBoundCheck(T, h, key, comp, t);
      }
    } else {
      data, c := InsertEqualLowerBoundCheck(T, h, key, comp, t);
    }
  }

  /** The comparisons with the nodes at and before a hint tell on which side of the two bounds it is. */
  lemma EqualHint(comp: Comp, s: seq<Node>, key: int, i: nat)
    requires StrictWeak(comp) && Sorted(comp, s) && i <= |s|
    ensures LowerBound(comp, s, key) <= UpperBound(comp, s, key) <= |s|
    ensures LowerBound(comp, s, key) <= i <==> i == |s| || !comp(s[i].key, key)
    ensures i <= UpperBound(comp, s, key) <==> i == 0 || !comp(key, s[i - 1].key)
  {
    EqualRangeExact(comp, s, key);
    var l, u := LowerBound(comp, s, key), UpperBound(comp, s, key);
    assert i < l ==> s[i] == s[..l][i];
    assert 0 < i <= u ==> s[i - 1] == s[..u][i - 1];
  }

  /** A node put anywhere between the two bounds of its key keeps the order sorted. */
  lemma InsertedSorted(comp: Comp, a: seq<Node>, n: Node, b: seq<Node>)
    requires StrictWeak(comp) && Sorted(comp, a + b)
    requires LowerBound(comp, a + b, n.key) <= |a| <= UpperBound(comp, a + b, n.key)
    ensures Sorted(comp, a + [n] + b)
  {
    var s, s' := a + b, a + [n] + b;
    BoundsSplit(comp, s, n.key, |a|);
    forall i, j | 0 <= i < j < |s'| ensures !comp(s'[j].key, s'[i].key) {
      InsertedFrom(a, n, b, i);
      InsertedFrom(a, n, b, j);
    }
  }

  /** Nor does a node with a key that was absent make two keys equivalent. */
  lemma InsertedStrictly(comp: Comp, a: seq<Node>, n: Node, b: seq<Node>)
    requires StrictWeak(comp) && StrictlySorted(comp, a + b) && Absent(comp, a + b, n.key)
    requires LowerBound(comp, a + b, n.key) <= |a| <= UpperBound(comp, a + b, n.key)
    ensures StrictlySorted(comp, a + [n] + b)
  {
    var s, s' := a + b, a + [n] + b;
    BoundsSplit(comp, s, n.key, |a|);
    forall i, j | 0 <= i < j < |s'| ensures comp(s'[i].key, s'[j].key) {
      InsertedFrom(a, n, b, i);
      InsertedFrom(a, n, b, j);
    }
  }

  lemma InsertedFrom(a: seq<Node>, n: Node, b: seq<Node>, i: nat)
    requires i < |a| + 1 + |b|
    ensures (a + [n] + b)[i] == if i < |a| then (a + b)[i] else if i == |a| then n else (a + b)[i - 1]
  {
  }

  lemma BoundsSplit(comp: Comp, s: seq<Node>, key: int, k: nat)
    requires StrictWeak(comp) && Sorted(comp, s) && k <= |s|
    requires LowerBound(comp, s, key) <= k <= UpperBound(comp, s, key)
    ensures forall i :: 0 <= i < k ==> !comp(key, s[i].key)
    ensures forall i :: k <= i < |s| ==> !comp(s[i].key, key)
  {
    var l, u := LowerBound(comp, s, key), UpperBound(comp, s, key);
    forall i | 0 <= i < k ensures !comp(key, s[i].key) {
      assert s[i] == s[..u][i];
    }
  }

  ghost function Inserted(s: seq<Node>, i: nat, n: Node): seq<Node>
    requires i <= |s|
  {
    s[..i] + [n] + s[i..]
  }

  lemma InsertedAtHole(c: Ctx, n: Node)
    ensures InOrder(Plug(c, Leaf)) == Pre(c) + Post(c)
    ensures Inserted(Pre(c) + Post(c), |Pre(c)|, n) == Pre(c) + [n] + Post(c)
  {
    PlugInOrder(c, Leaf);
    assert Pre(c) + [] + Post(c) == Pre(c) + Post(c);
  }

  /** Links a node in where a check found its place, and rebalances. */
  method InsertAt(T: Traits, h: Node, n: Node, data: CommitData, comp: Comp, ghost t: Tree, ghost c: Ctx)
      returns (ghost t': Tree)
    requires T.Valid() && IsRb(T.cells, h, t) && n in T.cells && n !in {h} + Nodes(t)
    requires StrictWeak(comp) && Sorted(comp, InOrder(t)) && HoleAt(h, t, data, c, |Pre(c)|)
    requires LowerBound(comp, InOrder(t), n.key) <= |Pre(c)| <= UpperBound(comp, InOrder(t), n.key)
    modifies T, T.cells.Keys
    ensures T.Valid() && IsRb(T.cells, h, t') && Sorted(comp, InOrder(t'))
    ensures |Pre(c)| <= |InOrder(t)| && InOrder(t') == Inserted(InOrder(t), |Pre(c)|, n)
    ensures {h} + Nodes(t') == {h} + Nodes(t) + {n} && OnlyChanged(old(T.cells), T.cells, {h} + Nodes(t) + {n})
  {
    ZipPlug(T.cells, h, c, Leaf);
    InsertedAtHole(c, n);
    InsertedSorted(comp, Pre(c), n, Post(c));
    t' := RbInsertCommit(T, h, n, data, c);
  }
}
