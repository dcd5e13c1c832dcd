/** The doubly linked list with a cached size (list.hpp). */
module Lists {
  import opened ListNodes
  import opened Rings
  import opened CircularList
  import opened ListMoves
  import opened ListSwap
  import opened Order
  import opened ListOrder
  import opened Splicing
  import P = ListPartition

  class List {
    const T: ListTraits
    const root: ListNode
    var size: nat
    ghost var elems: Seq

    ghost predicate Valid()
      reads this, T
    {
      IsList(T.links, root, elems) && size == |elems|
    }

    /** The root and the elements. */
    ghost function Own(): set<ListNode>
      reads this
    {
      Members([root] + elems)
    }

    /** The two lists share the node traits but no node. */
    ghost predicate Apart(x: List)
      reads this, x
    {
      x != this && x.T == T && Disjoint(root, elems, x.root, x.elems)
    }

    constructor (T: ListTraits)
      requires T.Valid()
      modifies T
      ensures T.Valid() && Valid() && elems == [] && this.T == T && fresh(root)
      ensures T.links.Keys == old(T.links.Keys) + {root} && forall n <- old(T.links) :: T.links[n] == old(T.links)[n]
    {
      var r := T.NewNode(0);
      InitHeader(T, r);
      this.T, root, size, elems := T, r, 0, [];
    }

    method Empty() returns (r: bool)
      requires Valid() && T.Valid()
      ensures r <==> elems == []
    {
      AtHead(T.links, root, elems);
      r := root.next == null || root.next == root;
    }

    /** The first element, or the root. */
    method Begin() returns (n: ListNode)
      requires Valid() && T.Valid()
      ensures n == FirstOr(elems, root)
    {
      AtHead(T.links, root, elems);
      n := root.next;
    }

    /** The links below the root have become those of `s`, with `n` elements. */
    method Resize(ghost s: Seq, n: nat)
      requires T.Valid() && IsList(T.links, root, s) && n == |s|
      modifies this
      ensures T.Valid() && Valid() && elems == s
    {
      elems, size := s, n;
    }

    /** Moves the elements `y` from between `x` and `z` in the list `from` to between `a` and `c` here. */
    method SpliceRange(p: ListNode, from: List, f: ListNode, e: ListNode, n: nat,
        ghost a: Seq, ghost c: Seq, ghost x: Seq, ghost y: Seq, ghost z: Seq)
      requires Valid() && from.Valid() && T.Valid() && Apart(from)
      requires elems == a + c && from.elems == x + y + z && n == |y|
      requires p == FirstOr(c, root) && f == FirstOr(y + z, from.root) && e == FirstOr(z, from.root)
      modifies this, from, T, T.links.Keys
      ensures T.Valid() && Valid() && from.Valid() && Apart(from) && elems == a + y + c && from.elems == x + z
      ensures OnlyLinked(old(T.links), T.links, old(Own() + from.Own()))
        && Own() + from.Own() == old(Own() + from.Own())
    {
      if n != 0 {
        Spliced(T.links, root, a, c, from.root, x, y, z);
        SplicedMembers(root, a, c, from.root, x, y, z);
        Transfer(T, p, f, e);
        Resize(a + y + c, size + n);
        from.Resize(x + z, from.size - n);
      } else {
        assert a + [] + c == a + c && x + [] + z == x + z;
      }
    }

    /** Moves all elements of `x` to between `a` and `c` here. */
    method Splice(p: ListNode, x: List, ghost a: Seq, ghost c: Seq)
      requires Valid() && x.Valid() && T.Valid() && Apart(x) && elems == a + c && p == FirstOr(c, root)
      modifies this, x, T, T.links.Keys
      ensures T.Valid() && Valid() && x.Valid() && Apart(x) && elems == a + old(x.elems) + c && x.elems == []
      ensures OnlyLinked(old(T.links), T.links, old(Own() + x.Own())) && Own() + x.Own() == old(Own() + x.Own())
    {
      var empty := x.Empty();
      if !empty {
        ghost var y := x.elems;
        assert [] + y + [] == y;
        Spliced(T.links, root, a, c, x.root, [], y, []);
        SplicedMembers(root, a, c, x.root, [], y, []);
        var b := x.Begin();
        Transfer(T, p, b, x.root);
        Resize(a + y + c, size + x.size);
        x.Resize([], 0);
      } else {
        assert a + [] + c == a + c;
      }
    }

    /** Moves the element `i`, from between `u` and `w` in the list `x`, to between `a` and `c` here. */
    method SpliceOne(p: ListNode, x: List, i: ListNode, ghost a: Seq, ghost c: Seq, ghost u: Seq, ghost w: Seq)
      requires Valid() && x.Valid() && T.Valid() && Apart(x)
      requires elems == a + c && p == FirstOr(c, root) && x.elems == u + [i] + w
      modifies this, x, T, T.links.Keys
      ensures T.Valid() && Valid() && x.Valid() && Apart(x) && elems == a + [i] + c && x.elems == u + w
      ensures OnlyLinked(old(T.links), T.links, old(Own() + x.Own())) && Own() + x.Own() == old(Own() + x.Own())
    {
      Spliced(T.links, root, a, c, x.root, u, [i], w);
      SplicedMembers(root, a, c, x.root, u, [i], w);
      SplicedOne(T.links, root, a, c, x.root, u, i, w);
      TransferOne(T, p, i);
      x.Resize(u + w, x.size - 1);
      Resize(a + [i] + c, size + 1);
    }

    /** A range of this list itself, from position `i` up to `j`, goes before position `k` outside of it. If that is the
        end of the range, the range drops out: the list is not valid any more. */
    method SpliceRangeWithin(p: ListNode, f: ListNode, e: ListNode, n: nat, ghost i: nat, ghost j: nat, ghost k: nat)
      requires Valid() && T.Valid() && i <= j <= |elems| && k <= |elems| && (k < i || j <= k) && n == j - i
      requires p == FirstOr(elems[k..], root) && f == FirstOr(elems[i..], root) && e == FirstOr(elems[j..], root)
      modifies this, T, T.links.Keys
      ensures T.Valid() && OnlyLinked(old(T.links), T.links, old(Own())) && size == old(size)
      ensures IsList(T.links, root, elems)
      ensures elems == if k == j && i < j then old(elems)[..i] + old(elems)[j..] else MovedWithin(old(elems), i, j, k)
      ensures Valid() <==> (p != e || f == e)
      ensures Valid() ==> Own() == old(Own())
      ensures !Valid() ==> Ring(T.links, old(elems)[i..j])
    {
      ghost var s, s' := elems, AfterSplice(elems, i, j, k);
      SplicedValid(T.links, root, s, i, j, k);
      if n != 0 {
        TransferRange(T, root, p, f, e, s, i, j, k);
        elems := s';
        size := size + n;
        size := size - n;
      }
    }

    /** An element of this list itself, the one at position `i`, goes before position `k`; nothing happens if it is
        there. */
    method SpliceOneWithin(p: ListNode, node: ListNode, ghost i: nat, ghost k: nat)
      requires Valid() && T.Valid() && i < |elems| && k <= |elems| && node == elems[i] && p == FirstOr(elems[k..], root)
      modifies this, T, T.links.Keys
      ensures T.Valid() && Valid() && OnlyLinked(old(T.links), T.links, old(Own())) && Own() == old(Own())
      ensures elems == if k == i || k == i + 1 then old(elems) else MovedWithin(old(elems), i, i + 1, k)
      ensures k == i || k == i + 1 ==> T.links == old(T.links)
    {
      elems := MoveOne(T, root, p, node, elems, i, k);
      size := size - 1;
      size := size + 1;
    }

    /** The whole list spliced into itself, at its end: the list is empty then, and its elements are a ring without it.
        */
    method SpliceAllWithin()
      requires Valid() && T.Valid()
      modifies this, T, T.links.Keys
      ensures T.Valid() && Valid() && elems == [] && OnlyLinked(old(T.links), T.links, old(Own()))
      ensures old(elems) != [] ==> Ring(T.links, old(elems))
    {
      var empty := Empty();
      if !empty {
        ghost var s := elems;
        assert s[0..|s|] == s && s[..0] + s[|s|..] == [] && s[0..] == s;
        DroppedOut(T.links, root, s, 0, |s|);
        var b := Begin();
        Transfer(T, root, b, root);
        size := size + size;
        size, elems := 0, [];
      }
    }

    /** Moves the first element of `x` to the front. */
    method SpliceFirst(x: List)
      requires Valid() && x.Valid() && T.Valid() && Apart(x) && x.elems != []
      modifies this, x, T, T.links.Keys
      ensures T.Valid() && Valid() && x.Valid() && Apart(x) && elems == [old(x.elems)[0]] + old(elems)
        && x.elems == old(x.elems)[1..]
      ensures OnlyLinked(old(T.links), T.links, old(Own() + x.Own())) && Own() + x.Own() == old(Own() + x.Own())
    {
      ghost var c, w := elems, x.elems[1..];
      Front(c, x.elems[0], w);
      assert x.elems == [x.elems[0]] + w;
      var p := Begin();
      var i := x.Begin();
      SpliceOne(p, x, i, [], c, [], w);
    }

    /** The element after the one at position `k`, or the root. */
    method Following(n: ListNode, ghost k: nat) returns (next: ListNode)
      requires Valid() && T.Valid() && k < |elems| && n == elems[k]
      ensures next == FirstOr(elems[k + 1..], root)
    {
      ghost var r := [root] + elems;
      assert r[k + 1] == n && r[NextIn(k + 1, |r|)] == FirstOr(elems[k + 1..], root);
      RingAt(T.links, r, k + 1);
      next := n.next;
    }

    /** From position `k` on, the first element greater than `v`, or the root. */
    method SkipNotGreater(b0: ListNode, v: int, comp: Comp, ghost k: nat) returns (b: ListNode, ghost j: nat)
      requires Valid() && T.Valid() && k <= |elems| && b0 == FirstOr(elems[k..], root)
      ensures k <= j <= |elems| && b == FirstOr(elems[j..], root) && (b == root <==> j == |elems|)
      ensures (forall i :: k <= i < j ==> !comp(v, elems[i].value)) && (j < |elems| ==> comp(v, elems[j].value))
    {
      RootOutside(T.links, root, elems);
      b, j := b0, k;
      while b != root && !comp(v, b.value)
        invariant k <= j <= |elems| && b == FirstOr(elems[j..], root)
        invariant forall i :: k <= i < j ==> !comp(v, elems[i].value)
        decreases |elems| - j
      {
        b := Following(b, j);
        j := j + 1;
      }
    }

    /** How many elements from the first on are less than `v`, of which the first is one, and what comes after them. */
    method TakeLess(v: int, comp: Comp) returns (ix: ListNode, n: nat)
      requires Valid() && T.Valid() && elems != [] && comp(elems[0].value, v)
      ensures 0 < n <= |elems| && ix == FirstOr(elems[n..], root)
      ensures forall i :: 0 <= i < n ==> comp(elems[i].value, v)
    {
      RootOutside(T.links, root, elems);
      ix := Begin();
      n := 0;
      var more := true;
      while more
        invariant n <= |elems| && ix == FirstOr(elems[n..], root) && (!more ==> 0 < n)
        invariant forall i :: 0 <= i < n ==> comp(elems[i].value, v)
        invariant more ==> n < |elems| && comp(elems[n].value, v)
        decreases |elems| - n, more
      {
        ix := Following(ix, n);
        n := n + 1;
        more := ix != root && comp(ix.value, v);
      }
    }

    /** Merges the elements of `x` in; of equivalent elements, those from here come first. */
    method MergeWith(x: List, comp: Comp)
      requires Valid() && x.Valid() && T.Valid() && Apart(x)
      modifies this, x, T, T.links.Keys
      ensures T.Valid() && Valid() && x.Valid() && Apart(x) && elems == Merge(comp, old(elems), old(x.elems))
        && x.elems == []
      ensures OnlyLinked(old(T.links), T.links, old(Own() + x.Own())) && Own() + x.Own() == old(Own() + x.Own())
    {
      ghost var m0, own, goal, k: nat := T.links, Own() + x.Own(), Merge(comp, elems, x.elems), 0;
      assert elems[..0] == [] && elems[0..] == elems && [] + goal == goal;
      var b := Begin();
      var empty := x.Empty();
      while !empty
        invariant T.Valid() && Valid() && x.Valid() && Apart(x) && (empty <==> x.elems == [])
        invariant k <= |elems| && b == FirstOr(elems[k..], root)
          && goal == elems[..k] + Merge(comp, elems[k..], x.elems)
        invariant OnlyLinked(m0, T.links, own) && Own() + x.Own() == own
        decreases |x.elems|
      {
        var ix := x.Begin();
        b, k := MergeStep(x, comp, b, ix.value, goal, k, m0, own);
        empty := x.Empty();
      }
      assert elems[..k] + elems[k..] == elems;
    }

    /** One run of elements of `x` goes where it belongs, or, at the end, all the rest. */
    method MergeStep(x: List, comp: Comp, b0: ListNode, v: int, ghost goal: Seq, ghost k: nat, ghost m0: LinkMap,
        ghost own: set<ListNode>)
        returns (b: ListNode, ghost k': nat)
      requires Valid() && x.Valid() && T.Valid() && Apart(x) && x.elems != [] && v == x.elems[0].value
      requires k <= |elems| && b0 == FirstOr(elems[k..], root) && goal == elems[..k] + Merge(comp, elems[k..], x.elems)
      requires OnlyLinked(m0, T.links, own) && Own() + x.Own() == own
      modifies this, x, T, T.links.Keys
      ensures T.Valid() && Valid() && x.Valid() && Apart(x) && |x.elems| < |old(x.elems)|
      ensures k' <= |elems| && b == FirstOr(elems[k'..], root)
        && goal == elems[..k'] + Merge(comp, elems[k'..], x.elems)
      ensures OnlyLinked(m0, T.links, own) && Own() + x.Own() == own
    {
      ghost var j;
      b, j := SkipNotGreater(b0, v, comp, k);
      MergeSkipped(comp, elems, x.elems, k, j);
      ghost var a, c := elems[..j], elems[j..];
      assert elems == a + c;
      if b == root {
        k' := MergeAll(x, comp, a, goal, m0, own);
      } else {
        k' := MergeRun(x, comp, b, a, c, goal, m0, own);
      }
    }

    /** All elements of `x` go to the end. */
    method MergeAll(x: List, comp: Comp, ghost a: Seq, ghost goal: Seq, ghost m0: LinkMap, ghost own: set<ListNode>)
        returns (ghost k': nat)
      requires Valid() && x.Valid() && T.Valid() && Apart(x) && x.elems != [] && elems == a
        && goal == a + Merge(comp, [], x.elems)
      requires OnlyLinked(m0, T.links, own) && Own() + x.Own() == own
      modifies this, x, T, T.links.Keys
      ensures T.Valid() && Valid() && x.Valid() && Apart(x) && x.elems == []
      ensures k' == |elems| && goal == elems && OnlyLinked(m0, T.links, own) && Own() + x.Own() == own
    {
      ghost var y := x.elems;
      MergeRest(comp, a, y);
      Splice(root, x, a, []);
      k' := |elems|;
    }

    /** The elements of `x` less than the one at `b` go before it. */
    method MergeRun(x: List, comp: Comp, b: ListNode, ghost a: Seq, ghost c: Seq, ghost goal: Seq, ghost m0: LinkMap,
        ghost own: set<ListNode>)
        returns (ghost k': nat)
      requires Valid() && x.Valid() && T.Valid() && Apart(x) && x.elems != [] && elems == a + c && c != [] && b == c[0]
      requires comp(x.elems[0].value, b.value) && goal == a + Merge(comp, c, x.elems)
      requires OnlyLinked(m0, T.links, own) && Own() + x.Own() == own
      modifies this, x, T, T.links.Keys
      ensures T.Valid() && Valid() && x.Valid() && Apart(x) && |x.elems| < |old(x.elems)|
      ensures k' <= |elems| && elems[k'..] == c && goal == elems[..k'] + Merge(comp, c, x.elems)
      ensures OnlyLinked(m0, T.links, own) && Own() + x.Own() == own
    {
      var ix, n := x.TakeLess(b.value, comp);
      ghost var y, z := x.elems[..n], x.elems[n..];
      MergeTaken(comp, a, c, x.elems, n);
      var f := x.Begin();
      SpliceRange(b, x, f, ix, n, a, c, [], y, z);
      k' := |a| + n;
    }

    /** Erases the elements `y`, between `x` and `z`: they are unlinked, and then reset one by one. */
    method EraseRange(b: ListNode, e: ListNode, ghost x: Seq, ghost y: Seq, ghost z: Seq) returns (next: ListNode)
      requires Valid() && T.Valid() && elems == x + y + z && b == FirstOr(y + z, root) && e == FirstOr(z, root)
      modifies this, T, T.links.Keys
      ensures T.Valid() && Valid() && elems == x + z && OnlyLinked(old(T.links), T.links, old(Own()))
      ensures next == e == FirstOr(z, root) && forall n <- y :: n in T.links && T.links[n] == Links(null, null)
    {
      next := e;
      if b == e {
        NothingErased(T.links, root, x, y, z);
        return;
      }
      ghost var m := T.links;
      ErasedRing(m, root, x, y, z);
      UnlinkRange(T, b, e);
      ghost var m1 := T.links;
      var n := DisposeNodes(T, b, e, y);
      ErasedList(m1, T.links, root, x, y, z);
      Resize(x + z, size - n);
    }

    /** Partitions the elements; if the predicate throws, those not yet tested stay behind. */
    method PartitionElements(pred: P.Pred) returns (thrown: bool, beg2: ListNode)
      requires Valid() && T.Valid()
      modifies this, T, T.links.Keys
      ensures T.Valid() && Valid() && |elems| == |old(elems)| && Own() == old(Own())
      ensures var s, k := old(elems), P.Tested(pred, old(elems));
        elems == P.Chosen(pred, s[..k], P.Holds) + P.Chosen(pred, s[..k], P.Fails) + s[k..]
      ensures thrown <==> P.Tested(pred, old(elems)) < |old(elems)|
      ensures !thrown ==> beg2 == FirstOr(P.Chosen(pred, old(elems), P.Fails), root)
      ensures OnlyLinked(old(T.links), T.links, old(Own()))
    {
      var first := Begin();
      var num1, num2;
      PartitionedOwn(pred, root, elems);
      thrown, num1, num2, beg2 := P.StablePartition(T, first, root, pred, [root], elems);
      PartitionedList(T.links, pred, root, elems);
      elems := P.Partitioned(pred, elems);
    }

    /** Removes the elements that satisfy the predicate. If it throws, no element is lost. */
    method RemoveIf(pred: P.Pred) returns (thrown: bool)
      requires Valid() && T.Valid()
      modifies this, T, T.links.Keys
      ensures T.Valid() && Valid() && (thrown <==> P.Tested(pred, old(elems)) < |old(elems)|)
      ensures !thrown ==> elems == P.Chosen(pred, old(elems), P.Fails)
      ensures !thrown ==>
        forall n <- P.Chosen(pred, old(elems), P.Holds) :: n in T.links && T.links[n] == Links(null, null)
      ensures var s, k := old(elems), P.Tested(pred, old(elems));
        thrown ==> |elems| == |s| && elems == P.Chosen(pred, s[..k], P.Holds) + P.Chosen(pred, s[..k], P.Fails) + s[k..]
      ensures OnlyLinked(old(T.links), T.links, old(Own()))
    {
      ghost var s := elems;
      var beg2;
      thrown, beg2 := PartitionElements(pred);
      if !thrown {
        ghost var y, z := P.Chosen(pred, s, P.Holds), P.Chosen(pred, s, P.Fails);
        PartitionedWhole(pred, s);
        var first := Begin();
        var next := EraseRange(first, beg2, [], y, z);
      }
    }

    /** Exchanges the elements of two lists. */
    method Swap(other: List)
      requires Valid() && other.Valid() && T.Valid() && Apart(other)
      modifies this, other, T, T.links.Keys
      ensures T.Valid() && Valid() && other.Valid() && Apart(other) && elems == old(other.elems)
        && other.elems == old(elems)
      ensures OnlyLinked(old(T.links), T.links, old(Own() + other.Own()))
        && Own() + other.Own() == old(Own() + other.Own())
    {
      ghost var s, t, m := elems, other.elems, T.links;
      SwapRoots(m, root, s, other.root, t);
      SwapNodes(T, root, other.root, Own() + other.Own());
      RootsSwapped(m, T.links, root, s, other.root, t);
      var n := size;
      Resize(t, other.size);
      other.Resize(s, n);
    }

    method ReverseElements()
      requires Valid() && T.Valid()
      modifies this, T, T.links.Keys
      ensures T.Valid() && Valid() && elems == Reversed(old(elems)) && OnlyLinked(old(T.links), T.links, old(Own()))
    {
      Reverse(T, root, elems);
      ReversedSize(elems);
      elems := Reversed(elems);
    }

    method ShiftForward(n: nat)
      requires Valid() && T.Valid()
      modifies this, T, T.links.Keys
      ensures T.Valid() && Valid() && elems == ShiftedForward(old(elems), n)
        && OnlyLinked(old(T.links), T.links, old(Own()))
    {
      MoveBackwards(T, root, n, elems);
      ShiftedSize(elems, n);
      elems := ShiftedForward(elems, n);
    }

    method ShiftBackwards(n: nat)
      requires Valid() && T.Valid()
      modifies this, T, T.links.Keys
      ensures T.Valid() && Valid() && elems == ShiftedBackwards(old(elems), n)
        && OnlyLinked(old(T.links), T.links, old(Own()))
    {
      MoveForward(T, root, n, elems);
      ShiftedSize(elems, n);
      elems := ShiftedBackwards(elems, n);
    }
  }

  lemma Front(c: Seq, i: ListNode, w: Seq)
    ensures [] + c == c && [] + [i] + w == [i] + w && [] + [i] + c == [i] + c && [] + w == w
  {
  }

  lemma SplicedOne(m: LinkMap, h1: ListNode, a: Seq, c: Seq, h2: ListNode, x: Seq, y: ListNode, z: Seq)
    requires IsList(m, h1, a + c) && IsList(m, h2, x + [y] + z) && Disjoint(h1, a + c, h2, x + [y] + z)
    ensures var p, n := FirstOr(c, h1), FirstOr(z, h2);
      && p in m && y in m && n in m && m[y].next == n && m[n].previous == y && p != y && p != n && n != y
      && m[p].previous != null && m[y].previous != null && m[p].previous in m && m[y].previous in m
      && TransferredOne(m, p, y) == Transferred(m, p, y, n)
  {
    var r1, r2 := [h1] + (a + c), [h2] + (x + [y] + z);
    var j := 1 + |x|;
    assert r1 == ([h1] + a) + c && r2 == ([h2] + x) + [y] + z;
    var ip := if c == [] then 0 else 1 + |a|;
    assert r1[ip] == FirstOr(c, h1) && r2[j] == y && r2[NextIn(j, |r2|)] == FirstOr(z, h2);
    RingAt(m, r1, ip);
    RingAt(m, r2, j);
    RingAt(m, r2, NextIn(j, |r2|));
    assert r1[ip] in Members(r1) && r1[PreviousIn(ip, |r1|)] in Members(r1);
    assert r2[j] in Members(r2) && r2[NextIn(j, |r2|)] in Members(r2) && r2[PreviousIn(j, |r2|)] in Members(r2);
    OneIsRange(m, FirstOr(c, h1), y, FirstOr(z, h2));
  }

  lemma NodeAt(root: ListNode, s: Seq, i: nat)
    requires i <= |s|
    ensures FirstOr(s[i..], root) == ([root] + s)[if i < |s| then i + 1 else 0]
  {
  }

  /** Two positions are the same exactly if they are at the same node. */
  lemma SamePlace(m: LinkMap, root: ListNode, s: Seq, i: nat, j: nat)
    requires IsList(m, root, s) && i <= |s| && j <= |s|
    ensures FirstOr(s[i..], root) == FirstOr(s[j..], root) <==> i == j
  {
    var r := [root] + s;
    var a, b := if i < |s| then i + 1 else 0, if j < |s| then j + 1 else 0;
    NodeAt(root, s, i);
    NodeAt(root, s, j);
    if a < b {
      assert r[a] != r[b];
    } else if b < a {
      assert r[b] != r[a];
    }
  }

  /** What the links become when a range goes to another place of its list, or to its own end. */
  lemma RangeWithin(m: LinkMap, root: ListNode, s: Seq, i: nat, j: nat, k: nat)
    requires IsList(m, root, s) && i < j <= |s| && k <= |s| && (k < i || j <= k)
    ensures var p, b, e := FirstOr(s[k..], root), FirstOr(s[i..], root), FirstOr(s[j..], root);
      && p in m && b in m && e in m && b != e
      && m[p].previous != null && m[b].previous != null && m[e].previous != null
      && m[p].previous in m && m[b].previous in m && m[e].previous in m
      && var m', s' := Transferred(m, p, b, e), AfterSplice(s, i, j, k);
         && IsList(m', root, s') && OnlyLinked(m, m', Members([root] + s))
         && if k == j then Ring(m', s[i..j]) else Members([root] + s') == Members([root] + s)
  {
    assert s[i..][0] == s[i];
    if k == j {
      DroppedOut(m, root, s, i, j);
    } else {
      MovedInList(m, root, s, i, j, k, FirstOr(s[k..], root), s[i], FirstOr(s[j..], root), MovedWithin(s, i, j, k));
    }
  }

  lemma SplicedValid(m: LinkMap, root: ListNode, s: Seq, i: nat, j: nat, k: nat)
    requires IsList(m, root, s) && i <= j <= |s| && k <= |s| && (k < i || j <= k)
    ensures |AfterSplice(s, i, j, k)| == |s| <==>
      FirstOr(s[k..], root) != FirstOr(s[j..], root) || FirstOr(s[i..], root) == FirstOr(s[j..], root)
    ensures FirstOr(s[k..], root) == FirstOr(s[j..], root) <==> j == k
    ensures i == j ==> AfterSplice(s, i, j, k) == s
  {
    SamePlace(m, root, s, i, j);
    SamePlace(m, root, s, j, k);
    AfterSpliceSize(s, i, j, k);
  }

  method TransferRange(T: ListTraits, root: ListNode, p: ListNode, f: ListNode, e: ListNode, ghost s: Seq, ghost i: nat,
      ghost j: nat, ghost k: nat)
    requires T.Valid() && IsList(T.links, root, s) && i < j <= |s| && k <= |s| && (k < i || j <= k)
    requires p == FirstOr(s[k..], root) && f == FirstOr(s[i..], root) && e == FirstOr(s[j..], root)
    modifies T, T.links.Keys
    ensures T.Valid() && IsList(T.links, root, AfterSplice(s, i, j, k))
      && OnlyLinked(old(T.links), T.links, Members([root] + s))
    ensures if k == j then Ring(T.links, s[i..j]) else Members([root] + AfterSplice(s, i, j, k)) == Members([root] + s)
  {
    RangeWithin(T.links, root, s, i, j, k);
    Transfer(T, p, f, e);
  }

  lemma MovedSize(s: Seq, i: nat, j: nat, k: nat)
    requires i <= j <= |s| && k <= |s| && (k <= i || j <= k)
    ensures |MovedWithin(s, i, j, k)| == |s|
  {
  }

  /** In a ring, moving one node writes the links that moving it as a range writes. */
  lemma OneInRing(m: LinkMap, r: Seq, ip: nat, iy: nat)
    requires Ring(m, r) && ip < |r| && iy < |r|
    ensures var p, y, n := r[ip], r[iy], r[NextIn(iy, |r|)];
      && p in m && y in m && n in m && m[y].next == n && m[p].previous != null && m[y].previous != null
        && m[n].previous == y
      && m[p].previous in m && m[y].previous in m
      && (p != y && p != n ==> TransferredOne(m, p, y) == Transferred(m, p, y, n))
  {
    RingAt(m, r, ip);
    RingAt(m, r, iy);
    RingAt(m, r, NextIn(iy, |r|));
    RingAt(m, r, PreviousIn(ip, |r|));
    RingAt(m, r, PreviousIn(iy, |r|));
    if r[ip] != r[iy] && r[ip] != r[NextIn(iy, |r|)] {
      OneIsRange(m, r[ip], r[iy], r[NextIn(iy, |r|)]);
    }
  }

  lemma OnePlaces(m: LinkMap, root: ListNode, s: Seq, i: nat, k: nat)
    requires IsList(m, root, s) && i < |s| && k <= |s|
    ensures var p, y, n := FirstOr(s[k..], root), s[i], FirstOr(s[i + 1..], root);
      && p in m && y in m && n in m && m[y].next == n && m[p].previous != null && m[y].previous != null
        && m[n].previous == y
      && m[p].previous in m && m[y].previous in m && (p == y <==> k == i) && (p == n <==> k == i + 1)
      && (p != y && p != n ==> TransferredOne(m, p, y) == Transferred(m, p, y, n))
  {
    NodeAt(root, s, k);
    NodeAt(root, s, i);
    NodeAt(root, s, i + 1);
    OneInRing(m, [root] + s, if k < |s| then k + 1 else 0, i + 1);
    SamePlace(m, root, s, k, i);
    SamePlace(m, root, s, k, i + 1);
  }

  /** The same for given nodes and for the list that comes of it. */
  lemma OneMoved(m: LinkMap, root: ListNode, s: Seq, i: nat, k: nat, p: ListNode, y: ListNode, n: ListNode, s': Seq)
    requires IsList(m, root, s) && i < |s| && k <= |s| && k != i && k != i + 1
    requires p == FirstOr(s[k..], root) && y == s[i] && n == FirstOr(s[i + 1..], root)
    requires s' == MovedWithin(s, i, i + 1, k)
    ensures p in m && y in m && n in m && m[p].previous != null && m[y].previous != null && m[n].previous != null
    ensures m[p].previous in m && m[y].previous in m && m[n].previous in m
    ensures var m' := Transferred(m, p, y, n);
      IsList(m', root, s') && OnlyLinked(m, m', Members([root] + s)) && Members([root] + s') == Members([root] + s)
  {
    MovedInList(m, root, s, i, i + 1, k, p, y, n, s');
  }

  lemma OneTransferred(m: LinkMap, root: ListNode, s: Seq, i: nat, k: nat, p: ListNode, y: ListNode, n: ListNode)
    requires IsList(m, root, s) && i < |s| && k <= |s|
    requires p == FirstOr(s[k..], root) && y == s[i] && n == FirstOr(s[i + 1..], root)
    ensures p in m && y in m && n in m && m[y].next == n && m[p].previous != null && m[y].previous != null
    ensures m[n].previous == y && m[p].previous in m && m[y].previous in m
    ensures (p == y <==> k == i) && (p == n <==> k == i + 1)
    ensures p != y && p != n ==> TransferredOne(m, p, y) == Transferred(m, p, y, n)
  {
    OnePlaces(m, root, s, i, k);
  }

  method MoveOne(T: ListTraits, root: ListNode, p: ListNode, node: ListNode, ghost s: Seq, ghost i: nat, ghost k: nat)
      returns (ghost s': Seq)
    requires T.Valid() && IsList(T.links, root, s) && i < |s| && k <= |s| && node == s[i] && p == FirstOr(s[k..], root)
    modifies T, T.links.Keys
    ensures T.Valid() && IsList(T.links, root, s') && OnlyLinked(old(T.links), T.links, Members([root] + s))
    ensures |s'| == |s| && Members([root] + s') == Members([root] + s)
    ensures s' == if k == i || k == i + 1 then s else MovedWithin(s, i, i + 1, k)
    ensures k == i || k == i + 1 ==> T.links == old(T.links)
  {
    ghost var n: ListNode := FirstOr(s[i + 1..], root);
    s' := s;
    OneTransferred(T.links, root, s, i, k, p, node, n);
    if k != i && k != i + 1 {
      s' := MovedWithin(s, i, i + 1, k);
      OneMoved(T.links, root, s, i, k, p, node, n, s');
      MovedSize(s, i, i + 1, k);
    }
    TransferOne(T, p, node);
  }

  lemma ReversedSize(s: Seq)
    ensures |Reversed(s)| == |s|
  {
    if s != [] {
      ReversedAt(s, 0);
    }
  }

  lemma SwapRoots(m: LinkMap, h1: ListNode, s: Seq, h2: ListNode, t: Seq)
    requires IsList(m, h1, s) && IsList(m, h2, t) && Disjoint(h1, s, h2, t)
    ensures var d := Members([h1] + s) + Members([h2] + t); Settled(m, h1, d) && Settled(m, h2, d)
  {
    RingNode(m, [h1] + s, [h2] + t, 0);
    RingNode(m, [h2] + t, [h1] + s, 0);
    assert Members([h1] + s) + Members([h2] + t) == Members([h2] + t) + Members([h1] + s);
  }

  lemma TauOther(s: Seq, h1: ListNode, h2: ListNode)
    requires h1 !in s && h2 !in s
    ensures TauSeq([h1] + s, h1, h2) == [h2] + s
  {
    var t := TauSeq([h1] + s, h1, h2);
    forall i | 0 <= i < |t| ensures t[i] == ([h2] + s)[i] {
      if i > 0 {
        assert ([h1] + s)[i] == s[i - 1] && s[i - 1] in s;
      }
    }
  }

  lemma HeadsElsewhere(m: LinkMap, h1: ListNode, s: Seq, h2: ListNode, t: Seq)
    requires IsList(m, h1, s) && IsList(m, h2, t) && Disjoint(h1, s, h2, t)
    ensures h1 !in s && h2 !in s && h1 !in t && h2 !in t && h1 != h2
    ensures Members([h1] + t) + Members([h2] + s) == Members([h1] + s) + Members([h2] + t) && Disjoint(h1, t, h2, s)
  {
    AtHead(m, h1, s);
    AtHead(m, h2, t);
    HeadAndRest(h1, s);
    HeadAndRest(h2, t);
    HeadAndRest(h1, t);
    HeadAndRest(h2, s);
    HeadsApart(h1, Members(s), h2, Members(t));
  }

  lemma HeadAndRest(h: ListNode, s: Seq)
    ensures Members([h] + s) == {h} + Members(s) && forall x :: x in s <==> x in Members(s)
  {
    MembersConcat([h], s);
  }

  lemma HeadsApart(h1: ListNode, s: set<ListNode>, h2: ListNode, t: set<ListNode>)
    requires ({h1} + s) !! ({h2} + t) && h1 !in s && h2 !in t
    ensures h1 !in t && h2 !in s && h1 != h2
    ensures ({h1} + t) + ({h2} + s) == ({h1} + s) + ({h2} + t) && ({h1} + t) !! ({h2} + s)
  {
    assert h1 in {h1} + s && h2 in {h2} + t;
  }

  lemma RootsSwapped(m: LinkMap, m': LinkMap, h1: ListNode, s: Seq, h2: ListNode, t: Seq)
    requires IsList(m, h1, s) && IsList(m, h2, t) && Disjoint(h1, s, h2, t)
    requires Settled(m, h1, Members([h1] + s) + Members([h2] + t))
    requires Conjugated(m, m', h1, h2, Members([h1] + s) + Members([h2] + t))
    ensures IsList(m', h1, t) && IsList(m', h2, s) && OnlyLinked(m, m', Members([h1] + s) + Members([h2] + t))
    ensures Members([h1] + t) + Members([h2] + s) == Members([h1] + s) + Members([h2] + t) && Disjoint(h1, t, h2, s)
  {
    var d := Members([h1] + s) + Members([h2] + t);
    HeadsElsewhere(m, h1, s, h2, t);
    TauOther(s, h1, h2);
    TauOther(t, h2, h1);
    SwappedRing(m, m', [h1] + s, h1, h2, d);
    SwappedRing(m, m', [h2] + t, h1, h2, d);
    TauSame([h2] + t, h1, h2);
  }

  lemma TauSame(s: Seq, a: ListNode, b: ListNode)
    ensures TauSeq(s, a, b) == TauSeq(s, b, a)
  {
  }

  lemma RootOutside(m: LinkMap, root: ListNode, s: Seq)
    requires IsList(m, root, s)
    ensures root !in s && forall k :: 0 <= k <= |s| ==> (FirstOr(s[k..], root) == root <==> k == |s|)
  {
    AtHead(m, root, s);
    forall k | 0 <= k <= |s| ensures FirstOr(s[k..], root) == root <==> k == |s| {
      if k < |s| {
        assert s[k..][0] == s[k] && s[k] in s;
      }
    }
  }

  lemma SliceOfSlice(s: Seq, k: nat, j: nat)
    requires k <= j <= |s|
    ensures s[k..][j - k..] == s[j..] && s[..k] + s[k..][..j - k] == s[..j]
  {
  }

  lemma MergeSkipped(comp: Comp, s: Seq, x: Seq, k: nat, j: nat)
    requires k <= j <= |s| && x != [] && forall i :: k <= i < j ==> !comp(x[0].value, s[i].value)
    ensures s[..k] + Merge(comp, s[k..], x) == s[..j] + Merge(comp, s[j..], x)
  {
    MergeSkip(comp, s[k..], x, j - k);
    SliceOfSlice(s, k, j);
    Regroup(s[..k], s[k..][..j - k], Merge(comp, s[j..], x));
  }

  lemma MergeRest(comp: Comp, a: Seq, y: Seq)
    ensures a + Merge(comp, [], y) == a + y + []
    ensures (a + y)[..|a + y|] + Merge(comp, (a + y)[|a + y|..], []) == a + y
  {
  }

  lemma MergeTaken(comp: Comp, a: Seq, c: Seq, x: Seq, n: nat)
    requires n <= |x| && c != [] && forall i :: 0 <= i < n ==> comp(x[i].value, c[0].value)
    ensures x == [] + x[..n] + x[n..] && [] + x[n..] == x[n..] && [] + x[..n] == x[..n] && x[..n] + x[n..] == x
    ensures var s := a + x[..n] + c;
      s[..|a| + n] == a + x[..n] && s[|a| + n..] == c && a + Merge(comp, c, x) == a + x[..n] + Merge(comp, c, x[n..])
  {
    MergeTake(comp, c, x, n);
    SplitAt(x, n);
    Parts(a, x[..n], c);
    Regroup(a, x[..n], Merge(comp, c, x[n..]));
  }

  lemma SplitAt(x: Seq, n: nat)
    requires n <= |x|
    ensures x == [] + x[..n] + x[n..] && [] + x[n..] == x[n..] && [] + x[..n] == x[..n] && x[..n] + x[n..] == x
  {
  }

  lemma Parts(a: Seq, b: Seq, c: Seq)
    ensures (a + b + c)[..|a| + |b|] == a + b && (a + b + c)[|a| + |b|..] == c && a + (b + c) == a + b + c
  {
  }

  lemma NothingErased(m: LinkMap, root: ListNode, x: Seq, y: Seq, z: Seq)
    requires IsList(m, root, x + y + z) && FirstOr(y + z, root) == FirstOr(z, root)
    ensures y == [] && x + y + z == x + z
  {
    if y != [] {
      ErasedSeqs(root, x, y, z);
      Turned(m, [root] + x, y + z);
      NotSame(m, y, z + ([root] + x));
    }
  }

  lemma ErasedSeqs(root: ListNode, x: Seq, y: Seq, z: Seq)
    ensures [root] + (x + y + z) == ([root] + x) + (y + z) && (y + z) + ([root] + x) == y + (z + ([root] + x))
    ensures ([root] + x) + z == [root] + (x + z) && (z + ([root] + x))[0] == FirstOr(z, root)
    ensures y != [] ==> FirstOr(y + z, root) == y[0]
  {
  }

  lemma ErasedRing(m: LinkMap, root: ListNode, x: Seq, y: Seq, z: Seq)
    requires IsList(m, root, x + y + z) && FirstOr(y + z, root) != FirstOr(z, root)
    ensures var b, e := FirstOr(y + z, root), FirstOr(z, root);
      && y != [] && b == y[0] && b in m && e in m && m[b].previous != null && m[b].previous in m
      && var m' := RangeUnlinked(m, b, e);
         && IsList(m', root, x + z) && Chain(m', y) && LastOf(y) in m' && m'[LastOf(y)].next == e
         && OnlyLinked(m, m', Members([root] + (x + y + z)))
    ensures Unique(y) && FirstOr(z, root) !in y && Members(y) !! Members([root] + (x + z))
      && Members(y) <= Members([root] + (x + y + z))
  {
    assert y == [] ==> y + z == z;
    var from := z + ([root] + x);
    ErasedSeqs(root, x, y, z);
    Turned(m, [root] + x, y + z);
    MembersTurned([root] + x, y + z);
    UnlinkPiece(m, y, from);
    Turned(RangeUnlinked(m, y[0], from[0]), z, [root] + x);
    UniqueConcat(y, from);
    MembersConcat(y, from);
    MembersTurned(z, [root] + x);
    EndsIn(from);
    var e := from[0];
    assert e in y ==> e in Members(y);
  }

  /** Resets the nodes `y`, which are linked to each other and to `e`, and counts them. */
  method DisposeNodes(T: ListTraits, b: ListNode, e: ListNode, ghost y: Seq) returns (n: nat)
    requires T.Valid() && y != [] && Unique(y) && b == y[0] && e !in y
    requires Chain(T.links, y) && LastOf(y) in T.links && T.links[LastOf(y)].next == e
    modifies T, T.links.Keys
    ensures T.Valid() && OnlyLinked(old(T.links), T.links, Members(y)) && n == |y|
    ensures forall n <- y :: n in T.links && T.links[n] == Links(null, null)
  {
    ghost var m := T.links;
    var bp := b;
    n := 0;
    while bp != e
      invariant n <= |y| && T.Valid() && OnlyLinked(m, T.links, Members(y[..n])) && bp == FirstOr(y[n..], e)
      invariant forall j :: 0 <= j < n ==> y[j] in T.links && T.links[y[j]] == Links(null, null)
      decreases |y| - n
    {
      DisposeNext(m, T.links, y, e, n);
      var toErase := bp;
      bp := bp.next;
      Init(T, toErase);
      n := n + 1;
    }
    assert n == |y| && y[..n] == y;
  }

  lemma DisposeNext(m: LinkMap, m': LinkMap, y: Seq, e: ListNode, i: nat)
    requires Chain(m, y) && Unique(y) && i < |y| && LastOf(y) in m && m[LastOf(y)].next == e
      && OnlyLinked(m, m', Members(y[..i]))
    ensures y[i..][0] == y[i] && y[i] in m' && m'[y[i]].next == FirstOr(y[i + 1..], e)
      && Members(y[..i + 1]) == Members(y[..i]) + {y[i]}
  {
    assert y[i] !in Members(y[..i]);
    if i < |y| - 1 {
      assert Edge(m, y[i], y[i + 1]);
    }
    assert y[..i + 1] == y[..i] + [y[i]];
    MembersConcat(y[..i], [y[i]]);
  }

  lemma ErasedList(m: LinkMap, m': LinkMap, root: ListNode, x: Seq, y: Seq, z: Seq)
    requires IsList(m, root, x + z) && OnlyLinked(m, m', Members(y)) && Members(y) !! Members([root] + (x + z))
    ensures IsList(m', root, x + z)
  {
    forall n <- [root] + (x + z) ensures n in m ==> n in m' && m'[n] == m[n] {
      assert n in Members([root] + (x + z));
    }
    RingFrame(m, m', [root] + (x + z));
  }

  lemma PartitionedList(m: LinkMap, pred: P.Pred, root: ListNode, s: Seq)
    requires Ring(m, P.Outcome(pred, [root], s))
    ensures IsList(m, root, P.Partitioned(pred, s)) && |P.Partitioned(pred, s)| == |s|
  {
    var k := P.Tested(pred, s);
    var a, b := P.Chosen(pred, s[..k], P.Holds), P.Chosen(pred, s[..k], P.Fails);
    assert [root] + a + (b + s[k..]) == [root] + (a + b + s[k..]);
    P.ChosenSize(pred, s[..k]);
    P.NoneChosen(pred, s[..k]);
  }

  lemma PartitionedWhole(pred: P.Pred, s: Seq)
    requires P.Tested(pred, s) == |s|
    ensures P.Partitioned(pred, s) == [] + P.Chosen(pred, s, P.Holds) + P.Chosen(pred, s, P.Fails)
    ensures [] + P.Chosen(pred, s, P.Fails) == P.Chosen(pred, s, P.Fails)
    ensures [] + (P.Chosen(pred, s, P.Holds) + P.Chosen(pred, s, P.Fails)) == P.Partitioned(pred, s)
  {
    WholeAndNothing(s);
    NothingAround(P.Chosen(pred, s, P.Holds), P.Chosen(pred, s, P.Fails));
  }

  lemma WholeAndNothing(s: Seq)
    ensures s[..|s|] == s && s[|s|..] == []
  {
  }

  lemma NothingAround(y: Seq, z: Seq)
    ensures y + z + [] == [] + y + z && [] + z == z && [] + (y + z) == y + z + []
  {
  }

  lemma PartitionedOwn(pred: P.Pred, root: ListNode, s: Seq)
    ensures Members([root] + P.Partitioned(pred, s)) == Members([root] + s)
  {
    var k := P.Tested(pred, s);
    P.PartitionMembers(pred, [root], s, k);
    var a, b := P.Chosen(pred, s[..k], P.Holds), P.Chosen(pred, s[..k], P.Fails);
    assert [root] + a + (b + s[k..]) == [root] + (a + b + s[k..]);
  }

  lemma ShiftedSize(s: Seq, n: nat)
    ensures |ShiftedForward(s, n)| == |s| && |ShiftedBackwards(s, n)| == |s|
  {
  }
}
