/** The ordered container with a cached size (bstree.hpp), over red-black trees. */
module Container {
  import opened NodeTraits
  import opened Trees
  import opened TreeGraph
  import opened BstLinks
  import BstErase
  import C = Checker
  import Rebalance
  import opened RedBlack
  import opened Powers
  import opened RbTree
  import opened Order
  import opened Search
  import opened InsertChecks
  import opened Transfer
  import SelfMerge
  import opened Merging
  import opened Copies
  import opened Clone
  import opened Disposal

  /** `s` without the elements from position `i` up to position `j`. */
  ghost function Removed(s: seq<Node>, i: nat, j: nat): seq<Node>
    requires i <= j <= |s|
  {
    s[..i] + s[j..]
  }

  lemma RemovedSorted(comp: Comp, s: seq<Node>, i: nat, j: nat)
    requires i <= j <= |s| && Sorted(comp, s)
    ensures Sorted(comp, Removed(s, i, j)) && |Removed(s, i, j)| == |s| - (j - i)
    ensures Removed(s, i, j)[..i] == s[..i] && Removed(s, i, j)[i..] == s[j..]
  {
    var r := Removed(s, i, j);
    forall k | 0 <= k < |r| ensures r[k] == s[if k < i then k else k + j - i] {
    }
  }

  method EraseAndInit(T: Traits, h: Node, node: Node, ghost t: Tree, ghost i: nat) returns (ghost t': Tree)
    requires T.Valid() && IsRb(T.cells, h, t) && i < |InOrder(t)| && node == InOrder(t)[i]
    modifies T, T.cells.Keys
    ensures T.Valid() && IsRb(T.cells, h, t') && InOrder(t') == Removed(InOrder(t), i, i + 1)
    ensures {h} + Nodes(t') == {h} + Nodes(t) - {node} && OnlyChanged(old(T.cells), T.cells, {h} + Nodes(t))
    ensures node in T.cells && T.cells[node] == Cell(null, null, null, T.cells[node].red)
  {
    ghost var m0 := T.cells;
    t' := EraseAt(T, h, node, t, i);
    ResetOutside(m0, T.cells, h, t', node, {h} + Nodes(t));
    Init(T, node);
  }

  /** Resetting the links of a node that left the tree does not touch the tree. */
  lemma ResetOutside(m0: Cells, m: Cells, h: Node, t: Tree, node: Node, own: set<Node>)
    requires IsRb(m, h, t) && OnlyChanged(m0, m, own) && node in m && node in own && {h} + Nodes(t) == own - {node}
    ensures var m' := m[node := Cell(null, null, null, m[node].red)]; IsRb(m', h, t) && OnlyChanged(m0, m', own)
  {
    assert node !in Nodes(t) + {h};
    IsRbFrame(m, m[node := Cell(null, null, null, m[node].red)], h, t);
  }

  method EraseAt(T: Traits, h: Node, node: Node, ghost t: Tree, ghost i: nat) returns (ghost t': Tree)
    requires T.Valid() && IsRb(T.cells, h, t) && i < |InOrder(t)| && node == InOrder(t)[i]
    modifies T, T.cells.Keys
    ensures T.Valid() && IsRb(T.cells, h, t') && InOrder(t') == Removed(InOrder(t), i, i + 1)
    ensures {h} + Nodes(t') == {h} + Nodes(t) - {node} && OnlyChanged(old(T.cells), T.cells, {h} + Nodes(t))
    ensures node in T.cells && node in Nodes(t)
  {
    ghost var c, s := FocusAt(T.cells, h, t, i);
    ErasedHere(c, s);
    ZipPlug(T.cells, h, c, s);
    t' := RbErase(T, h, node, c, s);
  }

  lemma ErasedHere(c: Ctx, t: Tree)
    requires t.Bin?
    ensures var s, i := InOrder(Plug(c, t)), |Before(c, t)|; i < |s| && Removed(s, i, i + 1) == BstErase.Without(c, t)
  {
    AroundRoot(c, t);
  }

  /** As many comparisons as a search in a container of `n` elements makes at most: twice log2(n + 1) rounded down. */
  function Limit(n: nat): (k: nat)
    ensures k % 2 == 0 && Pow2(k / 2) <= n + 1 < Pow2(k / 2 + 1)
  {
    var f := FloorLog2(n + 1);
    assert 2 * f / 2 == f;
    2 * f
  }

  lemma OrderBound(t: Tree, n: nat, k: nat)
    requires RB(t) && n == |InOrder(t)| && k <= Height(t)
    ensures k <= Limit(n)
  {
    HeightBound(t);
    InOrderNodes(t);
  }

  class BsTree {
    const T: Traits
    const header: Node
    var comp: Comp
    var size: nat
    ghost var tree: Tree

    ghost predicate Valid()
      reads this, T
    {
      IsRb(T.cells, header, tree) && size == |InOrder(tree)| && StrictWeak(comp) && Sorted(comp, InOrder(tree))
    }

    /** The links lead from the header to the nodes of a finite tree, which may be anything else but a right one. */
    ghost predicate Reaching()
      reads this, T
    {
      header in T.cells && T.cells[header].parent == Root(tree) && Rebalance.Children(T.cells, tree)
      && header !in Nodes(tree) && StrictWeak(comp)
    }

    lemma ValidReaching()
      requires Valid()
      ensures Reaching()
    {
      Rebalance.LinkedChildren(T.cells, tree, header);
    }

    /** Checks the integrity of the container; false where an assertion fails. It passes on a valid container, and on
        another one only if some node has the same child on both sides, or the header is not red. */
    method Check() returns (ok: bool)
      requires T.Valid() && Reaching()
      ensures ok <==> C.WellFormed(T.cells, header, tree, comp) && size == |Elements()|
      ensures Valid() <==> ok && C.NoTwins(tree) && T.cells[header].red
    {
      var checkerReturn;
      ok, checkerReturn := C.Check(T, header, comp, tree);
      C.CheckedTree(T.cells, header, tree, comp);
      ok := ok && size == checkerReturn.nodeCount;
    }

    /** The elements in order. */
    ghost function Elements(): seq<Node>
      reads this
    {
      InOrder(tree)
    }

    /** The header and the nodes of the container. */
    ghost function Own(): set<Node>
      reads this
    {
      {header} + Nodes(tree)
    }

    constructor (T: Traits, comp: Comp)
      requires T.Valid() && StrictWeak(comp)
      modifies T
      ensures T.Valid() && Valid() && Elements() == [] && this.T == T && this.comp == comp
      ensures fresh(header) && T.cells.Keys == old(T.cells.Keys) + {header}
      ensures forall n <- old(T.cells) :: T.cells[n] == old(T.cells)[n]
    {
      var h := T.NewNode(0);
      InitHeader(T, h);
      this.T, this.header, this.comp, size, tree := T, h, comp, 0, Leaf;
    }

    /** The first element not less than the key, found with at most 2 log2(n + 1) comparisons. */
    method FindLower(key: int) returns (position: Node, ghost comparisons: nat, ghost c: Ctx)
      requires Valid() && T.Valid()
      ensures position == At(Elements(), LowerBound(comp, Elements(), key), header)
      ensures Plug(c, Leaf) == tree && |Pre(c)| == LowerBound(comp, Elements(), key)
      ensures comparisons == Depth(c) <= Limit(size)
    {
      position, comparisons, c := FindLowerBound(T, header, key, comp, tree);
      OrderBound(tree, size, comparisons);
    }

    /** The first element greater than the key. */
    method FindUpper(key: int) returns (position: Node, ghost comparisons: nat, ghost c: Ctx)
      requires Valid() && T.Valid()
      ensures position == At(Elements(), UpperBound(comp, Elements(), key), header)
      ensures Plug(c, Leaf) == tree && |Pre(c)| == UpperBound(comp, Elements(), key)
      ensures comparisons == Depth(c) <= Limit(size)
    {
      position, comparisons, c := FindUpperBound(T, header, key, comp, tree);
      OrderBound(tree, size, comparisons);
    }

    /** Links a node in where a check found its place, and counts it. */
    method InsertUniqueCommit(value: Node, data: CommitData, ghost c: Ctx) returns (position: Node)
      requires Valid() && T.Valid() && value in T.cells && value !in Own()
      requires HoleAt(header, tree, data, c, |Pre(c)|)
      requires LowerBound(comp, Elements(), value.key) <= |Pre(c)| <= UpperBound(comp, Elements(), value.key)
      modifies this, T, T.cells.Keys
      ensures T.Valid() && Valid() && comp == old(comp) && |Pre(c)| <= |old(Elements())|
        && Elements() == old(Elements())[..|Pre(c)|] + [value] + old(Elements())[|Pre(c)|..]
      ensures position == value && Own() == old(Own()) + {value} && OnlyChanged(old(T.cells), T.cells, Own())
    {
      ghost var t := InsertAt(T, header, value, data, comp, tree, c);
      Resize(t, size + 1);
      position := value;
    }

    /** Inserts a node unless there is an equivalent one. If there is, nothing is written and the last such is
        returned. */
    method InsertUnique(value: Node) returns (position: Node, inserted: bool)
      requires Valid() && T.Valid() && value in T.cells && value !in Own()
      modifies this, T, T.cells.Keys
      ensures T.Valid() && Valid() && comp == old(comp)
      ensures inserted <==> Absent(comp, old(Elements()), value.key)
      ensures var s, u := old(Elements()), UpperBound(comp, old(Elements()), value.key);
        if inserted then Elements() == s[..u] + [value] + s[u..] && position == value
        else Elements() == s && T.cells == old(T.cells) && 0 < u && position == s[u - 1]
             && Equivalent(comp, position.key, value.key)
      ensures Own() == old(Own()) + (if inserted then {value} else {}) && OnlyChanged(old(T.cells), T.cells, Own())
    {
      EqualRangeExact(comp, Elements(), value.key);
      ghost var c;
      var prev, data;
      prev, inserted, data, c := InsertUniqueCheck(T, header, value.key, comp, CommitData(false, null), tree);
      if inserted {
        position := InsertUniqueCommit(value, data, c);
      } else {
        position := prev;
      }
    }

    /** Whatever the hint, the outcome is that of the insertion without one. */
    method InsertUniqueHint(hint: Node, value: Node, ghost i: nat) returns (position: Node)
      requires Valid() && T.Valid() && value in T.cells && value !in Own()
      requires i <= |Elements()| && hint == At(Elements(), i, header)
      modifies this, T, T.cells.Keys
      ensures T.Valid() && Valid() && comp == old(comp)
      ensures var s, u := old(Elements()), UpperBound(comp, old(Elements()), value.key);
        if Absent(comp, s, value.key) then Elements() == s[..u] + [value] + s[u..] && position == value
        else Elements() == s && T.cells == old(T.cells) && 0 < u && position == s[u - 1]
             && Equivalent(comp, position.key, value.key)
      ensures Own() == old(Own()) + (if Absent(comp, old(Elements()), value.key) then {value} else {})
      ensures OnlyChanged(old(T.cells), T.cells, Own())
    {
      EqualRangeExact(comp, Elements(), value.key);
      ghost var c;
      var prev, notPresent, data;
      prev, notPresent, data,
        c := InsertUniqueCheckHint(T, header, hint, value.key, comp, CommitData(false, null), tree, i);
      if notPresent {
        position := InsertUniqueCommit(value, data, c);
      } else {
        position := prev;
      }
    }

    /** A new element goes after all equivalent ones. */
    method InsertEqual(value: Node) returns (position: Node)
      requires Valid() && T.Valid() && value in T.cells && value !in Own()
      modifies this, T, T.cells.Keys
      ensures T.Valid() && Valid() && comp == old(comp) && position == value
      ensures var s, u := old(Elements()), UpperBound(comp, old(Elements()), value.key);
        Elements() == s[..u] + [value] + s[u..]
      ensures Own() == old(Own()) + {value} && OnlyChanged(old(T.cells), T.cells, Own())
    {
      EqualRangeExact(comp, Elements(), value.key);
      var data;
      ghost var c;
      data, c := InsertEqualUpperBoundCheck(T, header, value.key, comp, tree);
      position := InsertUniqueCommit(value, data, c);
    }

    /** With a hint a new element goes just before it, or, where the order forbids that, as close to it as it allows. */
    method InsertEqualHint(hint: Node, value: Node, ghost i: nat) returns (position: Node, ghost k: nat)
      requires Valid() && T.Valid() && value in T.cells && value !in Own()
      requires i <= |Elements()| && hint == At(Elements(), i, header)
      modifies this, T, T.cells.Keys
      ensures T.Valid() && Valid() && comp == old(comp) && position == value
      ensures var l, u := LowerBound(comp, old(Elements()), value.key), UpperBound(comp, old(Elements()), value.key);
        k == if i < l then l else if u < i then u else i
      ensures k <= |old(Elements())| && Elements() == old(Elements())[..k] + [value] + old(Elements())[k..]
      ensures Own() == old(Own()) + {value} && OnlyChanged(old(T.cells), T.cells, Own())
    {
      EqualRangeExact(comp, Elements(), value.key);
      var data;
      ghost var c;
      data, c := InsertEqualCheck(T, header, hint, value.key, comp, tree, i);
      k := |Pre(c)|;
      position := InsertUniqueCommit(value, data, c);
    }

    /** Erases the element at position `i`, resets its links, and returns the element after it. */
    method Erase(node: Node, ghost i: nat) returns (next: Node)
      requires Valid() && T.Valid() && i < |Elements()| && node == Elements()[i]
      modifies this, T, T.cells.Keys
      ensures T.Valid() && Valid() && comp == old(comp)
      ensures Elements() == old(Elements())[..i] + old(Elements())[i + 1..]
      ensures next == At(Elements(), i, header) == At(old(Elements()), i + 1, header)
      ensures Own() == old(Own()) - {node} && OnlyChanged(old(T.cells), T.cells, old(Own()))
      ensures node in T.cells && T.cells[node] == Cell(null, null, null, T.cells[node].red)
    {
      next := Next(T, header, node, tree, i);
      RemovedSorted(comp, Elements(), i, i + 1);
      ghost var t := EraseAndInit(T, header, node, tree, i);
      Resize(t, size - 1);
    }

    method EraseAfter(node: Node, ghost s0: seq<Node>, ghost i: nat, ghost k: nat) returns (next: Node, ghost k': nat)
      requires Valid() && T.Valid() && i <= k < |s0| && node == s0[k] && Elements() == Removed(s0, i, k)
      modifies this, T, T.cells.Keys
      ensures k' == k + 1 && T.Valid() && Valid() && comp == old(comp) && Elements() == Removed(s0, i, k')
      ensures next == At(Elements(), i, header) == At(s0, k', header)
      ensures Own() == old(Own()) - {node} && OnlyChanged(old(T.cells), T.cells, old(Own()))
      ensures node in T.cells && Inited(T.cells[node])
    {
      RemovedMore(s0, i, k);
      next := Erase(node, i);
      k' := k + 1;
    }

    /** Of the elements `s0`, those from `i` up to `k` are gone; now the one at `k` goes too. */
    method EraseStep(node: Node, ghost s0: seq<Node>, ghost i: nat, ghost k: nat, ghost m0: Cells, ghost own: set<Node>)
        returns (next: Node, ghost k': nat)
      requires Valid() && T.Valid() && i <= k < |s0| && node == s0[k] && Elements() == Removed(s0, i, k)
      requires Own() <= own && OnlyChanged(m0, T.cells, own) && Out(T.cells, s0, i, k, Own())
      modifies this, T, T.cells.Keys
      ensures k' == k + 1 && T.Valid() && Valid() && comp == old(comp) && Elements() == Removed(s0, i, k')
      ensures next == At(Elements(), i, header) == At(s0, k', header)
      ensures Own() <= own && OnlyChanged(m0, T.cells, own) && Out(T.cells, s0, i, k', Own())
    {
      ghost var m, o := T.cells, Own();
      next, k' := EraseAfter(node, s0, i, k);
      OutMore(m0, m, T.cells, s0, i, k, own, o, Own());
    }

    /** Erases the elements from position `i` up to position `j`, and resets their links. */
    method EraseRange(b: Node, e: Node, ghost i: nat, ghost j: nat) returns (next: Node, n: nat)
      requires Valid() && T.Valid() && i <= j <= |Elements()|
      requires b == At(Elements(), i, header) && e == At(Elements(), j, header)
      modifies this, T, T.cells.Keys
      ensures T.Valid() && Valid() && comp == old(comp)
      ensures Elements() == old(Elements())[..i] + old(Elements())[j..]
      ensures next == e == At(Elements(), i, header) && n == j - i
      ensures forall n <- old(Elements())[i..j] ::
        n in T.cells && T.cells[n] == Cell(null, null, null, T.cells[n].red)
      ensures Own() <= old(Own()) && OnlyChanged(old(T.cells), T.cells, old(Own()))
    {
      ghost var s0, m0, own := Elements(), T.cells, Own();
      InOrderNoDup(tree);
      InOrderNodes(tree);
      n := 0;
      next := b;
      ghost var k: nat := i;
      while next != e
        invariant T.Valid() && Valid() && comp == old(comp) && k == i + n && k <= j && Elements() == Removed(s0, i, k)
        invariant next == At(s0, k, header) && next == At(Elements(), i, header)
        invariant Own() <= own && OnlyChanged(m0, T.cells, own) && Out(T.cells, s0, i, k, Own())
        decreases j - k
      {
        assert k < j;
        next, k := EraseStep(next, s0, i, k, m0, own);
        n := n + 1;
      }
      RangeDone(s0, k, j, header);
      OutInit(T.cells, s0, i, j, Own());
    }

    /** Erases all elements equivalent to the key, resets their links, and returns how many there were. */
    method EraseKey(key: int) returns (n: nat)
      requires Valid() && T.Valid()
      modifies this, T, T.cells.Keys
      ensures T.Valid() && Valid() && comp == old(comp) && n == Equivalents(comp, old(Elements()), key)
      ensures LowerBound(comp, old(Elements()), key) <= UpperBound(comp, old(Elements()), key) <= |old(Elements())|
      ensures var s := old(Elements());
        var l, u := LowerBound(comp, s, key), UpperBound(comp, s, key);
        Elements() == s[..l] + s[u..]
        && forall n <- s[l..u] :: n in T.cells && T.cells[n] == Cell(null, null, null, T.cells[n].red)
      ensures Absent(comp, Elements(), key)
      ensures OnlyChanged(old(T.cells), T.cells, old(Own()))
    {
      ghost var s0, l, u := Elements(), LowerBound(comp, Elements(), key), UpperBound(comp, Elements(), key);
      var first, second := EqualRange(T, header, key, comp, tree);
      EqualRangeExact(comp, s0, key);
      EquivalentsBetween(comp, s0, key, l, u);
      var next;
      next, n := EraseRange(first, second, l, u);
      RemovedAbsent(comp, s0, key, l, u);
    }

    /** The two containers share the node traits but no node. */
    ghost predicate Apart(source: BsTree)
      reads this, source
    {
      source != this && source.T == T && Separate(header, tree, source.header, source.tree)
    }

    /** The tree below the header has become `t`, with `n` elements. */
    method Resize(ghost t: Tree, n: nat)
      requires T.Valid() && IsRb(T.cells, header, t) && n == |InOrder(t)| && StrictWeak(comp)
        && Sorted(comp, InOrder(t))
      modifies this
      ensures T.Valid() && Valid() && comp == old(comp) && tree == t
    {
      tree, size := t, n;
    }

    /** Offered to itself, no element moves. */
    method MergeUniqueItself()
      requires Valid() && T.Valid()
      modifies this, T, T.cells.Keys
      ensures T.Valid() && Valid() && comp == old(comp) && tree == old(tree) && size == old(size)
        && T.cells == old(T.cells)
    {
      var moved := VisitItself(T, header, comp, tree);
      size := size - moved;
      size := size + moved;
    }

    /** The last visit of a container merged into itself. The element is lost, but still counted. The visit of the only
        element fails. */
    method MergeEqualLast(p: Node) returns (it: Node, ok: bool)
      requires Valid() && T.Valid() && Elements() != [] && p == Elements()[|Elements()| - 1]
      modifies this, T, T.cells.Keys
      ensures T.Valid() && it == header && comp == old(comp) && (ok <==> 1 < |old(Elements())|)
      ensures IsRb(T.cells, header, tree) && Elements() == old(Elements())[..|old(Elements())| - 1]
      ensures OnlyChanged(old(T.cells), T.cells, old(Own())) && p in T.cells && T.cells[p].parent == p
      ensures size == old(size) == |Elements()| + 1 && !Valid()
    {
      it := Next(T, header, p, tree, size - 1);
      ok, tree := SelfMerge.TransferLast(T, header, comp, p, tree);
      if ok {
        size := size - 1;
        size := size + 1;
      }
    }

    /** Disposes of all elements. */
    method ClearAndDisposeAll() returns (disposed: seq<Node>)
      requires Valid() && T.Valid()
      modifies this, T, T.cells.Keys
      ensures T.Valid() && Valid() && comp == old(comp) && tree == Leaf && disposed == old(Elements())
      ensures OnlyChanged(old(T.cells), T.cells, old(Own()))
      ensures forall n <- disposed :: n in T.cells && T.cells[n] == Cell(null, null, null, old(T.cells)[n].red)
    {
      disposed := ClearTree(T, header, tree);
      TakeOver(Leaf, 0, comp);
    }

    /** Disposes of all elements and then copies the elements of `src`. The order is only copied if there is any. */
    method CloneFrom(src: BsTree) returns (disposed: seq<Node>)
      requires Valid() && src.Valid() && T.Valid() && Apart(src)
      modifies this, T, T.cells.Keys
      ensures T.Valid() && Valid() && src.Valid() && Apart(src) && disposed == old(Elements())
      ensures Copy(src.tree, tree) && size == src.size && comp == if src.Elements() == [] then old(comp) else src.comp
      ensures forall n <- disposed ::
        n in old(T.cells) && n in T.cells && T.cells[n] == Cell(null, null, null, old(T.cells)[n].red)
      ensures Grown(old(T.cells) - old(Own()), T.cells) && Nodes(tree) !! old(T.cells.Keys)
    {
      ghost var m, own := T.cells, Own();
      ElemsInOrder(tree);
      disposed := ClearAndDisposeAll();
      ghost var m1 := T.cells;
      IsRbFrame(m, m1, src.header, src.tree);
      if src.size != 0 {
        CopyElements(src);
      }
      StillReset(m, m1, T.cells, header, disposed, own);
    }

    /** Copies elements into the empty container. */
    method CopyElements(src: BsTree)
      requires Valid() && src.Valid() && T.Valid() && Apart(src) && tree == Leaf && src.size != 0
      modifies this, T, T.cells.Keys
      ensures T.Valid() && Valid() && src.Valid() && Apart(src) && Copy(src.tree, tree)
      ensures size == src.size && comp == src.comp && Grown(old(T.cells) - {header}, T.cells)
      ensures Nodes(tree) !! old(T.cells.Keys)
    {
      ghost var s := CloneTo(T, src.header, header, src.tree, src.comp);
      TakeOver(s, src.size, src.comp);
    }

    /** The tree below the header has become `t`, with `n` elements sorted by `c`. */
    method TakeOver(ghost t: Tree, n: nat, c: Comp)
      requires T.Valid() && IsRb(T.cells, header, t) && n == |InOrder(t)| && StrictWeak(c) && Sorted(c, InOrder(t))
      modifies this
      ensures T.Valid() && Valid() && tree == t && comp == c && size == n
    {
      tree, size, comp := t, n, c;
    }

    /** Takes the first remaining element out of a container that is being taken apart. */
    method UnlinkLeftmost(ghost c: Ctx) returns (node: Node?, ghost c': Ctx)
      requires T.Valid() && Remainder(T.cells, header, c) && size == |Post(c)|
      modifies this, T, T.cells.Keys
      ensures T.Valid() && Remainder(T.cells, header, c') && size == |Post(c')| && comp == old(comp)
        && tree == old(tree)
      ensures if c.Top? then node == null && c' == Top
              else node == c.n && Post(c) == [c.n] + Post(c') && CNodes(c') == CNodes(c) - {c.n}
                   && node in T.cells && T.cells[node] == Cell(null, null, null, T.cells[node].red)
      ensures OnlyChanged(old(T.cells), T.cells, {header} + CNodes(c)) && header in T.cells
        && T.cells[header].red == old(T.cells)[header].red
    {
      node, c' := UnlinkAndInit(T, header, c);
      if node != null {
        size := size - 1;
      }
    }

    /** The same in the course of taking the tree `t0` apart. */
    method UnlinkNext(ghost c: Ctx, ghost m0: Cells, ghost t0: Tree, unlinked: seq<Node>)
        returns (more: bool, unlinked': seq<Node>, ghost c': Ctx)
      requires T.Valid() && Unlinking(m0, T.cells, header, t0, unlinked, c) && size == |Post(c)| && header in T.cells
        && T.cells[header].red
      modifies this, T, T.cells.Keys
      ensures T.Valid() && Unlinking(m0, T.cells, header, t0, unlinked', c') && size == |Post(c')| && comp == old(comp)
      ensures header in T.cells && T.cells[header].red && T.cells.Keys == old(T.cells.Keys)
      ensures if more then |Post(c')| < |Post(c)| else c'.Top? && unlinked' == unlinked
    {
      ghost var m := T.cells;
      var node;
      node, c' := UnlinkLeftmost(c);
      more, unlinked' := node != null, unlinked;
      if node != null {
        UnlinkingStep(m0, m, T.cells, header, t0, unlinked, c, c');
        unlinked' := unlinked + [node];
      } else {
        UnlinkingOver(m0, m, T.cells, header, t0, unlinked, c);
      }
    }

    /** Repeated until nothing is left: every element comes out exactly once, in order, and reset, and the size is
        right. */
    method UnlinkAll() returns (unlinked: seq<Node>)
      requires Valid() && T.Valid()
      modifies this, T, T.cells.Keys
      ensures T.Valid() && Valid() && comp == old(comp) && unlinked == old(Elements()) && tree == Leaf
      ensures OnlyChanged(old(T.cells), T.cells, old(Own()))
      ensures forall n <- unlinked :: n in T.cells && T.cells[n] == Cell(null, null, null, T.cells[n].red)
    {
      ghost var m0, t0 := T.cells, tree;
      unlinked := UnlinkRest(Down(Top, t0), t0);
      UnlinkedAll(m0, T.cells, header, t0, unlinked);
      TakeOver(Leaf, 0, comp);
    }

    method UnlinkRest(ghost c0: Ctx, ghost t0: Tree) returns (unlinked: seq<Node>)
      requires T.Valid() && IsTree(T.cells, header, t0) && c0 == Down(Top, t0) && size == |InOrder(t0)|
        && T.cells[header].red
      modifies this, T, T.cells.Keys
      ensures T.Valid() && Unlinking(old(T.cells), T.cells, header, t0, unlinked, Top) && size == 0 && comp == old(comp)
      ensures header in T.cells && T.cells[header].red
    {
      ghost var m0, c := T.cells, c0;
      var more := true;
      unlinked := [];
      UnlinkingStart(m0, header, t0);
      while more
        invariant T.Valid() && Unlinking(m0, T.cells, header, t0, unlinked, c) && size == |Post(c)| && comp == old(comp)
        invariant header in T.cells && T.cells[header].red && T.cells.Keys == m0.Keys && (!more ==> c.Top?)
        decreases more, |Post(c)|
      {
        more, unlinked, c := UnlinkNext(c, m0, t0, unlinked);
      }
    }

    /** Offers the element at position `i` of `source` to this container. */
    method TakeUnique(source: BsTree, p: Node, ghost i: nat)
      requires Valid() && source.Valid() && T.Valid() && Apart(source) && i < |source.Elements()|
        && p == source.Elements()[i]
      modifies this, source, T, T.cells.Keys
      ensures comp == old(comp) && source.comp == old(source.comp)
      ensures T.Valid() && Valid() && source.Valid() && Apart(source)
      ensures Elements() == WithUnique(comp, old(Elements()), p)
      ensures source.Elements() == if Absent(comp, old(Elements()), p.key)
        then Removed(old(source.Elements()), i, i + 1) else old(source.Elements())
      ensures Own() + source.Own() == old(Own() + source.Own())
        && OnlyChanged(old(T.cells), T.cells, old(Own() + source.Own()))
    {
      TakenSorted(comp, Elements(), p, source.comp, source.Elements(), i);
      var transferred;
      ghost var t', s';
      transferred, t', s' := TransferUnique(T, header, comp, source.header, p, tree, source.tree, i);
      if transferred {
        source.Resize(s', source.size - 1);
        Resize(t', size + 1);
      }
    }

    method TakeEqual(source: BsTree, p: Node, ghost i: nat)
      requires Valid() && source.Valid() && T.Valid() && Apart(source) && i < |source.Elements()|
        && p == source.Elements()[i]
      modifies this, source, T, T.cells.Keys
      ensures comp == old(comp) && source.comp == old(source.comp)
      ensures T.Valid() && Valid() && source.Valid() && Apart(source)
      ensures Elements() == WithEqual(comp, old(Elements()), p)
        && source.Elements() == Removed(old(source.Elements()), i, i + 1)
      ensures Own() + source.Own() == old(Own() + source.Own())
        && OnlyChanged(old(T.cells), T.cells, old(Own() + source.Own()))
    {
      TakenSorted(comp, Elements(), p, source.comp, source.Elements(), i);
      ghost var t', s' := TransferEqual(T, header, comp, source.header, p, tree, source.tree, i);
      source.Resize(s', source.size - 1);
      Resize(t', size + 1);
    }

    /** Visits the first of the elements `rest` in the course of a merge. */
    method VisitUnique(source: BsTree, p: Node, ghost t0: seq<Node>, ghost s0: seq<Node>, ghost kept: seq<Node>,
        ghost rest: seq<Node>,
        ghost m0: Cells, ghost own: set<Node>)
        returns (it: Node, ghost kept': seq<Node>, ghost rest': seq<Node>)
      requires Valid() && source.Valid() && T.Valid() && Apart(source) && source.Elements() == kept + rest
      requires rest != [] && p == rest[0] && Visiting(comp, t0, s0, Elements(), kept, rest)
      requires Own() + source.Own() == own && OnlyChanged(m0, T.cells, own)
      modifies this, source, T, T.cells.Keys
      ensures comp == old(comp) && source.comp == old(source.comp)
      ensures T.Valid() && Valid() && source.Valid() && Apart(source) && source.Elements() == kept' + rest'
      ensures rest' == rest[1..] && Visiting(comp, t0, s0, Elements(), kept', rest')
        && it == First(rest', source.header)
      ensures Own() + source.Own() == own && OnlyChanged(m0, T.cells, own)
    {
      VisitStep(comp, t0, s0, Elements(), kept, rest);
      NextOfRest(source.header, source.tree, kept, rest);
      it := Next(T, source.header, p, source.tree, |kept|);
      kept', rest' := Kept(comp, Elements(), kept, rest[0]), rest[1..];
      TakeUnique(source, p, |kept|);
    }

    /** Moves every element of `source` whose key is not yet present here. */
    method MergeUnique(source: BsTree)
      requires Valid() && source.Valid() && T.Valid() && Apart(source)
      modifies this, source, T, T.cells.Keys
      ensures comp == old(comp) && source.comp == old(source.comp)
      ensures T.Valid() && Valid() && source.Valid() && Apart(source)
      ensures Elements() == UniqueTarget(comp, old(Elements()), old(source.Elements()))
      ensures source.Elements() == UniqueRest(comp, old(Elements()), old(source.Elements()))
      ensures Own() + source.Own() == old(Own() + source.Own())
        && OnlyChanged(old(T.cells), T.cells, old(Own() + source.Own()))
    {
      ghost var m0, own, t0, s0 := T.cells, Own() + source.Own(), Elements(), source.Elements();
      ghost var kept: seq<Node>, rest: seq<Node> := [], s0;
      var it, itend := source.header.left, source.header;
      while it != itend
        invariant T.Valid() && Valid() && source.Valid() && Apart(source) && comp == old(comp)
          && source.comp == old(source.comp)
        invariant source.Elements() == kept + rest && it == First(rest, itend)
        invariant Visiting(comp, t0, s0, Elements(), kept, rest)
        invariant Own() + source.Own() == own && OnlyChanged(m0, T.cells, own)
        decreases |rest|
      {
        FirstLeft(rest, itend);
        it, kept, rest := VisitUnique(source, it, t0, s0, kept, rest, m0, own);
      }
      Visited(source.header, source.tree, kept, rest);
    }

    /** Moves every element of `source`, behind the equivalent ones here. */
    method MergeEqual(source: BsTree)
      requires Valid() && source.Valid() && T.Valid() && Apart(source)
      modifies this, source, T, T.cells.Keys
      ensures comp == old(comp) && source.comp == old(source.comp)
      ensures T.Valid() && Valid() && source.Valid() && Apart(source)
      ensures Elements() == EqualTarget(comp, old(Elements()), old(source.Elements())) && source.Elements() == []
      ensures Own() + source.Own() == old(Own() + source.Own())
        && OnlyChanged(old(T.cells), T.cells, old(Own() + source.Own()))
    {
      ghost var m0, own, t0, s0 := T.cells, Own() + source.Own(), Elements(), source.Elements();
      ghost var rest: seq<Node> := s0;
      var it, itend := source.header.left, source.header;
      while it != itend
        invariant T.Valid() && Valid() && source.Valid() && Apart(source) && comp == old(comp)
          && source.comp == old(source.comp)
        invariant source.Elements() == rest && it == First(rest, itend)
        invariant EqualTarget(comp, Elements(), rest) == EqualTarget(comp, t0, s0)
        invariant Own() + source.Own() == own && OnlyChanged(m0, T.cells, own)
        decreases |rest|
      {
        FirstLeft(rest, itend);
        it, rest := VisitEqual(source, it, rest, m0, own);
      }
      VisitedAll(source.header, source.tree, rest);
    }

    method VisitEqual(source: BsTree, p: Node, ghost rest: seq<Node>, ghost m0: Cells, ghost own: set<Node>)
        returns (it: Node, ghost rest': seq<Node>)
      requires Valid() && source.Valid() && T.Valid() && Apart(source) && source.Elements() == rest
      requires rest != [] && p == rest[0] && Own() + source.Own() == own && OnlyChanged(m0, T.cells, own)
      modifies this, source, T, T.cells.Keys
      ensures comp == old(comp) && source.comp == old(source.comp)
      ensures T.Valid() && Valid() && source.Valid() && Apart(source) && source.Elements() == rest' == rest[1..]
      ensures it == First(rest', source.header)
      ensures EqualTarget(comp, Elements(), rest') == EqualTarget(comp, old(Elements()), rest)
      ensures Own() + source.Own() == own && OnlyChanged(m0, T.cells, own)
    {
      rest' := rest[1..];
      EqualStep(comp, Elements(), source.Elements(), rest);
      NextOfFirst(source.header, source.tree, rest);
      it := Next(T, source.header, p, source.tree, 0);
      TakeEqual(source, p, 0);
    }
  }

  /** The visit of a merge, with one and the same tree as the source and the target: returns how many nodes moved. */
  method VisitItself(T: Traits, h: Node, comp: Comp, ghost t: Tree) returns (moved: int)
    requires T.Valid() && IsRb(T.cells, h, t) && StrictWeak(comp) && Sorted(comp, InOrder(t))
    ensures moved == 0
  {
    ghost var k: nat := 0;
    var it, itend := h.left, h;
    moved := 0;
    while it != itend
      invariant k <= |InOrder(t)| && it == At(InOrder(t), k, h) && moved == 0
      decreases |InOrder(t)| - k
    {
      var p: Node := it;
      it := Next(T, h, p, t, k);
      var transferred := OfferToItself(T, h, comp, p, t);
      if transferred {
        moved := moved + 1;
      }
      k := k + 1;
    }
  }

  method ClearTree(T: Traits, h: Node, ghost t: Tree) returns (disposed: seq<Node>)
    requires T.Valid() && IsRb(T.cells, h, t)
    modifies T, T.cells.Keys
    ensures T.Valid() && IsRb(T.cells, h, Leaf) && disposed == InOrder(t)
    ensures OnlyChanged(old(T.cells), T.cells, {h} + Nodes(t)) && Reset(old(T.cells), T.cells, disposed)
  {
    disposed := ClearAndDispose(T, h, t);
    ElemsInOrder(t);
    assert h !in Elems(disposed);
    InitHeader(T, h);
  }

  /** Clones the tree of `h1` into the empty tree of `h2`. */
  method CloneTo(T: Traits, h1: Node, h2: Node, ghost t: Tree, ghost comp: Comp) returns (ghost s: Tree)
    requires T.Valid() && IsRb(T.cells, h1, t) && IsRb(T.cells, h2, Leaf) && Separate(h2, Leaf, h1, t)
      && InOrder(t) != [] && Sorted(comp, InOrder(t))
    modifies T, T.cells.Keys
    ensures T.Valid() && IsRb(T.cells, h1, t) && IsRb(T.cells, h2, s) && Separate(h2, s, h1, t)
    ensures Copy(t, s) && |InOrder(s)| == |InOrder(t)| && Sorted(comp, InOrder(s))
    ensures Grown(old(T.cells) - {h2}, T.cells) && Nodes(s) !! old(T.cells.Keys)
  {
    LinkedIn(T.cells, t, h1);
    var none;
    none, s := RbClone(T, h1, h2, t, Leaf);
    CopyOrder(t, s);
  }

  /** Both orders stay sorted when an element of one is taken into the other. */
  lemma TakenSorted(comp: Comp, t: seq<Node>, n: Node, comp': Comp, s: seq<Node>, i: nat)
    requires StrictWeak(comp) && Sorted(comp, t) && Sorted(comp', s) && i < |s|
    ensures UpperBound(comp, t, n.key) <= |t| && Sorted(comp, WithEqual(comp, t, n))
      && |WithEqual(comp, t, n)| == |t| + 1
    ensures Sorted(comp', Removed(s, i, i + 1)) && |Removed(s, i, i + 1)| == |s| - 1
  {
    EqualRangeExact(comp, t, n.key);
    InsertedKeepsSorted(comp, t, UpperBound(comp, t, n.key), n);
    RemovedSorted(comp', s, i, i + 1);
  }

  /** The iterator stands on the first of the elements still to be visited. */
  lemma EqualStep(comp: Comp, t: seq<Node>, s: seq<Node>, rest: seq<Node>)
    requires rest != [] && s == rest
    ensures EqualTarget(comp, WithEqual(comp, t, rest[0]), rest[1..]) == EqualTarget(comp, t, rest)
    ensures Removed(s, 0, 1) == rest[1..] && s[0] == rest[0]
  {
  }

  lemma FirstLeft(rest: seq<Node>, h: Node)
    requires First(rest, h) != h
    ensures rest != [] && First(rest, h) == rest[0]
  {
  }

  lemma NextOfRest(h: Node, t: Tree, kept: seq<Node>, rest: seq<Node>)
    requires InOrder(t) == kept + rest && rest != []
    ensures |kept| < |InOrder(t)| && InOrder(t)[|kept|] == rest[0]
    ensures At(InOrder(t), |kept| + 1, h) == First(rest[1..], h)
  {
  }

  lemma NextOfFirst(h: Node, t: Tree, rest: seq<Node>)
    requires InOrder(t) == rest && rest != []
    ensures 0 < |InOrder(t)| && At(InOrder(t), 1, h) == First(rest[1..], h)
  {
  }

  lemma VisitedAll(h: Node, t: Tree, rest: seq<Node>)
    requires h !in Nodes(t) && InOrder(t) == rest && First(rest, h) == h
    ensures rest == []
  {
    assert [] + rest == rest;
    Visited(h, t, [], rest);
  }

  lemma Visited(h: Node, t: Tree, kept: seq<Node>, rest: seq<Node>)
    requires h !in Nodes(t) && InOrder(t) == kept + rest && First(rest, h) == h
    ensures rest == [] && kept + rest == kept && kept + [] == kept
  {
    InOrderNodes(t);
    assert forall n :: n in rest ==> n in kept + rest;
  }

  /** With the elements `rest` still to be visited, the outcome for `t` and `kept` is that for `t0` and `s0`. */
  ghost predicate Visiting(comp: Comp, t0: seq<Node>, s0: seq<Node>, t: seq<Node>, kept: seq<Node>, rest: seq<Node>) {
    && UniqueTarget(comp, t, rest) == UniqueTarget(comp, t0, s0)
    && kept + UniqueRest(comp, t, rest) == UniqueRest(comp, t0, s0)
  }

  ghost function Kept(comp: Comp, t: seq<Node>, kept: seq<Node>, n: Node): seq<Node> {
    if Absent(comp, t, n.key) then kept else kept + [n]
  }

  lemma VisitStep(comp: Comp, t0: seq<Node>, s0: seq<Node>, t: seq<Node>, kept: seq<Node>, rest: seq<Node>)
    requires Visiting(comp, t0, s0, t, kept, rest) && rest != []
    ensures Visiting(comp, t0, s0, WithUnique(comp, t, rest[0]), Kept(comp, t, kept, rest[0]), rest[1..])
    ensures Kept(comp, t, kept, rest[0]) + rest[1..] ==
      if Absent(comp, t, rest[0].key) then Removed(kept + rest, |kept|, |kept| + 1) else kept + rest
  {
    var r := UniqueRest(comp, WithUnique(comp, t, rest[0]), rest[1..]);
    assert [] + r == r;
    KeptStep(kept, rest);
    KeptStep(kept, [rest[0]] + r);
  }

  lemma KeptStep(kept: seq<Node>, rest: seq<Node>)
    requires rest != []
    ensures Removed(kept + rest, |kept|, |kept| + 1) == kept + rest[1..]
    ensures kept + [rest[0]] + rest[1..] == kept + rest
  {
    assert rest == [rest[0]] + rest[1..];
  }

  lemma RemovedMore(s: seq<Node>, i: nat, j: nat)
    requires i <= j < |s|
    ensures Removed(s, i, j)[i] == s[j] && Removed(s, i, j)[..i] + Removed(s, i, j)[i + 1..] == Removed(s, i, j + 1)
  {
  }

  /** The nodes of `s` from `i` up to `k` are not in the container of the nodes `own`, and reset. */
  ghost predicate Out(m: Cells, s: seq<Node>, i: nat, k: nat, own: set<Node>) {
    k <= |s| && forall q :: i <= q < k ==> s[q] in m && Inited(m[s[q]]) && s[q] !in own
  }

  /** What has left the container before stays out of it. */
  lemma OutMore(m0: Cells, m: Cells, m': Cells, s: seq<Node>, i: nat, k: nat, own0: set<Node>, own: set<Node>,
      own': set<Node>)
    requires Out(m, s, i, k, own) && OnlyChanged(m0, m, own0) && OnlyChanged(m, m', own) && own <= own0
    requires k < |s| && s[k] in m' && Inited(m'[s[k]]) && own' == own - {s[k]}
    ensures Out(m', s, i, k + 1, own') && OnlyChanged(m0, m', own0) && own' <= own0
  {
  }

  lemma OutInit(m: Cells, s: seq<Node>, i: nat, j: nat, own: set<Node>)
    requires i <= j && Out(m, s, i, j, own)
    ensures forall n <- s[i..j] :: n in m && m[n] == Cell(null, null, null, m[n].red)
  {
  }

  lemma RangeDone(s: seq<Node>, i: nat, j: nat, h: Node)
    requires i <= j <= |s| && NoDup(s) && h !in s && At(s, i, h) == At(s, j, h)
    ensures i == j
  {
  }

  lemma RemovedAbsent(comp: Comp, s: seq<Node>, key: int, l: nat, u: nat)
    requires l <= u <= |s|
    requires forall i :: 0 <= i < |s| ==> (l <= i < u <==> Equivalent(comp, s[i].key, key))
    ensures Absent(comp, Removed(s, l, u), key)
  {
    var r := Removed(s, l, u);
    forall k | 0 <= k < |r| ensures r[k] == s[if k < l then k else k + u - l] {
    }
  }
}
