/** The list's merge sort (list.hpp). */
module ListSort {
  import opened ListNodes
  import opened Rings
  import opened ListMoves
  import opened Order
  import opened ListOrder
  import opened Powers
  import opened Ladder
  import opened Lists
  import opened ListPool

  /** The places in the pool: the counter's slots first, then these. */
  const CARRY := SLOTS
  const LIST := SLOTS + 1

  /** Of the elements `s0`, those in the counter come first, then those of the carry, which has the run
      `c` and slot `i` to go to, then those still in the list. */
  ghost predicate Sorting(comp: Comp, s0: Seq, es: seq<Seq>, segs: seq<Seq>, fill: nat, c: Seq) {
    && |es| == SLOTS + 2 && Counter(comp, es[..SLOTS], segs, fill)
    && StableSorted(comp, c, es[CARRY]) && Cat(segs, fill) + c + es[LIST] == s0
  }

  ghost predicate Carrying(comp: Comp, s0: Seq, es: seq<Seq>, segs: seq<Seq>, fill: nat, c: Seq, i: nat) {
    Sorting(comp, s0, es, segs, fill, c) && i <= fill && EmptyBelow(segs, i) && |c| == Pow2(i)
  }

  lemma NextTaken(comp: Comp, s0: Seq, es: seq<Seq>, segs: seq<Seq>, fill: nat)
    requires Sorting(comp, s0, es, segs, fill, []) && es[LIST] != []
    ensures var x := [es[LIST][0]];
      var es' := es[CARRY := x + es[CARRY]][LIST := es[LIST][1..]];
      Carrying(comp, s0, es', segs, fill, x, 0) && es'[LIST] == es[LIST][1..]
  {
    var x := [es[LIST][0]];
    var es' := es[CARRY := x + es[CARRY]][LIST := es[LIST][1..]];
    assert es'[..SLOTS] == es[..SLOTS];
    StableSize(comp, [], es[CARRY]);
    assert x + es[CARRY] == x;
    SingleSorted(comp, x);
    assert Cat(segs, fill) + [] + (x + es[LIST][1..]) == Cat(segs, fill) + x + es[LIST][1..];
  }

  lemma CarriedOn(comp: Comp, s0: Seq, es: seq<Seq>, segs: seq<Seq>, fill: nat, c: Seq, i: nat)
    requires StrictWeak(comp) && Carrying(comp, s0, es, segs, fill, c, i) && i < fill && es[i] != []
    ensures var es1 := es[i := Merge(comp, es[i], es[CARRY])][CARRY := []];
      Carrying(comp, s0, es1[CARRY := es1[i]][i := es1[CARRY]], segs[i := []], fill, segs[i] + c, i + 1)
  {
    SlotTaken(es, i, Merge(comp, es[i], es[CARRY]));
    CarryOn(comp, es[..SLOTS], segs, fill, i, c, es[CARRY]);
  }

  /** Slot `i`, merged with the carry into `x`, becomes the carry. */
  lemma SlotTaken(es: seq<Seq>, i: nat, x: Seq)
    requires |es| == SLOTS + 2 && i < SLOTS
    ensures var es1 := es[i := x][CARRY := []];
      var es2 := es1[CARRY := es1[i]][i := es1[CARRY]];
      |es2| == |es| && es2[..SLOTS] == es[..SLOTS][i := []] && es2[CARRY] == x && es2[LIST] == es[LIST]
  {
  }

  lemma CarriedIn(comp: Comp, s0: Seq, es: seq<Seq>, segs: seq<Seq>, fill: nat, c: Seq, i: nat)
    requires Carrying(comp, s0, es, segs, fill, c, i) && i < SLOTS && es[i] == []
    ensures Sorting(comp, s0, es[CARRY := es[i]][i := es[CARRY]], segs[i := c], if i == fill then fill + 1
      else fill, [])
    ensures es[CARRY := es[i]][i := es[CARRY]][LIST] == es[LIST]
  {
    SlotFilled(es, i);
    CarryIn(comp, es[..SLOTS], segs, fill, i, c, es[CARRY]);
    SingleSorted(comp, []);
    assert (Cat(segs, fill) + c) + [] + es[LIST] == Cat(segs, fill) + c + es[LIST];
  }

  lemma SlotFilled(es: seq<Seq>, i: nat)
    requires |es| == SLOTS + 2 && i < SLOTS
    ensures var es1 := es[CARRY := es[i]][i := es[CARRY]];
      |es1| == |es| && es1[..SLOTS] == es[..SLOTS][i := es[CARRY]] && es1[CARRY] == es[i] && es1[LIST] == es[LIST]
  {
  }

  /** There is a slot for the carry. */
  lemma CarrySlot(comp: Comp, s0: Seq, es: seq<Seq>, segs: seq<Seq>, fill: nat, c: Seq, i: nat)
    requires Carrying(comp, s0, es, segs, fill, c, i) && |s0| < Pow2(SLOTS)
    ensures i < SLOTS && (i == fill ==> es[i] == [])
  {
    SlotFound(i, |s0|);
    if i == fill {
      assert StableSorted(comp, segs[i], es[..SLOTS][i]);
      StableSize(comp, segs[i], es[i]);
    }
  }

  /** The pool of all lists, `all` being its nodes. */
  ghost predicate Ready(ls: seq<List>, T: ListTraits, roots: Seq, es: seq<Seq>, all: set<ListNode>)
    reads ls, T
  {
    Pool(ls, T, roots, es) && Separate(T.links, roots, es, all)
  }

  /** Whether slot `i` is empty. */
  method EmptySlot(ls: seq<List>, T: ListTraits, i: nat, ghost roots: Seq, ghost es: seq<Seq>, ghost all: set<ListNode>)
      returns (r: bool)
    requires T.Valid() && Ready(ls, T, roots, es, all) && i < |ls|
    ensures r <==> es[i] == []
  {
    r := ls[i].Empty();
  }

  /** Slot `i` is merged with the carry, which takes the result. */
  method CarryStep(ls: seq<List>, T: ListTraits, i: nat, comp: Comp, ghost roots: Seq, ghost es: seq<Seq>,
      ghost all: set<ListNode>,
      ghost s0: Seq, ghost segs: seq<Seq>, ghost fill: nat, ghost c: Seq)
      returns (ghost es': seq<Seq>, ghost segs': seq<Seq>, ghost c': Seq)
    requires T.Valid() && Ready(ls, T, roots, es, all) && StrictWeak(comp)
    requires Carrying(comp, s0, es, segs, fill, c, i) && i < fill && es[i] != []
    modifies ls, T, T.links.Keys
    ensures T.Valid() && Ready(ls, T, roots, es', all) && OnlyLinked(old(T.links), T.links, all)
    ensures Carrying(comp, s0, es', segs', fill, c', i + 1) && es'[LIST] == es[LIST]
  {
    CarriedOn(comp, s0, es, segs, fill, c, i);
    ghost var es1 := MergeAt(ls, T, i, CARRY, comp, roots, es, all);
    es' := SwapAt(ls, T, CARRY, i, roots, es1, all);
    segs', c' := segs[i := []], segs[i] + c;
  }

  /** The carry goes up as long as slots are taken. */
  method Carry(ls: seq<List>, T: ListTraits, fill: nat, comp: Comp, ghost roots: Seq, ghost es: seq<Seq>,
      ghost all: set<ListNode>,
      ghost s0: Seq, ghost segs: seq<Seq>, ghost c: Seq)
      returns (i: nat, ghost es': seq<Seq>, ghost segs': seq<Seq>, ghost c': Seq)
    requires T.Valid() && Ready(ls, T, roots, es, all) && StrictWeak(comp) && Carrying(comp, s0, es, segs, fill, c, 0)
    modifies ls, T, T.links.Keys
    ensures T.Valid() && Ready(ls, T, roots, es', all) && OnlyLinked(old(T.links), T.links, all)
    ensures Carrying(comp, s0, es', segs', fill, c', i) && es'[LIST] == es[LIST] && (i == fill || es'[i] == [])
  {
    ghost var m := T.links;
    es', segs', c' := es, segs, c;
    i := 0;
    var more := i < fill;
    if more {
      var empty := EmptySlot(ls, T, i, roots, es', all);
      more := !empty;
    }
    while more
      invariant T.Valid() && Ready(ls, T, roots, es', all) && OnlyLinked(m, T.links, all)
      invariant Carrying(comp, s0, es', segs', fill, c', i) && es'[LIST] == es[LIST]
      invariant if more then i < fill && es'[i] != [] else i == fill || es'[i] == []
      decreases fill - i
    {
      es', segs', c' := CarryStep(ls, T, i, comp, roots, es', all, s0, segs', fill, c');
      i := i + 1;
      more := i < fill;
      if more {
        var empty := EmptySlot(ls, T, i, roots, es', all);
        more := !empty;
      }
    }
  }

  /** One element goes from the list into the counter. */
  method CountOne(ls: seq<List>, T: ListTraits, fill: nat, comp: Comp, ghost roots: Seq, ghost es: seq<Seq>,
      ghost all: set<ListNode>,
      ghost s0: Seq, ghost segs: seq<Seq>)
      returns (fill': nat, ghost es': seq<Seq>, ghost segs': seq<Seq>)
    requires T.Valid() && Ready(ls, T, roots, es, all) && StrictWeak(comp) && |s0| < Pow2(SLOTS)
    requires Sorting(comp, s0, es, segs, fill, []) && es[LIST] != []
    modifies ls, T, T.links.Keys
    ensures T.Valid() && Ready(ls, T, roots, es', all) && OnlyLinked(old(T.links), T.links, all)
    ensures Sorting(comp, s0, es', segs', fill', []) && es'[LIST] == es[LIST][1..]
  {
    ghost var c;
    var i;
    NextTaken(comp, s0, es, segs, fill);
    ghost var es1 := SpliceFirstAt(ls, T, CARRY, LIST, roots, es, all);
    i, es', segs', c := Carry(ls, T, fill, comp, roots, es1, all, s0, segs, [es[LIST][0]]);
    CarrySlot(comp, s0, es', segs', fill, c, i);
    CarriedIn(comp, s0, es', segs', fill, c, i);
    segs' := segs'[i := c];
    ghost var es2 := es';
    es' := SwapAt(ls, T, CARRY, i, roots, es2, all);
    fill' := if i == fill then fill + 1 else fill;
  }

  /** Everything up to slot `i - 1` is merged into that. */
  ghost predicate Collecting(comp: Comp, es: seq<Seq>, segs: seq<Seq>, i: nat) {
    && |es| == SLOTS + 2 && |segs| == SLOTS && 0 < i <= SLOTS && es[LIST] == []
      && StableSorted(comp, Cat(segs, i), es[i - 1])
    && forall j :: i <= j < SLOTS ==> StableSorted(comp, segs[j], es[j])
  }

  lemma CollectStart(comp: Comp, s0: Seq, es: seq<Seq>, segs: seq<Seq>, fill: nat)
    requires Sorting(comp, s0, es, segs, fill, []) && es[LIST] == [] && s0 != []
    ensures Collecting(comp, es, segs, 1) && 0 < fill <= SLOTS && Cat(segs, fill) == s0
  {
    assert Cat(segs, 1) == segs[0] + Cat(segs, 0) == segs[0];
    assert forall j :: 0 <= j < SLOTS ==> es[..SLOTS][j] == es[j];
    assert Cat(segs, fill) + [] + [] == Cat(segs, fill);
  }

  lemma CollectNext(comp: Comp, es: seq<Seq>, segs: seq<Seq>, i: nat)
    requires StrictWeak(comp) && Collecting(comp, es, segs, i) && i < SLOTS
    ensures Collecting(comp, es[i := Merge(comp, es[i], es[i - 1])][i - 1 := []], segs, i + 1)
  {
    Collected(comp, segs, i, es[i], es[i - 1]);
  }

  lemma CollectEnd(comp: Comp, s0: Seq, es: seq<Seq>, segs: seq<Seq>, fill: nat)
    requires Collecting(comp, es, segs, fill) && Cat(segs, fill) == s0
    ensures StableSorted(comp, s0, es[LIST := es[fill - 1]][fill - 1 := es[LIST]][LIST])
  {
  }

  /** Merges every slot with the one below it. */
  method CollectSlots(ls: seq<List>, T: ListTraits, fill: nat, comp: Comp, ghost roots: Seq, ghost es: seq<Seq>,
      ghost all: set<ListNode>,
      ghost segs: seq<Seq>)
      returns (ghost es': seq<Seq>)
    requires T.Valid() && Ready(ls, T, roots, es, all) && StrictWeak(comp) && Collecting(comp, es, segs, 1)
      && 0 < fill <= SLOTS
    modifies ls, T, T.links.Keys
    ensures T.Valid() && Ready(ls, T, roots, es', all) && OnlyLinked(old(T.links), T.links, all)
      && Collecting(comp, es', segs, fill)
  {
    ghost var m := T.links;
    es' := es;
    var i := 1;
    while i < fill
      invariant T.Valid() && Ready(ls, T, roots, es', all) && OnlyLinked(m, T.links, all)
      invariant 1 <= i <= fill && Collecting(comp, es', segs, i)
    {
      CollectNext(comp, es', segs, i);
      es' := MergeAt(ls, T, i, i - 1, comp, roots, es', all);
      i := i + 1;
    }
  }

  /** Merges all slots, and gives the list what results. */
  method Collect(ls: seq<List>, T: ListTraits, fill: nat, comp: Comp, ghost roots: Seq, ghost es: seq<Seq>,
      ghost all: set<ListNode>,
      ghost s0: Seq, ghost segs: seq<Seq>)
      returns (ghost es': seq<Seq>)
    requires T.Valid() && Ready(ls, T, roots, es, all) && StrictWeak(comp)
    requires Sorting(comp, s0, es, segs, fill, []) && es[LIST] == [] && s0 != []
    modifies ls, T, T.links.Keys
    ensures T.Valid() && Ready(ls, T, roots, es', all) && OnlyLinked(old(T.links), T.links, all)
    ensures |es'| == SLOTS + 2 && StableSorted(comp, s0, es'[LIST])
  {
    CollectStart(comp, s0, es, segs, fill);
    ghost var es1 := CollectSlots(ls, T, fill, comp, roots, es, all, segs);
    CollectEnd(comp, s0, es1, segs, fill);
    es' := SwapAt(ls, T, LIST, fill - 1, roots, es1, all);
  }

  /** All elements go from the list into the counter. */
  method CountAll(ls: seq<List>, T: ListTraits, comp: Comp, ghost roots: Seq, ghost es: seq<Seq>,
      ghost all: set<ListNode>, ghost s0: Seq)
      returns (fill: nat, ghost es': seq<Seq>, ghost segs: seq<Seq>)
    requires T.Valid() && Ready(ls, T, roots, es, all) && StrictWeak(comp) && |s0| < Pow2(SLOTS)
    requires |es| == SLOTS + 2 && Sorting(comp, s0, es, es[..SLOTS], 0, []) && es[LIST] == s0
    modifies ls, T, T.links.Keys
    ensures T.Valid() && Ready(ls, T, roots, es', all) && OnlyLinked(old(T.links), T.links, all)
    ensures Sorting(comp, s0, es', segs, fill, []) && es'[LIST] == []
  {
    ghost var m, rest := T.links, s0;
    es', segs, fill := es, es[..SLOTS], 0;
    var empty := EmptySlot(ls, T, LIST, roots, es, all);
    while !empty
      invariant T.Valid() && Ready(ls, T, roots, es', all) && OnlyLinked(m, T.links, all)
      invariant Sorting(comp, s0, es', segs, fill, []) && es'[LIST] == rest && (empty <==> rest == [])
      decreases |rest|
    {
      fill, es', segs := CountOne(ls, T, fill, comp, roots, es', all, s0, segs);
      rest := rest[1..];
      empty := EmptySlot(ls, T, LIST, roots, es', all);
    }
  }

  /** Sorts the list of the pool, the other lists of which are empty. */
  method SortInPool(ls: seq<List>, T: ListTraits, comp: Comp, ghost roots: Seq, ghost es: seq<Seq>,
      ghost all: set<ListNode>, ghost s0: Seq)
      returns (ghost es': seq<Seq>)
    requires T.Valid() && Ready(ls, T, roots, es, all) && StrictWeak(comp) && |s0| < Pow2(SLOTS) && s0 != []
    requires |es| == SLOTS + 2 && es[LIST] == s0 && forall i :: 0 <= i <= CARRY ==> es[i] == []
    modifies ls, T, T.links.Keys
    ensures T.Valid() && Ready(ls, T, roots, es', all) && OnlyLinked(old(T.links), T.links, all)
    ensures |es'| == SLOTS + 2 && StableSorted(comp, s0, es'[LIST])
  {
    SortStart(comp, s0, es);
    var fill;
    ghost var es1, segs;
    fill, es1, segs := CountAll(ls, T, comp, roots, es, all, s0);
    es' := Collect(ls, T, fill, comp, roots, es1, all, s0, segs);
  }

  lemma SortStart(comp: Comp, s0: Seq, es: seq<Seq>)
    requires |es| == SLOTS + 2 && es[LIST] == s0 && forall i :: 0 <= i <= CARRY ==> es[i] == []
    ensures Sorting(comp, s0, es, es[..SLOTS], 0, [])
  {
    SingleSorted(comp, []);
    assert [] + [] + s0 == s0;
  }

  /** One more, empty, list in front of the pool. */
  lemma PoolGrown(m: LinkMap, m': LinkMap, roots: Seq, es: seq<Seq>, all: set<ListNode>, r: ListNode)
    requires Separate(m, roots, es, all) && r !in all && all <= m.Keys && IsList(m', r, [])
    requires forall n <- m :: n in m' && m'[n] == m[n]
    ensures Separate(m', [r] + roots, [[]] + es, all + {r}) && all + {r} <= m'.Keys
  {
    var roots', es' := [r] + roots, [[]] + es;
    assert [r] + [] == [r];
    forall k | 0 <= k < |es'| ensures IsList(m', roots'[k], es'[k]) && Nodes(roots'[k], es'[k]) <= all + {r} {
      if k > 0 {
        RingFrame(m, m', [roots[k - 1]] + es[k - 1]);
      }
    }
    forall i, j | 0 <= i < |es'| && 0 <= j < |es'|
      && i != j ensures Nodes(roots'[i], es'[i]) !! Nodes(roots'[j], es'[j]) {
      if i > 0 && j > 0 {
        assert Nodes(roots[i - 1], es[i - 1]) !! Nodes(roots[j - 1], es[j - 1]);
      } else if i > 0 {
        assert Nodes(roots[i - 1], es[i - 1]) <= all;
      } else {
        assert Nodes(roots[j - 1], es[j - 1]) <= all;
      }
    }
  }

  /** The old nodes are linked as before, and only those in `own` are in the pool. */
  ghost predicate KeptApart(m0: LinkMap, m: LinkMap, all: set<ListNode>, own: set<ListNode>) {
    forall n <- m0 :: n in m && m[n] == m0[n] && (n in all ==> n in own)
  }

  /** Adds a temporary list to the pool. */
  method AddList(ls: seq<List>, T: ListTraits, ghost roots: Seq, ghost es: seq<Seq>, ghost all: set<ListNode>,
      ghost m0: LinkMap, ghost own: set<ListNode>)
      returns (ls': seq<List>, ghost roots': Seq, ghost all': set<ListNode>)
    requires T.Valid() && Ready(ls, T, roots, es, all) && all <= T.links.Keys && KeptApart(m0, T.links, all, own)
    modifies T
    ensures T.Valid() && Ready(ls', T, roots', [[]] + es, all') && all' <= T.links.Keys
    ensures |ls'| == |ls| + 1 && fresh(ls'[0]) && ls' == [ls'[0]] + ls && all <= all'
    ensures T.links.Keys == old(T.links.Keys) + {ls'[0].root} && fresh(ls'[0].root) && all' == all + {ls'[0].root}
    ensures KeptApart(m0, T.links, all', own)
  {
    ghost var m := T.links;
    var l := new List(T);
    PoolGrown(m, T.links, roots, es, all, l.root);
    StillApart(m0, m, T.links, all, own, l.root);
    PoolMore(ls, T, roots, es, l);
    ls' := [l] + ls;
    roots', all' := [l.root] + roots, all + {l.root};
  }

  lemma PoolMore(ls: seq<List>, T: ListTraits, roots: Seq, es: seq<Seq>, l: List)
    requires Pool(ls, T, roots, es) && l !in ls && l.T == T && l.elems == [] && l.size == 0
    ensures Pool([l] + ls, T, [l.root] + roots, [[]] + es)
  {
    var ls' := [l] + ls;
    forall i, j | 0 <= i < j < |ls'| ensures ls'[i] != ls'[j] {
      assert ls'[j] == ls[j - 1];
    }
  }

  lemma StillApart(m0: LinkMap, m: LinkMap, m': LinkMap, all: set<ListNode>, own: set<ListNode>, r: ListNode)
    requires KeptApart(m0, m, all, own) && r !in m && forall n <- m :: n in m' && m'[n] == m[n]
    ensures KeptApart(m0, m', all + {r}, own)
  {
  }

  /** `k` lists have been added to the pool of the list with the elements `s0`, all of them empty. */
  ghost predicate Filled(es: seq<Seq>, k: nat, s0: Seq) {
    |es| == k + 1 && es[k] == s0 && forall i :: 0 <= i < k ==> es[i] == []
  }

  lemma FilledMore(es: seq<Seq>, k: nat, s0: Seq)
    requires Filled(es, k, s0)
    ensures Filled([[]] + es, k + 1, s0)
  {
  }

  /** `k` lists have been added to the pool of `list`: the lists `news`, with the nodes `nodes`. */
  ghost predicate Growing(ls: seq<List>, T: ListTraits, roots: Seq, es: seq<Seq>, all: set<ListNode>,
      list: List, s0: Seq, k: nat, m0: LinkMap, own: set<ListNode>, news: set<List>, nodes: set<ListNode>)
    reads ls, T
  {
    && Ready(ls, T, roots, es, all) && all <= T.links.Keys && Filled(es, k, s0)
    && |ls| == k + 1 && ls[k] == list && (forall i :: 0 <= i < k ==> ls[i] in news)
    && T.links.Keys == m0.Keys + nodes && KeptApart(m0, T.links, all, own)
  }

  method GrowPool(ls: seq<List>, T: ListTraits, list: List, ghost roots: Seq, ghost es: seq<Seq>,
      ghost all: set<ListNode>, ghost s0: Seq, ghost k: nat, ghost m0: LinkMap, ghost own: set<ListNode>,
      ghost news: set<List>, ghost nodes: set<ListNode>)
      returns (ls': seq<List>, ghost roots': Seq, ghost es': seq<Seq>, ghost all': set<ListNode>,
      ghost news': set<List>, ghost nodes': set<ListNode>)
    requires T.Valid() && Growing(ls, T, roots, es, all, list, s0, k, m0, own, news, nodes)
    modifies T
    ensures T.Valid() && Growing(ls', T, roots', es', all', list, s0, k + 1, m0, own, news', nodes')
    ensures fresh(news' - news) && fresh(nodes' - nodes)
  {
    FilledMore(es, k, s0);
    ls', roots', all' := AddList(ls, T, roots, es, all, m0, own);
    es', news', nodes' := [[]] + es, news + {ls'[0]}, nodes + {ls'[0].root};
  }

  /** The carry and the slots of the counter, and at the end the list itself. */
  method MakePool(list: List, T: ListTraits)
      returns (ls: seq<List>, ghost roots: Seq, ghost es: seq<Seq>, ghost all: set<ListNode>)
    requires T.Valid() && list.Valid() && list.T == T
    modifies T
    ensures T.Valid() && Ready(ls, T, roots, es, all) && Filled(es, SLOTS + 1, list.elems)
    ensures |ls| == SLOTS + 2 && ls[LIST] == list && forall i :: 0 <= i < LIST ==> fresh(ls[i])
    ensures forall n <- T.links :: n in old(T.links) || fresh(n)
    ensures forall n <- old(T.links) :: n in T.links && T.links[n] == old(T.links)[n] && (n in all ==> n in list.Own())
  {
    ghost var m, s0, own := T.links, list.elems, list.Own();
    ghost var news: set<List>, nodes: set<ListNode> := {}, {};
    ls, roots, es, all := [list], [list.root], [s0], own;
    OwnKnown(m, list.root, s0);
    var k := 0;
    while k < SLOTS + 1
      invariant 0 <= k <= SLOTS + 1 && T.Valid() && Growing(ls, T, roots, es, all, list, s0, k, m, own, news, nodes)
      invariant fresh(news) && fresh(nodes)
    {
      ls, roots, es, all, news, nodes := GrowPool(ls, T, list, roots, es, all, s0, k, m, own, news, nodes);
      k := k + 1;
    }
  }

  lemma OwnKnown(m: LinkMap, root: ListNode, s: Seq)
    requires IsList(m, root, s)
    ensures Nodes(root, s) <= m.Keys && Separate(m, [root], [s], Nodes(root, s))
  {
    forall n <- Nodes(root, s) ensures n in m {
      var i :| 0 <= i < |[root] + s| && ([root] + s)[i] == n;
      RingAt(m, [root] + s, i);
    }
  }

  /** Sorts a list of fewer than 2^64 elements: by `comp`, with equivalent elements in their order. */
  method Sort(list: List, T: ListTraits, comp: Comp)
    requires T.Valid() && list.Valid() && list.T == T && StrictWeak(comp) && |list.elems| < Pow2(SLOTS)
    modifies list, T, T.links.Keys
    ensures T.Valid() && list.Valid() && multiset(list.elems) == multiset(old(list.elems))
    ensures forall i, j :: 0 <= i < j < |list.elems| ==> !comp(list.elems[j].value, list.elems[i].value)
    ensures forall v :: Class(comp, list.elems, v) == Class(comp, old(list.elems), v)
    ensures forall n <- old(T.links) :: n !in old(list.Own()) ==> n in T.links && T.links[n] == old(T.links)[n]
  {
    AtMostOne(T.links, list.root, list.elems);
    if list.root.next != list.root.previous {
      ghost var s0 := list.elems;
      var ls;
      ghost var roots, es, all;
      ls, roots, es, all := MakePool(list, T);
      ghost var es' := SortInPool(ls, T, comp, roots, es, all, s0);
    } else {
      SingleSorted(comp, list.elems);
    }
  }
}
