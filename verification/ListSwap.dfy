/** Exchanging the places of two nodes of circular lists (circular_list_algorithms.hpp). */
module ListSwap {
  import opened ListNodes
  import opened Rings

  ghost function Tau(x: ListNode, a: ListNode, b: ListNode): ListNode {
    if x == a then b else if x == b then a else x
  }

  ghost function TauLink(x: ListNode?, a: ListNode, b: ListNode): ListNode? {
    if x == null then null else Tau(x, a, b)
  }

  ghost function TauLinks(l: Links, a: ListNode, b: ListNode): Links {
    Links(TauLink(l.next, a, b), TauLink(l.previous, a, b))
  }

  method Init(T: ListTraits, n: ListNode)
    requires T.Valid() && n in T.links
    modifies T, n
    ensures T.Valid() && T.links == old(T.links[n := Links(null, null)])
  {
    T.SetNext(n, null);
    T.SetPrevious(n, null);
    assert T.links == old(T.links)[n := Links(null, null)];
  }

  method InitHeader(T: ListTraits, n: ListNode)
    requires T.Valid() && n in T.links
    modifies T, n
    ensures T.Valid() && T.links == old(T.links[n := Links(n, n)]) && IsList(T.links, n, [])
  {
    T.SetNext(n, n);
    T.SetPrevious(n, n);
    assert T.links == old(T.links)[n := Links(n, n)];
    assert [n] + [] == [n];
  }

  ghost function SwappedPrevious(m: LinkMap, x: ListNode, y: ListNode): LinkMap
    requires x in m && y in m
  {
    var m1: LinkMap := m[x := m[x].(previous := m[y].previous)];
    m1[y := m1[y].(previous := m[x].previous)]
  }

  ghost function SwappedNext(m: LinkMap, x: ListNode, y: ListNode): LinkMap
    requires x in m && y in m
  {
    var m1: LinkMap := m[x := m[x].(next := m[y].next)];
    m1[y := m1[y].(next := m[x].next)]
  }

  method SwapPrevious(T: ListTraits, x: ListNode, y: ListNode)
    requires T.Valid() && x in T.links && y in T.links
    modifies T, T.links.Keys
    ensures T.Valid() && T.links == SwappedPrevious(old(T.links), x, y)
  {
    var temp := x.previous;
    T.SetPrevious(x, y.previous);
    T.SetPrevious(y, temp);
  }

  method SwapNext(T: ListTraits, x: ListNode, y: ListNode)
    requires T.Valid() && x in T.links && y in T.links
    modifies T, T.links.Keys
    ensures T.Valid() && T.links == SwappedNext(old(T.links), x, y)
  {
    var temp := x.next;
    T.SetNext(x, y.next);
    T.SetNext(y, temp);
  }

  /** The node `a` is in a ring among the nodes `d`: no other node there claims to be its neighbour. */
  ghost predicate InRing(m: LinkMap, a: ListNode, d: set<ListNode>) {
    && a in m && m[a].next != null && m[a].previous != null && Edge(m, m[a].previous, a) && Edge(m, a, m[a].next)
    && d <= m.Keys && m[a].next in d && m[a].previous in d && a in d
    && forall x <- d :: (m[x].next == a ==> m[a].previous == x) && (m[x].previous == a ==> m[a].next == x)
  }

  /** The four exchanges, in this order. */
  ghost function Crossed(m: LinkMap, a: ListNode, b: ListNode): LinkMap
    requires a in m && b in m && m[a].next != null && m[a].previous != null && m[b].next != null
      && m[b].previous != null
    requires m[a].next in m && m[a].previous in m && m[b].next in m && m[b].previous in m
  {
    SwappedPrevious(SwappedNext(SwappedNext(SwappedPrevious(m, m[a].next, m[b].next), m[a].previous, m[b].previous), a,
      b), a, b)
  }

  lemma CrossedAt(m: LinkMap, a: ListNode, b: ListNode, d: set<ListNode>, x: ListNode)
    requires InRing(m, a, d) && InRing(m, b, d) && a != b && x in m
    ensures Crossed(m, a, b).Keys == m.Keys
    ensures Crossed(m, a, b)[x] == if x in d then TauLinks(m[Tau(x, a, b)], a, b) else m[x]
  {
  }

  /** `a` is in a ring, or in none. */
  ghost predicate Settled(m: LinkMap, a: ListNode, d: set<ListNode>) {
    InRing(m, a, d) ||
    (a in d && d <= m.Keys && m[a] == Links(null, null) && forall x <- d :: m[x].next != a && m[x].previous != a)
  }

  /** A node that is in no ring becomes a ring of its own. */
  ghost function Ringed(m: LinkMap, a: ListNode): LinkMap
    requires a in m
  {
    if m[a].next == null then m[a := Links(a, a)] else m
  }

  lemma RingedSettled(m: LinkMap, a: ListNode, b: ListNode, d: set<ListNode>)
    requires Settled(m, a, d) && Settled(m, b, d) && a != b
    ensures InRing(Ringed(m, a), a, d) && Settled(Ringed(m, a), b, d)
    ensures (m[b].next == null <==> Ringed(m, a)[b].next == null)
    ensures InRing(m, b, d) ==> InRing(Ringed(m, a), b, d)
  {
  }

  method MakeRing(T: ListTraits, n: ListNode)
    requires T.Valid() && n in T.links
    modifies T, n
    ensures T.Valid() && T.links == Ringed(old(T.links), n)
  {
    if n.next == null {
      InitHeader(T, n);
    }
  }

  /** Every node of `d` stores what the node whose place it takes stored, with `a` and `b` exchanged. */
  ghost predicate Conjugated(m: LinkMap, m': LinkMap, a: ListNode, b: ListNode, d: set<ListNode>) {
    m'.Keys == m.Keys && forall x <- m :: m'[x] == if x in d && Tau(x, a, b) in m then TauLinks(m[Tau(x, a, b)], a, b)
      else m[x]
  }

  lemma CrossedAll(m: LinkMap, a: ListNode, b: ListNode, d: set<ListNode>)
    requires InRing(m, a, d) && InRing(m, b, d) && a != b
    ensures Conjugated(m, Crossed(m, a, b), a, b, d)
  {
    CrossedAt(m, a, b, d, a);
    forall x <- m ensures Crossed(m, a, b)[x] == if x in d then TauLinks(m[Tau(x, a, b)], a, b) else m[x] {
      CrossedAt(m, a, b, d, x);
    }
  }

  method Cross(T: ListTraits, a: ListNode, b: ListNode, ghost d: set<ListNode>)
    requires T.Valid() && InRing(T.links, a, d) && InRing(T.links, b, d) && a != b
    modifies T, T.links.Keys
    ensures T.Valid() && Conjugated(old(T.links), T.links, a, b, d)
  {
    CrossedAll(T.links, a, b, d);
    var nextA: ListNode, prevA: ListNode, nextB: ListNode, prevB: ListNode := a.next, a.previous, b.next, b.previous;
    SwapPrevious(T, nextA, nextB);
    SwapNext(T, prevA, prevB);
    SwapNext(T, a, b);
    SwapPrevious(T, a, b);
  }

  /** The nodes that were in no ring are in none afterwards: they have exchanged even that. */
  lemma Uninited(m: LinkMap, m1: LinkMap, m2: LinkMap, m3: LinkMap, a: ListNode, b: ListNode, d: set<ListNode>)
    requires Settled(m, a, d) && Settled(m, b, d) && a != b && m1 == Ringed(Ringed(m, a), b)
      && Conjugated(m1, m2, a, b, d)
    requires m3.Keys == m2.Keys
    requires forall x <- m2 :: m3[x] == (if (x == b && m[a].next == null) || (x == a && m[b].next == null)
      then Links(null, null) else m2[x])
    ensures Conjugated(m, m3, a, b, d)
  {
  }

  method InitExchanged(T: ListTraits, a: ListNode, b: ListNode, aInited: bool, bInited: bool)
    requires T.Valid() && a in T.links && b in T.links
    modifies T, T.links.Keys
    ensures T.Valid() && T.links.Keys == old(T.links).Keys
    ensures forall x <- T.links :: T.links[x] == (if (x == b && aInited) || (x == a && bInited) then Links(null, null)
      else old(T.links)[x])
  {
    if aInited {
      Init(T, b);
    }
    if bInited {
      Init(T, a);
    }
  }

  /** Exchanges the places of two nodes, whatever rings they are in. */
  method SwapNodes(T: ListTraits, thisNode: ListNode, otherNode: ListNode, ghost d: set<ListNode>)
    requires T.Valid() && Settled(T.links, thisNode, d) && Settled(T.links, otherNode, d)
    modifies T, T.links.Keys
    ensures T.Valid() && (thisNode == otherNode ==> T.links == old(T.links))
    ensures thisNode != otherNode ==> Conjugated(old(T.links), T.links, thisNode, otherNode, d)
  {
    if otherNode == thisNode {
      return;
    }
    ghost var m := T.links;
    var thisInited, otherInited := thisNode.next == null, otherNode.next == null;
    RingedSettled(m, thisNode, otherNode, d);
    RingedSettled(Ringed(m, thisNode), otherNode, thisNode, d);
    MakeRing(T, thisNode);
    MakeRing(T, otherNode);
    ghost var m1 := T.links;
    Cross(T, thisNode, otherNode, d);
    ghost var m2 := T.links;
    InitExchanged(T, thisNode, otherNode, thisInited, otherInited);
    Uninited(m, m1, m2, T.links, thisNode, otherNode, d);
  }

  ghost function TauSeq(s: Seq, a: ListNode, b: ListNode): (t: Seq)
    ensures |t| == |s| && forall i :: 0 <= i < |s| ==> t[i] == Tau(s[i], a, b)
  {
    if s == [] then [] else [Tau(s[0], a, b)] + TauSeq(s[1..], a, b)
  }

  lemma SwappedAt(m: LinkMap, m': LinkMap, s: Seq, a: ListNode, b: ListNode, d: set<ListNode>, i: nat)
    requires Ring(m, s) && Conjugated(m, m', a, b, d) && a in d && b in d && d <= m.Keys && Members(s) <= d && i < |s|
    ensures LinkedAt(m', TauSeq(s, a, b), i)
  {
    RingAt(m, s, i);
    assert s[i] in Members(s);
    assert Tau(Tau(s[i], a, b), a, b) == s[i];
  }

  /** A ring after the exchange. */
  lemma SwappedRing(m: LinkMap, m': LinkMap, s: Seq, a: ListNode, b: ListNode, d: set<ListNode>)
    requires Ring(m, s) && Conjugated(m, m', a, b, d) && a in d && b in d && d <= m.Keys && Members(s) <= d
    ensures Ring(m', TauSeq(s, a, b)) && |TauSeq(s, a, b)| == |s|
    ensures forall i :: 0 <= i < |s| ==> TauSeq(s, a, b)[i] == if s[i] == a then b else if s[i] == b then a else s[i]
  {
    var t := TauSeq(s, a, b);
    forall i | 0 <= i < |t| ensures LinkedAt(m', t, i) {
      SwappedAt(m, m', s, a, b, d, i);
    }
    TauUnique(s, a, b);
    LinkedRing(m', t);
  }

  lemma TauUnique(s: Seq, a: ListNode, b: ListNode)
    requires Unique(s)
    ensures Unique(TauSeq(s, a, b))
  {
  }

  /** In a ring, a node's claimed neighbours claim it. */
  lemma RingClaims(m: LinkMap, s: Seq, i: nat, j: nat)
    requires Ring(m, s) && i < |s| && j < |s|
    ensures s[i] in m && s[j] in m
    ensures m[s[j]].next == s[i] ==> m[s[i]].previous == s[j]
    ensures m[s[j]].previous == s[i] ==> m[s[i]].next == s[j]
  {
    RingAt(m, s, i);
    RingAt(m, s, j);
  }

  /** A node of a ring is in a ring among the nodes of it and of another one. */
  lemma RingNode(m: LinkMap, s: Seq, t: Seq, i: nat)
    requires Ring(m, s) && i < |s| && (t == [] || Ring(m, t)) && Members(s) !! Members(t)
    ensures InRing(m, s[i], Members(s) + Members(t))
  {
    var a := s[i];
    RingAt(m, s, i);
    RingAt(m, s, NextIn(i, |s|));
    RingAt(m, s, PreviousIn(i, |s|));
    forall x <- Members(s) + Members(t) ensures x in m && (m[x].next == a ==> m[a].previous == x)
      && (m[x].previous == a ==> m[a].next == x) {
      if x in s {
        var j :| 0 <= j < |s| && s[j] == x;
        RingClaims(m, s, i, j);
      } else {
        var j :| 0 <= j < |t| && t[j] == x;
        RingAt(m, t, j);
        assert m[x].next in Members(t) && m[x].previous in Members(t) && a in Members(s);
      }
    }
  }
}
