/** Partitioning part of a circular list in place (circular_list_algorithms.hpp). */
module ListPartition {
  import opened ListNodes
  import opened Rings

  /** What the predicate does for an element. */
  datatype Verdict = Holds | Fails | Throws

  type Pred = ListNode -> Verdict

  /** The elements for which the predicate gave the verdict `v`, in order. */
  ghost function Chosen(pred: Pred, s: Seq, v: Verdict): Seq {
    if s == [] then []
    else Chosen(pred, s[..|s| - 1], v) + if pred(LastOf(s)) == v then [LastOf(s)] else []
  }

  /** How many elements are tested before the predicate throws, if it does. */
  ghost function Tested(pred: Pred, s: Seq): (k: nat)
    ensures k <= |s| && (forall i :: 0 <= i < k ==> pred(s[i]) != Throws) && (k < |s| ==> pred(s[k]) == Throws)
  {
    if s == [] || pred(s[0]) == Throws then 0 else 1 + Tested(pred, s[1..])
  }

  lemma TestedIs(pred: Pred, s: Seq, k: nat)
    requires k <= |s| && (forall i :: 0 <= i < k ==> pred(s[i]) != Throws) && (k < |s| ==> pred(s[k]) == Throws)
    ensures Tested(pred, s) == k
  {
    var t := Tested(pred, s);
    assert t < |s| ==> pred(s[t]) == Throws;
  }

  lemma ChosenNext(pred: Pred, s: Seq, k: nat, v: Verdict)
    requires k < |s|
    ensures Chosen(pred, s[..k + 1], v) == Chosen(pred, s[..k], v) + if pred(s[k]) == v then [s[k]] else []
  {
    assert s[..k + 1][..k] == s[..k];
  }

  lemma {:induction false} ChosenRight(pred: Pred, s: Seq, v: Verdict, x: ListNode)
    requires x in Chosen(pred, s, v)
    ensures pred(x) == v && x in s
  {
    if s != [] && x in Chosen(pred, s[..|s| - 1], v) {
      ChosenRight(pred, s[..|s| - 1], v, x);
    }
  }

  lemma {:induction false} ChosenSize(pred: Pred, s: Seq)
    ensures |Chosen(pred, s, Holds)| + |Chosen(pred, s, Fails)| + |Chosen(pred, s, Throws)| == |s|
  {
    if s != [] {
      ChosenSize(pred, s[..|s| - 1]);
    }
  }

  /** As far as the predicate does not throw, the satisfying elements first, then the others, then the rest. */
  ghost function Partitioned(pred: Pred, s: Seq): Seq {
    var k := Tested(pred, s);
    Chosen(pred, s[..k], Holds) + Chosen(pred, s[..k], Fails) + s[k..]
  }

  lemma {:induction false} NoneChosen(pred: Pred, s: Seq)
    requires forall i :: 0 <= i < |s| ==> pred(s[i]) != Throws
    ensures Chosen(pred, s, Throws) == []
  {
    if s != [] {
      NoneChosen(pred, s[..|s| - 1]);
    }
  }

  /** The ring has been taken apart: `r` and, after it, the satisfying nodes `p`; the others, `q`, and
      after them the nodes `u` still to be tested. The link from the one to the other part is stale. */
  ghost predicate Parting(m: LinkMap, r: Seq, p: Seq, q: Seq, u: Seq) {
    && r != [] && q != [] && Unique(r + p + (q + u)) && Chain(m, r + p) && Chain(m, q + u)
      && Edge(m, LastOf(q + u), r[0])
    && LastOf(r + p) in m && q[0] in m
  }

  lemma PartingStart(m: LinkMap, r: Seq, p: Seq, u: Seq)
    requires Ring(m, r + p + u) && r != [] && u != []
    ensures Parting(m, r, p, [u[0]], u[1..])
  {
    assert [u[0]] + u[1..] == u;
    ChainConcat(m, r + p, u);
    assert LastOf(r + p + u) == LastOf(u) && (r + p + u)[0] == r[0];
  }

  ghost function Joined(m: LinkMap, x: ListNode, y: ListNode): LinkMap
    requires x in m && y in m
  {
    var m1: LinkMap := m[x := m[x].(next := y)];
    m1[y := m1[y].(previous := x)]
  }

  method Join(T: ListTraits, x: ListNode, y: ListNode)
    requires T.Valid() && x in T.links && y in T.links
    modifies T, T.links.Keys
    ensures T.Valid() && T.links == Joined(old(T.links), x, y)
  {
    T.SetNext(x, y);
    T.SetPrevious(y, x);
  }

  lemma PartingParts(m: LinkMap, r: Seq, p: Seq, q: Seq, u: Seq)
    requires Parting(m, r, p, q, u)
    ensures Unique(r + p) && Unique(q + u) && Members(r + p) !! Members(q + u)
      && Members(r + p) + Members(q + u) == Members(r + p + (q + u))
    ensures r[0] in Members(r + p) && LastOf(r + p) in Members(r + p) && q[0] in Members(q + u)
      && LastOf(q + u) in Members(q + u)
    ensures LastOf(q) in Members(q + u) && (u != [] ==> u[0] in Members(q + u))
    ensures (r + p)[0] == r[0] && (q + u)[0] == q[0]
  {
    UniqueConcat(r + p, q + u);
    MembersConcat(r + p, q + u);
    EndsIn(r + p);
    EndsIn(q + u);
    assert LastOf(q) == (q + u)[|q| - 1];
    if u != [] {
      assert u[0] == (q + u)[|q|];
    }
  }

  /** The two parts joined are a ring again. */
  lemma PartingEnd(m: LinkMap, r: Seq, p: Seq, q: Seq, u: Seq)
    requires Parting(m, r, p, q, u)
    ensures Ring(Joined(m, LastOf(r + p), q[0]), r + p + (q + u))
    ensures OnlyLinked(m, Joined(m, LastOf(r + p), q[0]), Members(r + p + (q + u)))
  {
    PartingParts(m, r, p, q, u);
    var m' := Joined(m, LastOf(r + p), q[0]);
    PieceFrame(m, m', r + p, {LastOf(r + p)}, {q[0]});
    PieceFrame(m, m', q + u, {LastOf(r + p)}, {q[0]});
    ChainConcat(m', r + p, q + u);
    assert LastOf(r + p + (q + u)) == LastOf(q + u);
  }

  lemma PartingFails(m: LinkMap, r: Seq, p: Seq, q: Seq, u: Seq)
    requires Parting(m, r, p, q, u) && u != []
    ensures Parting(m, r, p, q + [u[0]], u[1..])
    ensures u[0] in m && m[u[0]].next == FirstOr(u[1..], r[0])
  {
    assert q + [u[0]] + u[1..] == q + u;
    NextUntested(m, r, q, u);
  }

  lemma NextUntested(m: LinkMap, r: Seq, q: Seq, u: Seq)
    requires Chain(m, q + u) && r != [] && u != [] && Edge(m, LastOf(q + u), r[0])
    ensures u[0] in m && m[u[0]].next == FirstOr(u[1..], r[0])
  {
    assert u[0] == (q + u)[|q|];
    if u[1..] == [] {
      assert LastOf(q + u) == u[0];
    } else {
      assert Edge(m, (q + u)[|q|], (q + u)[|q| + 1]);
      assert (q + u)[|q| + 1] == u[1..][0];
    }
  }

  /** `m` after the satisfying node `cur` has been put behind `last`, and closed up behind `bcur`. */
  ghost function Moved(m: LinkMap, last: ListNode, bcur: ListNode, cur: ListNode, nxt: ListNode): LinkMap
    requires last in m && bcur in m && cur in m && nxt in m
  {
    Joined(Joined(m, last, cur), bcur, nxt)
  }

  lemma PartingHolds(m: LinkMap, r: Seq, p: Seq, q: Seq, u: Seq)
    requires Parting(m, r, p, q, u) && u != []
    ensures var nxt := FirstOr(u[1..], r[0]);
      && LastOf(r + p) in m && LastOf(q) in m && u[0] in m && nxt in m && m[u[0]].next == nxt && u[0] != LastOf(r + p)
      && Parting(Moved(m, LastOf(r + p), LastOf(q), u[0], nxt), r, p + [u[0]], q, u[1..])
      && OnlyLinked(m, Moved(m, LastOf(r + p), LastOf(q), u[0], nxt), Members(r + p + (q + u)))
  {
    var cur, u1, nxt := u[0], u[1..], FirstOr(u[1..], r[0]);
    PartingParts(m, r, p, q, u);
    NextUntested(m, r, q, u);
    PartingPieces(m, r, p, q, u);
    var nexts, previouses := {LastOf(r + p), LastOf(q)}, {cur, nxt};
    var m' := Moved(m, LastOf(r + p), LastOf(q), cur, nxt);
    PieceFrame(m, m', r + p, nexts, previouses);
    PieceFrame(m, m', q, nexts, previouses);
    if u1 != [] {
      PieceFrame(m, m', u1, nexts, previouses);
    }
    ChainConcat(m', r + p, [cur]);
    ChainConcat(m', q, u1);
    assert r + (p + [cur]) == r + p + [cur];
    UniqueMoved(r + p, q, u);
  }

  lemma UniqueMoved(a: Seq, q: Seq, u: Seq)
    requires u != [] && Unique(a + (q + u))
    ensures Unique(a + [u[0]] + (q + u[1..]))
  {
    var s, t := a + (q + u), a + [u[0]] + (q + u[1..]);
    forall i | 0 <= i < |t| ensures t[i] == s[Back(i, |a|, |q|)] {
    }
    forall i, j | 0 <= i < j < |t| ensures t[i] != t[j] {
      assert s[Back(i, |a|, |q|)] != s[Back(j, |a|, |q|)];
    }
  }

  /** Where the node at position `i` came from. */
  ghost function Back(i: nat, a: nat, q: nat): nat {
    if i < a then i else if i == a then a + q else if i <= a + q then i - 1 else i
  }

  lemma PartingPieces(m: LinkMap, r: Seq, p: Seq, q: Seq, u: Seq)
    requires Parting(m, r, p, q, u) && u != []
    ensures var cur, u1, nxt := u[0], u[1..], FirstOr(u[1..], r[0]);
      && Chain(m, q) && Chain(m, u1) && Unique(q) && Unique(u1) && LastOf(q) in m && cur in m && nxt in m
      && cur !in Members(q) && cur !in Members(u1) && Members(q) !! Members(u1) && Members(q) <= Members(q + u)
        && Members(u1) <= Members(q + u)
      && LastOf(q) in Members(q)
        && (u1 != [] ==> u1[0] in Members(u1) && LastOf(u1) in Members(u1) && Edge(m, LastOf(u1), r[0]))
  {
    assert u == [u[0]] + u[1..];
    UniqueConcat(r + p, q + u);
    UniqueConcat(q, u);
    UniqueConcat([u[0]], u[1..]);
    ChainConcat(m, q, u);
    ChainConcat(m, [u[0]], u[1..]);
    MembersConcat(q, u);
    MembersConcat([u[0]], u[1..]);
    EndsIn(q);
    assert u[0] in Members([u[0]]);
    if u[1..] != [] {
      EndsIn(u[1..]);
      assert LastOf(q + u) == LastOf(u[1..]);
    }
  }

  /** The first `k` nodes of `u` are tested, and partitioned but for the link between the two parts. */
  ghost predicate Partitioning(m: LinkMap, pred: Pred, r: Seq, u: Seq, k: nat) {
    && k <= |u| && (forall i :: 0 <= i < k ==> pred(u[i]) != Throws)
    && Parting(m, r, Chosen(pred, u[..k], Holds), Chosen(pred, u[..k], Fails), u[k..])
  }

  /** The nodes the loop holds on to. */
  ghost predicate Cursors(pred: Pred, r: Seq, u: Seq, k: nat, last: ListNode, bcur: ListNode, cur: ListNode)
    requires k <= |u| && r != [] && Chosen(pred, u[..k], Fails) != []
  {
    && last == LastOf(r + Chosen(pred, u[..k], Holds)) && bcur == LastOf(Chosen(pred, u[..k], Fails))
    && cur == FirstOr(u[k..], r[0])
  }

  lemma TestNext(m: LinkMap, pred: Pred, r: Seq, u: Seq, k: nat, last: ListNode, bcur: ListNode, cur: ListNode)
    requires Partitioning(m, pred, r, u, k) && k < |u| && pred(u[k]) != Throws
      && Cursors(pred, r, u, k, last, bcur, cur)
    ensures last in m && bcur in m && cur in m && m[cur].next != null && m[cur].next in m && cur == u[k] && cur != last
    ensures pred(cur) == Holds ==>
      var m' := Moved(m, last, bcur, cur, m[cur].next);
      && Partitioning(m', pred, r, u, k + 1) && Cursors(pred, r, u, k + 1, cur, bcur, m[cur].next)
      && OnlyLinked(m, m', Members(r + u))
    ensures pred(cur) == Fails ==>
      Partitioning(m, pred, r, u, k + 1) && Cursors(pred, r, u, k + 1, last, cur, m[cur].next)
  {
    var p, q := Chosen(pred, u[..k], Holds), Chosen(pred, u[..k], Fails);
    ChosenNext(pred, u, k, Holds);
    ChosenNext(pred, u, k, Fails);
    assert u[k..][1..] == u[k + 1..] && u[k..][0] == u[k];
    PartingFails(m, r, p, q, u[k..]);
    PartingHolds(m, r, p, q, u[k..]);
    PartitionMembers(pred, r, u, k);
    assert r + (p + [u[k]]) == (r + p) + [u[k]];
    assert p + [] == p && q + [] == q;
  }

  lemma {:induction false} ChosenMembers(pred: Pred, s: Seq)
    requires forall i :: 0 <= i < |s| ==> pred(s[i]) != Throws
    ensures Members(Chosen(pred, s, Holds)) + Members(Chosen(pred, s, Fails)) == Members(s)
  {
    if s != [] {
      var t, x := s[..|s| - 1], LastOf(s);
      ChosenMembers(pred, t);
      assert s == t + [x];
      MembersConcat(t, [x]);
      MembersConcat(Chosen(pred, t, Holds), [x]);
      MembersConcat(Chosen(pred, t, Fails), [x]);
    }
  }

  lemma PartitionMembers(pred: Pred, r: Seq, u: Seq, k: nat)
    requires k <= |u| && forall i :: 0 <= i < k ==> pred(u[i]) != Throws
    ensures Members(r + Chosen(pred, u[..k], Holds) + (Chosen(pred, u[..k], Fails) + u[k..])) == Members(r + u)
  {
    var p, q := Chosen(pred, u[..k], Holds), Chosen(pred, u[..k], Fails);
    ChosenMembers(pred, u[..k]);
    assert u == u[..k] + u[k..];
    MembersConcat(u[..k], u[k..]);
    MembersConcat(r, u);
    MembersConcat(r, p);
    MembersConcat(q, u[k..]);
    MembersConcat(r + p, q + u[k..]);
  }

  /** What the first and the second partition are, of as much as is tested. */
  ghost function Outcome(pred: Pred, r: Seq, u: Seq): Seq {
    var k := Tested(pred, u);
    r + Chosen(pred, u[..k], Holds) + (Chosen(pred, u[..k], Fails) + u[k..])
  }

  /** The loop's state: `k` nodes are tested, `newF` is the first that failed, and the counts are right. */
  ghost predicate Testing(m: LinkMap, pred: Pred, r: Seq, u: Seq, k: nat, last: ListNode, bcur: ListNode, cur: ListNode,
      newF: ListNode, n1: nat, n2: nat) {
    && Partitioning(m, pred, r, u, k) && Cursors(pred, r, u, k, last, bcur, cur)
      && Chosen(pred, u[..k], Fails)[0] == newF
    && n1 == |Chosen(pred, u[..k], Holds)| && n2 == |Chosen(pred, u[..k], Fails)|
  }

  /** One more node is tested; a satisfying one moves behind `last`. */
  method TestOne(T: ListTraits, pred: Pred, last: ListNode, bcur: ListNode, cur: ListNode, n1: nat, n2: nat,
      ghost r: Seq, ghost u: Seq, ghost k: nat, ghost newF: ListNode)
      returns (last': ListNode, bcur': ListNode, cur': ListNode, n1': nat, n2': nat)
    requires T.Valid() && Testing(T.links, pred, r, u, k, last, bcur, cur, newF, n1, n2) && k < |u| && cur == u[k]
      && pred(cur) != Throws
    modifies T, T.links.Keys
    ensures T.Valid() && Testing(T.links, pred, r, u, k + 1, last', bcur', cur', newF, n1', n2')
    ensures OnlyLinked(old(T.links), T.links, Members(r + u))
  {
    TestNext(T.links, pred, r, u, k, last, bcur, cur);
    ChosenNext(pred, u, k, Holds);
    ChosenNext(pred, u, k, Fails);
    last', bcur', n1', n2' := last, bcur, n1, n2;
    if pred(cur) == Holds {
      n1' := n1 + 1;
      Join(T, last, cur);
      last' := cur;
      cur' := cur.next;
      Join(T, bcur, cur');
    } else {
      n2' := n2 + 1;
      bcur' := cur;
      cur' := cur.next;
    }
  }

  lemma TestedAll(m: LinkMap, pred: Pred, r: Seq, u: Seq, k: nat, last: ListNode, bcur: ListNode, cur: ListNode,
      newF: ListNode, n1: nat, n2: nat, thrown: bool)
    requires Testing(m, pred, r, u, k, last, bcur, cur, newF, n1, n2)
    requires if thrown then k < |u| && pred(u[k]) == Throws else cur == r[0]
    ensures k == Tested(pred, u) && (thrown <==> k < |u|)
  {
    AtEnd(m, pred, r, u, k);
    TestedIs(pred, u, k);
  }

  /** Both ways out of the loop: the two parts are joined. */
  method JoinParts(T: ListTraits, pred: Pred, last: ListNode, newF: ListNode, ghost r: Seq, ghost u: Seq)
    requires T.Valid() && Partitioning(T.links, pred, r, u, Tested(pred, u))
      && last == LastOf(r + Chosen(pred, u[..Tested(pred, u)], Holds))
    requires newF == Chosen(pred, u[..Tested(pred, u)], Fails)[0]
    modifies T, T.links.Keys
    ensures T.Valid() && Ring(T.links, Outcome(pred, r, u)) && OnlyLinked(old(T.links), T.links, Members(r + u))
  {
    ghost var k := Tested(pred, u);
    PartingEnd(T.links, r, Chosen(pred, u[..k], Holds), Chosen(pred, u[..k], Fails), u[k..]);
    PartitionMembers(pred, r, u, k);
    Join(T, last, newF);
  }

  /** The current node is tested, if there is one; if the predicate throws, nothing has changed. */
  method TestNextOne(T: ListTraits, pred: Pred, last: ListNode, bcur: ListNode, cur: ListNode, n1: nat, n2: nat,
      ghost r: Seq, ghost u: Seq, ghost k: nat, ghost newF: ListNode, ghost m0: LinkMap)
      returns (thrown: bool, last': ListNode, bcur': ListNode, cur': ListNode, n1': nat, n2': nat, ghost k': nat)
    requires T.Valid() && Testing(T.links, pred, r, u, k, last, bcur, cur, newF, n1, n2) && r != [] && cur != r[0]
    requires OnlyLinked(m0, T.links, Members(r + u))
    modifies T, T.links.Keys
    ensures T.Valid() && Testing(T.links, pred, r, u, k', last', bcur', cur', newF, n1', n2')
    ensures OnlyLinked(m0, T.links, Members(r + u))
    ensures if thrown then k' == k < |u| && cur' == u[k] && pred(cur') == Throws else k < k' <= |u|
  {
    AtEnd(T.links, pred, r, u, k);
    thrown, last', bcur', cur', n1', n2', k' := pred(cur) == Throws, last, bcur, cur, n1, n2, k;
    if !thrown {
      last', bcur', cur', n1', n2' := TestOne(T, pred, last, bcur, cur, n1, n2, r, u, k, newF);
      k' := k + 1;
    }
  }

  /** From the first node that fails on: every satisfying node is moved behind `last`. Whether the
      predicate throws or not, the two parts are joined in the end. */
  method MoveSatisfying(T: ListTraits, pred: Pred, last0: ListNode, newF: ListNode, cur0: ListNode, end: ListNode,
      m1: nat, ghost r: Seq, ghost u: Seq, ghost k0: nat)
      returns (thrown: bool, n1: nat, n2: nat)
    requires T.Valid() && Testing(T.links, pred, r, u, k0, last0, newF, cur0, newF, m1, 1) && r != [] && end == r[0]
    modifies T, T.links.Keys
    ensures T.Valid() && Ring(T.links, Outcome(pred, r, u)) && OnlyLinked(old(T.links), T.links, Members(r + u))
    ensures thrown <==> Tested(pred, u) < |u|
    ensures n1 == |Chosen(pred, u[..Tested(pred, u)], Holds)| && n2 == |Chosen(pred, u[..Tested(pred, u)], Fails)|
    ensures Chosen(pred, u[..Tested(pred, u)], Fails) != [] && Chosen(pred, u[..Tested(pred, u)], Fails)[0] == newF
  {
    ghost var m, k := T.links, k0;
    var lastToRemove, bcur, cur := last0, newF, cur0;
    n1, n2 := m1, 1;
    thrown := false;
    while cur != end
      invariant T.Valid() && OnlyLinked(m, T.links, Members(r + u)) && !thrown
      invariant Testing(T.links, pred, r, u, k, lastToRemove, bcur, cur, newF, n1, n2)
      decreases |u| - k
    {
      thrown, lastToRemove, bcur, cur, n1, n2, k :=
        TestNextOne(T, pred, lastToRemove, bcur, cur, n1, n2, r, u, k, newF, m);
      if thrown {
        break;
      }
    }
    TestedAll(T.links, pred, r, u, k, lastToRemove, bcur, cur, newF, n1, n2, thrown);
    JoinParts(T, pred, lastToRemove, newF, r, u);
  }

  /** The current node is the end exactly if every node is tested. */
  lemma AtEnd(m: LinkMap, pred: Pred, r: Seq, u: Seq, k: nat)
    requires Partitioning(m, pred, r, u, k)
    ensures FirstOr(u[k..], r[0]) == r[0] <==> k == |u|
    ensures k < |u| ==> FirstOr(u[k..], r[0]) == u[k]
  {
    var p, q := Chosen(pred, u[..k], Holds), Chosen(pred, u[..k], Fails);
    PartingParts(m, r, p, q, u[k..]);
  }

  /** The first `k` nodes all satisfy the predicate; nothing has been changed yet. */
  ghost predicate Untouched(m: LinkMap, pred: Pred, r: Seq, u: Seq, k: nat, bcur: ListNode, cur: ListNode) {
    && Ring(m, r + u) && r != [] && k <= |u| && (forall i :: 0 <= i < k ==> pred(u[i]) == Holds)
    && bcur == LastOf(r + u[..k]) && cur == FirstOr(u[k..], r[0])
  }

  lemma {:induction false} AllHold(pred: Pred, s: Seq)
    requires forall i :: 0 <= i < |s| ==> pred(s[i]) == Holds
    ensures Chosen(pred, s, Holds) == s && Chosen(pred, s, Fails) == []
  {
    if s != [] {
      AllHold(pred, s[..|s| - 1]);
      assert s == s[..|s| - 1] + [LastOf(s)];
    }
  }

  lemma UntouchedAt(m: LinkMap, pred: Pred, r: Seq, u: Seq, k: nat, bcur: ListNode, cur: ListNode)
    requires Untouched(m, pred, r, u, k, bcur, cur)
    ensures cur == r[0] <==> k == |u|
    ensures k < |u| ==> cur == u[k] && cur in m && m[cur].next == FirstOr(u[k + 1..], r[0])
  {
    var a, b := u[..k], u[k..];
    assert u == a + b;
    assert r + u == r + a + b;
    RingMember(m, r + a, b);
    if k < |u| {
      assert b[1..] == u[k + 1..] && b[0] == u[k];
      UntouchedNext(m, r, a, b);
    }
  }

  lemma UntouchedHolds(m: LinkMap, pred: Pred, r: Seq, u: Seq, k: nat, bcur: ListNode, cur: ListNode)
    requires Untouched(m, pred, r, u, k, bcur, cur) && k < |u| && cur == u[k] && pred(cur) == Holds
    ensures Untouched(m, pred, r, u, k + 1, cur, FirstOr(u[k + 1..], r[0]))
  {
    assert r + u[..k + 1] == (r + u[..k]) + [u[k]];
  }

  lemma UntouchedFails(m: LinkMap, pred: Pred, r: Seq, u: Seq, k: nat, bcur: ListNode, cur: ListNode)
    requires Untouched(m, pred, r, u, k, bcur, cur) && k < |u| && cur == u[k] && pred(cur) == Fails
    ensures Testing(m, pred, r, u, k + 1, bcur, cur, FirstOr(u[k + 1..], r[0]), cur, k, 1)
    ensures Chosen(pred, u[..k], Holds) == u[..k]
  {
    var a, b := u[..k], u[k..];
    assert r + u == r + a + b && b[1..] == u[k + 1..] && b[0] == u[k];
    AllHold(pred, a);
    ChosenNext(pred, u, k, Holds);
    ChosenNext(pred, u, k, Fails);
    assert a + [] == a && [] + [u[k]] == [u[k]];
    PartingStart(m, r, a, b);
  }

  lemma UntouchedStop(m: LinkMap, pred: Pred, r: Seq, u: Seq, k: nat, bcur: ListNode, cur: ListNode)
    requires Untouched(m, pred, r, u, k, bcur, cur) && (k < |u| ==> pred(u[k]) == Throws)
    ensures Tested(pred, u) == k && Outcome(pred, r, u) == r + u
    ensures Chosen(pred, u[..k], Holds) == u[..k] && Chosen(pred, u[..k], Fails) == []
  {
    TestedIs(pred, u, k);
    NothingMoved(pred, r, u);
  }

  lemma NothingMoved(pred: Pred, r: Seq, u: Seq)
    requires forall i :: 0 <= i < Tested(pred, u) ==> pred(u[i]) == Holds
    ensures var a := u[..Tested(pred, u)];
      Outcome(pred, r, u) == r + u && Chosen(pred, a, Holds) == a && Chosen(pred, a, Fails) == []
  {
    var k := Tested(pred, u);
    AllHold(pred, u[..k]);
    assert u[..k] + u[k..] == u;
    Glue(r, u[..k], u[k..]);
  }

  lemma Glue(r: Seq, a: Seq, b: Seq)
    ensures r + (a + b) == r + a + ([] + b)
  {
  }

  lemma RingMember(m: LinkMap, a: Seq, b: Seq)
    requires Ring(m, a + b) && a != []
    ensures b != [] ==> b[0] != a[0]
  {
    if b != [] {
      assert (a + b)[|a|] == b[0] && (a + b)[0] == a[0];
    }
  }

  lemma UntouchedNext(m: LinkMap, r: Seq, a: Seq, b: Seq)
    requires Ring(m, r + a + b) && r != [] && b != []
    ensures b[0] in m && m[b[0]].next == FirstOr(b[1..], r[0])
  {
    ChainConcat(m, r + a, b);
    assert LastOf(r + a + b) == LastOf(b) && (r + a + b)[0] == r[0];
    if b[1..] != [] {
      assert Edge(m, b[0], b[0 + 1]);
    }
  }

  /** Partitions the nodes from `beg` up to `end`, in place and keeping the order in both parts. */
  method StablePartition(T: ListTraits, beg: ListNode, end: ListNode, pred: Pred, ghost r: Seq, ghost u: Seq)
      returns (thrown: bool, num1: nat, num2: nat, beg2: ListNode)
    requires T.Valid() && Ring(T.links, r + u) && r != [] && end == r[0] && beg == FirstOr(u, end)
    modifies T, T.links.Keys
    ensures T.Valid() && OnlyLinked(old(T.links), T.links, Members(r + u))
    ensures var k := Tested(pred, u);
      Ring(T.links, r + Chosen(pred, u[..k], Holds) + (Chosen(pred, u[..k], Fails) + u[k..]))
    ensures thrown <==> Tested(pred, u) < |u|
    ensures !thrown ==>
      num1 == |Chosen(pred, u, Holds)| && num2 == |Chosen(pred, u, Fails)|
      && beg2 == FirstOr(Chosen(pred, u, Fails), end)
  {
    PreviousOfFirst(T.links, r, u);
    ghost var k := 0;
    var bcur: ListNode, cur: ListNode, newF := beg.previous, beg, end;
    num1, num2 := 0, 0;
    thrown := false;
    while cur != end
      invariant T.links == old(T.links) && T.Valid() && Untouched(T.links, pred, r, u, k, bcur, cur)
      invariant newF == end && num1 == k && num2 == 0 && !thrown
      decreases |u| - k
    {
      UntouchedAt(T.links, pred, r, u, k, bcur, cur);
      if pred(cur) == Throws {
        UntouchedStop(T.links, pred, r, u, k, bcur, cur);
        return true, num1, num2, newF;
      }
      if pred(cur) == Holds {
        UntouchedHolds(T.links, pred, r, u, k, bcur, cur);
        num1 := num1 + 1;
        bcur := cur;
        cur := cur.next;
        k := k + 1;
      } else {
        UntouchedFails(T.links, pred, r, u, k, bcur, cur);
        newF := cur;
        thrown, num1, num2 := MoveSatisfying(T, pred, bcur, newF, cur.next, end, num1, r, u, k + 1);
        Whole(u);
        return thrown, num1, num2, newF;
      }
    }
    UntouchedAt(T.links, pred, r, u, k, bcur, cur);
    UntouchedStop(T.links, pred, r, u, k, bcur, cur);
    Whole(u);
    beg2 := newF;
  }

  lemma Whole(u: Seq)
    ensures u[..|u|] == u
  {
  }

  lemma PreviousOfFirst(m: LinkMap, r: Seq, u: Seq)
    requires Ring(m, r + u) && r != []
    ensures FirstOr(u, r[0]) in m && m[FirstOr(u, r[0])].previous == LastOf(r) && r + [] == r
    ensures u[..0] == [] && u[0..] == u
  {
    if u == [] {
      assert r + u == r;
    } else {
      ChainConcat(m, r, u);
    }
  }
}
