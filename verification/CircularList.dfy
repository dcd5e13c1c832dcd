/** Linking, unlinking and moving nodes of circular lists (circular_list_algorithms.hpp). */
module CircularList {
  import opened ListNodes
  import opened Rings

  /** `m` after the nodes from `b` up to `e` have been put before `p`. */
  ghost function Transferred(m: LinkMap, p: ListNode, b: ListNode, e: ListNode): LinkMap
    requires p in m && b in m && e in m
    requires m[p].previous != null && m[b].previous != null && m[e].previous != null
    requires m[p].previous in m && m[b].previous in m && m[e].previous in m
  {
    var prevP: ListNode, prevB: ListNode, prevE: ListNode := m[p].previous, m[b].previous, m[e].previous;
    var m1: LinkMap := m[prevE := m[prevE].(next := p)];
    var m2: LinkMap := m1[p := m1[p].(previous := prevE)];
    var m3: LinkMap := m2[prevB := m2[prevB].(next := e)];
    var m4: LinkMap := m3[e := m3[e].(previous := prevB)];
    var m5: LinkMap := m4[prevP := m4[prevP].(next := b)];
    m5[b := m5[b].(previous := prevP)]
  }

  /** Puts the nodes from `b` up to `e` before `p`. */
  method Transfer(T: ListTraits, p: ListNode, b: ListNode, e: ListNode)
    requires T.Valid() && p in T.links && b in T.links && e in T.links
    requires T.links[p].previous != null && T.links[b].previous != null && T.links[e].previous != null
    requires T.links[p].previous in T.links && T.links[b].previous in T.links && T.links[e].previous in T.links
    modifies T, T.links.Keys
    ensures T.Valid() && T.links == if b == e then old(T.links) else Transferred(old(T.links), p, b, e)
  {
    if b != e {
      var prevP: ListNode, prevB: ListNode, prevE: ListNode := p.previous, b.previous, e.previous;
      T.SetNext(prevE, p);
      T.SetPrevious(p, prevE);
      T.SetNext(prevB, e);
      T.SetPrevious(e, prevB);
      T.SetNext(prevP, b);
      T.SetPrevious(b, prevP);
    }
  }

  lemma TransferLinks(m: LinkMap, p: ListNode, b: ListNode, e: ListNode)
    requires p in m && b in m && e in m && p != b && p != e && b != e
    requires m[p].previous != null && m[b].previous != null && m[e].previous != null
    requires m[p].previous in m && m[b].previous in m && m[e].previous in m
    requires m[p].previous != m[b].previous && m[p].previous != m[e].previous && m[b].previous != m[e].previous
    ensures var m' := Transferred(m, p, b, e);
      && OnlyLinked(m, m', {p, b, e, m[p].previous, m[b].previous, m[e].previous})
      && (forall x <- m :: x !in {m[p].previous, m[b].previous, m[e].previous} ==> m'[x].next == m[x].next)
      && (forall x <- m :: x !in {p, b, e} ==> m'[x].previous == m[x].previous)
      && Edge(m', m[e].previous, p) && Edge(m', m[b].previous, e) && Edge(m', m[p].previous, b)
  {
  }

  /** Within one ring: the nodes `a` go from before `b` to after `b`. */
  lemma TransferWithin(m: LinkMap, a: Seq, b: Seq, c: Seq)
    requires Ring(m, a + b + c) && a != [] && b != [] && c != []
    ensures c[0] in m && a[0] in m && b[0] in m
    ensures m[c[0]].previous == LastOf(b) && m[a[0]].previous == LastOf(c) && m[b[0]].previous == LastOf(a)
    ensures LastOf(a) in m && LastOf(b) in m && LastOf(c) in m
    ensures Ring(Transferred(m, c[0], a[0], b[0]), b + a + c)
    ensures OnlyLinked(m, Transferred(m, c[0], a[0], b[0]), Members(a + b + c))
  {
    ChainConcat(m, a + b, c);
    ChainConcat(m, a, b);
    UniqueConcat(a + b, c);
    UniqueConcat(a, b);
    MembersConcat(a, b);
    MembersConcat(a + b, c);
    assert LastOf(a + b) == LastOf(b) && (a + b)[0] == a[0];
    assert (a + b + c)[0] == a[0] && LastOf(a + b + c) == LastOf(c);
    EndsIn(a);
    EndsIn(b);
    EndsIn(c);
    TransferLinks(m, c[0], a[0], b[0]);
    var m' := Transferred(m, c[0], a[0], b[0]);
    var nexts, previouses := {LastOf(a), LastOf(b), LastOf(c)}, {a[0], b[0], c[0]};
    PieceFrame(m, m', a, nexts, previouses);
    PieceFrame(m, m', b, nexts, previouses);
    PieceFrame(m, m', c, nexts, previouses);
    ChainConcat(m', b, a);
    ChainConcat(m', b + a, c);
    UniqueConcat(b, a);
    UniqueConcat(b + a, c);
    MembersConcat(b, a);
    assert LastOf(b + a) == LastOf(a) && (b + a + c)[0] == b[0] && LastOf(b + a + c) == LastOf(c);
  }

  /** If the place to go to is the very end of the range, the range becomes a ring of its own instead. */
  lemma TransferToEnd(m: LinkMap, a: Seq, b: Seq)
    requires Ring(m, a + b) && a != [] && b != []
    ensures a[0] in m && b[0] in m && m[a[0]].previous == LastOf(b) && m[b[0]].previous == LastOf(a) && LastOf(a) in m
      && LastOf(b) in m
    ensures var m' := Transferred(m, b[0], a[0], b[0]); Ring(m', a) && Ring(m', b) && OnlyLinked(m, m', Members(a + b))
  {
    ChainConcat(m, a, b);
    UniqueConcat(a, b);
    MembersConcat(a, b);
    assert (a + b)[0] == a[0] && LastOf(a + b) == LastOf(b);
    EndsIn(a);
    EndsIn(b);
    var m' := Transferred(m, b[0], a[0], b[0]);
    var nexts, previouses := {LastOf(a), LastOf(b)}, {a[0], b[0]};
    PieceFrame(m, m', a, nexts, previouses);
    PieceFrame(m, m', b, nexts, previouses);
  }

  /** A ring that meets a closed set of nodes lies inside it. */
  lemma RingInside(m: LinkMap, r: Seq, x: ListNode, inside: set<ListNode>)
    requires Ring(m, r) && x in r && x in inside && forall n <- inside :: n in m ==> m[n].next in inside
    ensures Members(r) <= inside
  {
    var k :| 0 <= k < |r| && r[k] == x;
    var q := r[k..] + r[..k];
    assert r[..k] + r[k..] == r;
    Turned(m, r[..k], r[k..]);
    assert q[0] == x;
    var i := 0;
    while i < |q| - 1
      invariant 0 <= i < |q| && forall j :: 0 <= j <= i ==> q[j] in inside
    {
      assert Edge(m, q[i], q[i + 1]);
      i := i + 1;
    }
    MembersTurned(r[k..], r[..k]);
    forall n <- Members(r) ensures n in inside {
      assert n in Members(q);
      var j :| 0 <= j < |q| && q[j] == n;
    }
  }

  /** Two rings without a common node are not one ring. */
  lemma NotOneRing(m: LinkMap, a: Seq, b: Seq, r: Seq)
    requires Ring(m, a) && Ring(m, b) && Members(a) !! Members(b)
    ensures !(Ring(m, r) && Members(r) == Members(a) + Members(b))
  {
    if Ring(m, r) && Members(r) == Members(a) + Members(b) {
      EndsIn(a);
      EndsIn(b);
      forall n <- Members(a) ensures n in m ==> m[n].next in Members(a) {
        var j :| 0 <= j < |a| && a[j] == n;
        RingAt(m, a, j);
      }
      RingInside(m, r, a[0], Members(a));
    }
  }

  /** The range `a` of a ring goes to position `j` of what follows it. */
  lemma TransferInside(m: LinkMap, a: Seq, b: Seq, j: nat)
    requires Ring(m, a + b) && a != [] && 0 < j < |b|
    ensures b[j] in m && a[0] in m && b[0] in m && b[j] != b[0]
    ensures m[b[j]].previous == b[j - 1] && m[a[0]].previous == LastOf(b) && m[b[0]].previous == LastOf(a)
    ensures b[j - 1] in m && LastOf(a) in m && LastOf(b) in m
    ensures var m' := Transferred(m, b[j], a[0], b[0]);
      OnlyLinked(m, m', Members(a + b)) && Ring(m', b[..j] + a + b[j..])
        && Members(b[..j] + a + b[j..]) == Members(a + b)
  {
    var b1, b2 := b[..j], b[j..];
    TakenApart(a, b, j);
    TransferWithin(m, a, b1, b2);
    UniqueConcat(a, b);
    MembersTurned(a, b1);
    MembersConcat(a + b1, b2);
    MembersConcat(b1 + a, b2);
  }

  lemma TakenApart(a: Seq, b: Seq, j: nat)
    requires 0 < j < |b|
    ensures a + b[..j] + b[j..] == a + b && b[..j] != [] && b[j..] != []
    ensures b[..j][0] == b[0] && b[j..][0] == b[j] && LastOf(b[..j]) == b[j - 1] && LastOf(b[j..]) == LastOf(b)
  {
  }

  lemma NoOtherRing(m: LinkMap, a: Seq, b: Seq)
    requires Ring(m, a) && Ring(m, b) && Members(a) !! Members(b)
    ensures !exists r :: Ring(m, r) && Members(r) == Members(a + b)
  {
    MembersConcat(a, b);
    forall r ensures !(Ring(m, r) && Members(r) == Members(a + b)) {
      NotOneRing(m, a, b, r);
    }
  }

  /** A range `a` of a ring, and a place in the ring outside of it: moving the range there works exactly if the place
      is not the end of the range. */
  lemma TransferExact(m: LinkMap, a: Seq, b: Seq, j: nat)
    requires Ring(m, a + b) && a != [] && j < |b|
    ensures b[j] in m && a[0] in m && b[0] in m && m[b[j]].previous != null && m[a[0]].previous != null
      && m[b[0]].previous != null
    ensures m[b[j]].previous in m && m[a[0]].previous in m && m[b[0]].previous in m
    ensures var m' := Transferred(m, b[j], a[0], b[0]);
      (exists r :: Ring(m', r) && Members(r) == Members(a + b)) <==> b[j] != b[0]
  {
    if j > 0 {
      TransferInside(m, a, b, j);
    } else {
      TransferToEnd(m, a, b);
      UniqueConcat(a, b);
      NoOtherRing(Transferred(m, b[0], a[0], b[0]), a, b);
    }
  }

  /** From one ring to another: the nodes `a` go from before `b` to before `c`. */
  lemma TransferAcross(m: LinkMap, a: Seq, b: Seq, c: Seq)
    requires Ring(m, a + b) && Ring(m, c) && Members(a + b) !! Members(c) && a != [] && b != []
    ensures c[0] in m && a[0] in m && b[0] in m
    ensures m[c[0]].previous == LastOf(c) && m[a[0]].previous == LastOf(b) && m[b[0]].previous == LastOf(a)
    ensures LastOf(a) in m && LastOf(b) in m && LastOf(c) in m
    ensures Ring(Transferred(m, c[0], a[0], b[0]), b) && Ring(Transferred(m, c[0], a[0], b[0]), a + c)
    ensures OnlyLinked(m, Transferred(m, c[0], a[0], b[0]), Members(a + b) + Members(c))
  {
    ChainConcat(m, a, b);
    UniqueConcat(a, b);
    MembersConcat(a, b);
    assert (a + b)[0] == a[0] && LastOf(a + b) == LastOf(b);
    EndsIn(a);
    EndsIn(b);
    EndsIn(c);
    TransferLinks(m, c[0], a[0], b[0]);
    var m' := Transferred(m, c[0], a[0], b[0]);
    var nexts, previouses := {LastOf(a), LastOf(b), LastOf(c)}, {a[0], b[0], c[0]};
    PieceFrame(m, m', a, nexts, previouses);
    PieceFrame(m, m', b, nexts, previouses);
    PieceFrame(m, m', c, nexts, previouses);
    ChainConcat(m', a, c);
    UniqueConcat(a, c);
    assert LastOf(a + c) == LastOf(c) && (a + c)[0] == a[0];
  }

  /** A node of a ring, with its neighbours. */
  lemma AtHead(m: LinkMap, x: ListNode, s: Seq)
    requires Ring(m, [x] + s)
    ensures x in m && m[x] == Links(if s == [] then x else s[0], if s == [] then x else LastOf(s))
    ensures s != [] ==> s[0] in m && LastOf(s) in m && m[s[0]].previous == x && m[LastOf(s)].next == x
    ensures x !in s
  {
    ChainConcat(m, [x], s);
    UniqueConcat([x], s);
    assert x in Members([x]) && (x in s ==> x in Members(s));
    assert ([x] + s)[0] == x;
    if s != [] {
      assert LastOf([x] + s) == LastOf(s) && LastOf([x]) == x;
    }
  }

  ghost function Unlinked(m: LinkMap, x: ListNode): LinkMap
    requires x in m && m[x].next != null && m[x].previous != null && m[x].next in m && m[x].previous in m
  {
    var next: ListNode, prev: ListNode := m[x].next, m[x].previous;
    var m1: LinkMap := m[prev := m[prev].(next := next)];
    m1[next := m1[next].(previous := prev)]
  }

  method Unlink(T: ListTraits, node: ListNode) returns (next: ListNode)
    requires T.Valid() && node in T.links && T.links[node].next != null && T.links[node].previous != null
    requires T.links[node].next in T.links && T.links[node].previous in T.links
    modifies T, T.links.Keys
    ensures T.Valid() && T.links == Unlinked(old(T.links), node) && next == old(node.next)
  {
    next := node.next;
    var prev: ListNode := node.previous;
    T.SetNext(prev, next);
    T.SetPrevious(next, prev);
  }

  lemma UnlinkHead(m: LinkMap, x: ListNode, s: Seq)
    requires Ring(m, [x] + s)
    ensures x in m && m[x].next != null && m[x].previous != null && m[x].next in m && m[x].previous in m
    ensures s != [] ==> Ring(Unlinked(m, x), s) && Unlinked(m, x)[x] == m[x]
    ensures OnlyLinked(m, Unlinked(m, x), Members(s) + {x})
  {
    AtHead(m, x, s);
    if s != [] {
      EndsIn(s);
      ChainConcat(m, [x], s);
      UniqueConcat([x], s);
      PieceFrame(m, Unlinked(m, x), s, {LastOf(s)}, {s[0]});
    }
  }

  ghost function LinkedBefore(m: LinkMap, nxt: ListNode, x: ListNode): LinkMap
    requires nxt in m && x in m && m[nxt].previous != null && m[nxt].previous in m
  {
    var prev: ListNode := m[nxt].previous;
    var m1: LinkMap := m[x := m[x].(previous := prev)];
    var m2: LinkMap := m1[x := m1[x].(next := nxt)];
    var m3: LinkMap := m2[nxt := m2[nxt].(previous := x)];
    m3[prev := m3[prev].(next := x)]
  }

  method LinkBefore(T: ListTraits, nxt: ListNode, node: ListNode)
    requires T.Valid() && nxt in T.links && node in T.links && T.links[nxt].previous != null
      && T.links[nxt].previous in T.links
    modifies T, T.links.Keys
    ensures T.Valid() && T.links == LinkedBefore(old(T.links), nxt, node)
  {
    var prev: ListNode := nxt.previous;
    T.SetPrevious(node, prev);
    T.SetNext(node, nxt);
    T.SetPrevious(nxt, node);
    T.SetNext(prev, node);
  }

  ghost function LinkedAfter(m: LinkMap, prv: ListNode, x: ListNode): LinkMap
    requires prv in m && x in m && m[prv].next != null && m[prv].next in m
  {
    var next: ListNode := m[prv].next;
    var m1: LinkMap := m[x := m[x].(previous := prv)];
    var m2: LinkMap := m1[x := m1[x].(next := next)];
    var m3: LinkMap := m2[prv := m2[prv].(next := x)];
    m3[next := m3[next].(previous := x)]
  }

  method LinkAfter(T: ListTraits, prv: ListNode, node: ListNode)
    requires T.Valid() && prv in T.links && node in T.links && T.links[prv].next != null && T.links[prv].next in T.links
    modifies T, T.links.Keys
    ensures T.Valid() && T.links == LinkedAfter(old(T.links), prv, node)
  {
    var next: ListNode := prv.next;
    T.SetPrevious(node, prv);
    T.SetNext(node, next);
    T.SetNext(prv, node);
    T.SetPrevious(next, node);
  }

  /** A node put before the first, or after the last, of the nodes of a ring as read from some place on. */
  lemma LinkHead(m: LinkMap, x: ListNode, c: Seq)
    requires Ring(m, c) && x in m && x !in c
    ensures c[0] in m && m[c[0]].previous == LastOf(c) && LastOf(c) in m && m[LastOf(c)].next == c[0]
    ensures Ring(LinkedBefore(m, c[0], x), [x] + c) && Ring(LinkedAfter(m, LastOf(c), x), [x] + c)
    ensures OnlyLinked(m, LinkedBefore(m, c[0], x), Members(c) + {x})
      && OnlyLinked(m, LinkedAfter(m, LastOf(c), x), Members(c) + {x})
  {
    EndsIn(c);
    var m1, m2 := LinkedBefore(m, c[0], x), LinkedAfter(m, LastOf(c), x);
    PieceFrame(m, m1, c, {LastOf(c), x}, {c[0], x});
    PieceFrame(m, m2, c, {LastOf(c), x}, {c[0], x});
    ChainConcat(m1, [x], c);
    ChainConcat(m2, [x], c);
    UniqueConcat([x], c);
    assert LastOf([x] + c) == LastOf(c) && ([x] + c)[0] == x && LastOf([x]) == x;
  }

  ghost function TransferredOne(m: LinkMap, p: ListNode, i: ListNode): LinkMap
    requires p in m && i in m && m[i].next != null && m[i].next in m
    requires m[p].previous != null && m[i].previous != null && m[p].previous in m && m[i].previous in m
  {
    var n: ListNode, prevP: ListNode, prevI: ListNode := m[i].next, m[p].previous, m[i].previous;
    var m1: LinkMap := m[prevP := m[prevP].(next := i)];
    var m2: LinkMap := m1[i := m1[i].(previous := prevP)];
    var m3: LinkMap := m2[i := m2[i].(next := p)];
    var m4: LinkMap := m3[p := m3[p].(previous := i)];
    var m5: LinkMap := m4[n := m4[n].(previous := prevI)];
    m5[prevI := m5[prevI].(next := n)]
  }

  /** Puts the node `i` before `p`; where it is there already, nothing happens. */
  method TransferOne(T: ListTraits, p: ListNode, i: ListNode)
    requires T.Valid() && p in T.links && i in T.links && T.links[i].next != null && T.links[i].next in T.links
    requires T.links[p].previous != null && T.links[i].previous != null && T.links[p].previous in T.links
      && T.links[i].previous in T.links
    modifies T, T.links.Keys
    ensures T.Valid() && T.links == if old(i.next) == p || i == p then old(T.links)
      else TransferredOne(old(T.links), p, i)
  {
    var n: ListNode := i.next;
    if n != p && i != p {
      var prevP: ListNode, prevI: ListNode := p.previous, i.previous;
      T.SetNext(prevP, i);
      T.SetPrevious(i, prevP);
      T.SetNext(i, p);
      T.SetPrevious(p, i);
      T.SetPrevious(n, prevI);
      T.SetNext(prevI, n);
    }
  }

  /** It does what moving the range of that one node does. */
  lemma OneIsRange(m: LinkMap, p: ListNode, i: ListNode, n: ListNode)
    requires p in m && i in m && n in m && m[i].next == n && m[n].previous == i && p != i && p != n && n != i
    requires m[p].previous != null && m[i].previous != null && m[p].previous in m && m[i].previous in m
    requires m[p].previous != m[i].previous && m[p].previous != i && m[i].previous != i
    ensures TransferredOne(m, p, i) == Transferred(m, p, i, n)
  {
  }

  ghost function RangeUnlinked(m: LinkMap, b: ListNode, e: ListNode): LinkMap
    requires b in m && e in m && m[b].previous != null && m[b].previous in m
  {
    var prevB: ListNode := m[b].previous;
    var m1: LinkMap := m[e := m[e].(previous := prevB)];
    m1[prevB := m1[prevB].(next := e)]
  }

  /** Unlinks the nodes from `b` up to `e`. */
  method UnlinkRange(T: ListTraits, b: ListNode, e: ListNode)
    requires T.Valid() && b in T.links && e in T.links && T.links[b].previous != null && T.links[b].previous in T.links
    modifies T, T.links.Keys
    ensures T.Valid() && T.links == if b == e then old(T.links) else RangeUnlinked(old(T.links), b, e)
  {
    if b != e {
      var prevB: ListNode := b.previous;
      T.SetPrevious(e, prevB);
      T.SetNext(prevB, e);
    }
  }

  /** The nodes `y` come out of the ring, still linked among each other and to what followed. */
  lemma UnlinkPiece(m: LinkMap, y: Seq, from: Seq)
    requires Ring(m, y + from) && y != [] && from != []
    ensures y[0] in m && from[0] in m && y[0] != from[0] && m[y[0]].previous == LastOf(from) && LastOf(from) in m
    ensures var m' := RangeUnlinked(m, y[0], from[0]);
      Ring(m', from) && Chain(m', y) && LastOf(y) in m' && m'[LastOf(y)].next == from[0]
        && OnlyLinked(m, m', Members(y + from))
  {
    ChainConcat(m, y, from);
    UniqueConcat(y, from);
    MembersConcat(y, from);
    EndsIn(y);
    EndsIn(from);
    assert (y + from)[0] == y[0] && LastOf(y + from) == LastOf(from);
    var m' := RangeUnlinked(m, y[0], from[0]);
    PieceFrame(m, m', from, {LastOf(from)}, {from[0]});
    PieceFrame(m, m', y, {LastOf(from)}, {from[0]});
  }
}
