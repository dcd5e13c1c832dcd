/** How the links of nodes form rings. */
module Rings {
  import opened ListNodes

  type Seq = seq<ListNode>

  ghost predicate Edge(m: LinkMap, x: ListNode, y: ListNode) {
    x in m && y in m && m[x].next == y && m[y].previous == x
  }

  ghost function LastOf(s: Seq): ListNode
    requires s != []
  {
    s[|s| - 1]
  }

  /** The first of `s`, or else `x`. */
  ghost function FirstOr(s: Seq, x: ListNode): ListNode {
    if s == [] then x else s[0]
  }

  ghost predicate Unique(s: Seq) {
    forall i, j :: 0 <= i < j < |s| ==> s[i] != s[j]
  }

  /** Neighbours in `s` are linked to each other. */
  ghost predicate Chain(m: LinkMap, s: Seq) {
    forall i :: 0 <= i < |s| - 1 ==> Edge(m, s[i], s[i + 1])
  }

  /** The nodes of `s` are distinct, and linked in a ring. */
  ghost predicate Ring(m: LinkMap, s: Seq) {
    s != [] && Unique(s) && Chain(m, s) && Edge(m, LastOf(s), s[0])
  }

  /** `root` is the root node of the list of the elements `s`. */
  ghost predicate IsList(m: LinkMap, root: ListNode, s: Seq) {
    Ring(m, [root] + s)
  }

  ghost function Members(s: Seq): set<ListNode> {
    set n | n in s
  }

  lemma ChainConcat(m: LinkMap, a: Seq, b: Seq)
    ensures Chain(m, a + b) <==> Chain(m, a) && Chain(m, b) && (a != [] && b != [] ==> Edge(m, LastOf(a), b[0]))
  {
    var s := a + b;
    assert forall i :: 0 <= i < |a| ==> s[i] == a[i];
    assert forall i :: 0 <= i < |b| ==> s[|a| + i] == b[i];
    if Chain(m, s) {
      forall i | 0 <= i < |b| - 1 ensures Edge(m, b[i], b[i + 1]) {
        assert Edge(m, s[|a| + i], s[|a| + i + 1]);
      }
      if a != [] && b != [] {
        assert Edge(m, s[|a| - 1], s[|a| - 1 + 1]);
      }
    } else if Chain(m, a) && Chain(m, b) && (a != [] && b != [] ==> Edge(m, LastOf(a), b[0])) {
      forall i | 0 <= i < |s| - 1 ensures Edge(m, s[i], s[i + 1]) {
        if i < |a| - 1 {
          assert Edge(m, a[i], a[i + 1]);
        } else if i >= |a| {
          assert Edge(m, b[i - |a|], b[i - |a| + 1]);
        }
      }
    }
  }

  lemma UniqueConcat(a: Seq, b: Seq)
    ensures Unique(a + b) <==> Unique(a) && Unique(b) && Members(a) !! Members(b)
  {
    var s := a + b;
    assert forall i :: 0 <= i < |a| ==> s[i] == a[i];
    assert forall i :: 0 <= i < |b| ==> s[|a| + i] == b[i];
    if Unique(s) {
      forall x | x in a ensures x !in b {
        var i :| 0 <= i < |a| && a[i] == x;
        forall j | 0 <= j < |b| ensures b[j] != x {
          assert s[i] != s[|a| + j];
        }
      }
      forall i, j | 0 <= i < j < |b| ensures b[i] != b[j] {
        assert s[|a| + i] != s[|a| + j];
      }
    } else if Unique(a) && Unique(b) && Members(a) !! Members(b) {
      forall i, j | 0 <= i < j < |s| ensures s[i] != s[j] {
        if i < |a| <= j {
          assert s[i] in Members(a) && s[j] == b[j - |a|] && s[j] in Members(b);
        }
      }
    }
  }

  lemma MembersConcat(a: Seq, b: Seq)
    ensures Members(a + b) == Members(a) + Members(b)
  {
  }

  lemma MembersTurned(a: Seq, b: Seq)
    ensures Members(a + b) == Members(b + a)
  {
    MembersConcat(a, b);
    MembersConcat(b, a);
  }

  /** A ring can be read from any of its nodes on. */
  lemma Turned(m: LinkMap, a: Seq, b: Seq)
    requires Ring(m, a + b)
    ensures Ring(m, b + a)
  {
    ChainConcat(m, a, b);
    ChainConcat(m, b, a);
    UniqueConcat(a, b);
    UniqueConcat(b, a);
    if a == [] || b == [] {
      assert a + b == b + a;
    } else {
      assert LastOf(a + b) == LastOf(b) && (a + b)[0] == a[0];
      assert LastOf(b + a) == LastOf(a) && (b + a)[0] == b[0];
    }
  }

  /** A chain only depends on the links between its nodes. */
  lemma ChainFrame(m: LinkMap, m': LinkMap, s: Seq)
    requires Chain(m, s)
    requires forall i :: 0 <= i < |s| ==> s[i] in m ==> s[i] in m'
    requires forall i :: 0 <= i < |s| - 1 ==> s[i] in m ==> m'[s[i]].next == m[s[i]].next
    requires forall i :: 0 < i < |s| ==> s[i] in m ==> m'[s[i]].previous == m[s[i]].previous
    ensures Chain(m', s)
  {
    forall i | 0 <= i < |s| - 1 ensures Edge(m', s[i], s[i + 1]) {
      assert Edge(m, s[i], s[i + 1]);
    }
  }

  lemma RingFrame(m: LinkMap, m': LinkMap, s: Seq)
    requires Ring(m, s) && forall n <- s :: n in m ==> n in m' && m'[n] == m[n]
    ensures Ring(m', s)
  {
    ChainFrame(m, m', s);
  }

  lemma EndsIn(s: Seq)
    requires s != []
    ensures s[0] in Members(s) && LastOf(s) in Members(s)
  {
  }

  /** Of a piece of a ring, only the outward links of its two ends may have changed. */
  lemma PieceFrame(m: LinkMap, m': LinkMap, s: Seq, nexts: set<ListNode>, previouses: set<ListNode>)
    requires Chain(m, s) && Unique(s) && s != [] && m'.Keys == m.Keys
    requires nexts * Members(s) <= {LastOf(s)} && previouses * Members(s) <= {s[0]}
    requires forall x <- m :: x !in nexts ==> m'[x].next == m[x].next
    requires forall x <- m :: x !in previouses ==> m'[x].previous == m[x].previous
    ensures Chain(m', s)
  {
    forall i | 0 <= i < |s| - 1 ensures s[i] !in nexts {
      var x := s[i];
      assert x in Members(s) && x != LastOf(s);
      assert x in nexts ==> x in nexts * Members(s);
    }
    forall i | 0 < i < |s| ensures s[i] !in previouses {
      var x := s[i];
      assert x in Members(s) && x != s[0];
      assert x in previouses ==> x in previouses * Members(s);
    }
    ChainFrame(m, m', s);
  }

  /** The positions after and before `i` in a ring of `n` nodes. */
  ghost function NextIn(i: nat, n: nat): nat {
    if i + 1 == n then 0 else i + 1
  }

  ghost function PreviousIn(i: nat, n: nat): nat {
    if i == 0 && n > 0 then n - 1 else if i == 0 then 0 else i - 1
  }

  ghost predicate LinkedAt(m: LinkMap, s: Seq, i: nat)
    requires i < |s|
  {
    s[i] in m && m[s[i]] == Links(s[NextIn(i, |s|)], s[PreviousIn(i, |s|)])
  }

  /** The neighbours in a ring, by position. */
  lemma RingAt(m: LinkMap, s: Seq, j: nat)
    requires Ring(m, s) && j < |s|
    ensures LinkedAt(m, s, j)
  {
    if j < |s| - 1 {
      assert Edge(m, s[j], s[j + 1]);
    }
    if j > 0 {
      assert Edge(m, s[j - 1], s[j - 1 + 1]);
    }
  }

  lemma LinkedRing(m: LinkMap, s: Seq)
    requires s != [] && Unique(s) && forall i :: 0 <= i < |s| ==> LinkedAt(m, s, i)
    ensures Ring(m, s)
  {
    forall i | 0 <= i < |s| - 1 ensures Edge(m, s[i], s[i + 1]) {
      assert LinkedAt(m, s, i) && LinkedAt(m, s, i + 1);
    }
    assert LinkedAt(m, s, |s| - 1) && LinkedAt(m, s, 0);
  }

  /** Nodes are a ring exactly if they are distinct and store the right neighbours. */
  lemma RingByLinks(m: LinkMap, s: Seq)
    ensures Ring(m, s) <==> s != [] && Unique(s) && forall i :: 0 <= i < |s| ==> LinkedAt(m, s, i)
  {
    if Ring(m, s) {
      forall i | 0 <= i < |s| ensures LinkedAt(m, s, i) {
        RingAt(m, s, i);
      }
    }
    if s != [] && Unique(s) && forall i :: 0 <= i < |s| ==> LinkedAt(m, s, i) {
      LinkedRing(m, s);
    }
  }
}
