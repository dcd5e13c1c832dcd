/** Moving elements from one list to another, in terms of the two lists. */
module Splicing {
  import opened ListNodes
  import opened Rings
  import opened CircularList

  /** Two lists without a common node. */
  ghost predicate Disjoint(h1: ListNode, s1: Seq, h2: ListNode, s2: Seq) {
    Members([h1] + s1) !! Members([h2] + s2)
  }

  /** The elements `y` of the list `x + y + z` go between `a` and `c` of the other list. */
  lemma Spliced(m: LinkMap, h1: ListNode, a: Seq, c: Seq, h2: ListNode, x: Seq, y: Seq, z: Seq)
    requires IsList(m, h1, a + c) && IsList(m, h2, x + y + z) && y != [] && Disjoint(h1, a + c, h2, x + y + z)
    ensures var p, b, e := FirstOr(c, h1), y[0], FirstOr(z, h2);
      && p in m && b in m && e in m && b != e
      && m[p].previous != null && m[b].previous != null && m[e].previous != null
      && m[p].previous in m && m[b].previous in m && m[e].previous in m
      && var m' := Transferred(m, p, b, e);
         IsList(m', h1, a + y + c) && IsList(m', h2, x + z)
           && OnlyLinked(m, m', Members([h1] + (a + c)) + Members([h2] + (x + y + z)))
  {
    var from, to := z + ([h2] + x), c + ([h1] + a);
    SplicedSeqs(h1, a, c, h2, x, y, z);
    Turned(m, [h2] + x, y + z);
    Turned(m, [h1] + a, c);
    MembersTurned([h2] + x, y + z);
    MembersTurned([h1] + a, c);
    TransferAcross(m, y, from, to);
    var m' := Transferred(m, to[0], y[0], from[0]);
    Turned(m', z, [h2] + x);
    Turned(m', y + c, [h1] + a);
    NotSame(m, y, from);
  }

  lemma NotSame(m: LinkMap, y: Seq, from: Seq)
    requires Ring(m, y + from) && y != [] && from != []
    ensures y[0] != from[0]
  {
    assert (y + from)[|y|] == from[0] && (y + from)[0] == y[0];
  }

  lemma SplicedSeqs(h1: ListNode, a: Seq, c: Seq, h2: ListNode, x: Seq, y: Seq, z: Seq)
    requires y != []
    ensures [h2] + (x + y + z) == ([h2] + x) + (y + z) && (y + z) + ([h2] + x) == y + (z + ([h2] + x))
    ensures [h1] + (a + c) == ([h1] + a) + c
    ensures (z + ([h2] + x))[0] == FirstOr(z, h2) && (c + ([h1] + a))[0] == FirstOr(c, h1)
    ensures ([h2] + x) + z == [h2] + (x + z)
    ensures y + (c + ([h1] + a)) == (y + c) + ([h1] + a) && ([h1] + a) + (y + c) == [h1] + (a + y + c)
  {
  }

  /** The nodes of both lists together stay the same. */
  lemma SplicedMembers(h1: ListNode, a: Seq, c: Seq, h2: ListNode, x: Seq, y: Seq, z: Seq)
    ensures Members([h1] + (a + y + c)) + Members([h2] + (x + z)) ==
      Members([h1] + (a + c)) + Members([h2] + (x + y + z))
    ensures Disjoint(h1, a + c, h2, x + y + z) && Unique([h2] + (x + y + z)) ==> Disjoint(h1, a + y + c, h2, x + z)
  {
    MembersConcat(x, y);
    MembersConcat(x + y, z);
    MembersConcat([h2], x + y + z);
    MembersConcat(x, z);
    MembersConcat([h2], x + z);
    MembersConcat(a, y);
    MembersConcat(a + y, c);
    MembersConcat([h1], a + y + c);
    MembersConcat(a, c);
    MembersConcat([h1], a + c);
    if Unique([h2] + (x + y + z)) {
      UniqueConcat([h2], x + y + z);
      UniqueConcat(x + y, z);
      UniqueConcat(x, y);
    }
  }

  /** `s` with its elements from `i` up to `j` put before position `k`, outside of them. */
  ghost function MovedWithin(s: Seq, i: nat, j: nat, k: nat): Seq
    requires i <= j <= |s| && k <= |s| && (k <= i || j <= k)
  {
    if k <= i then s[..k] + s[i..j] + s[k..i] + s[j..] else s[..i] + s[j..k] + s[i..j] + s[k..]
  }

  /** What a list keeps when that is asked of it: all, except that a range sent to its own end drops out. */
  ghost function AfterSplice(s: Seq, i: nat, j: nat, k: nat): Seq
    requires i <= j <= |s| && k <= |s| && (k <= i || j <= k)
  {
    if k == j && i < j then s[..i] + s[j..] else MovedWithin(s, i, j, k)
  }

  lemma AfterSpliceSize(s: Seq, i: nat, j: nat, k: nat)
    requires i <= j <= |s| && k <= |s| && (k <= i || j <= k)
    ensures |AfterSplice(s, i, j, k)| == |s| <==> k != j || i == j
    ensures i == j ==> AfterSplice(s, i, j, k) == s
  {
  }

  /** The list as a ring, read from its range on. */
  ghost function AfterRange(root: ListNode, s: Seq, i: nat, j: nat): Seq
    requires i <= j <= |s|
  {
    s[j..] + ([root] + s[..i])
  }

  lemma ReadFromRange(m: LinkMap, root: ListNode, s: Seq, i: nat, j: nat)
    requires IsList(m, root, s) && i < j <= |s|
    ensures Ring(m, s[i..j] + AfterRange(root, s, i, j)) && AfterRange(root, s, i, j)[0] == FirstOr(s[j..], root)
    ensures Members(s[i..j] + AfterRange(root, s, i, j)) == Members([root] + s)
  {
    assert [root] + s == ([root] + s[..i]) + (s[i..j] + s[j..]);
    assert (s[i..j] + s[j..]) + ([root] + s[..i]) == s[i..j] + AfterRange(root, s, i, j);
    Turned(m, [root] + s[..i], s[i..j] + s[j..]);
    MembersTurned([root] + s[..i], s[i..j] + s[j..]);
  }

  lemma MovedOn(root: ListNode, s: Seq, i: nat, j: nat, k: nat)
    requires i < j < k <= |s|
    ensures var r, n := AfterRange(root, s, i, j), k - j;
      && n < |r| && r[n] == FirstOr(s[k..], root)
      && r[..n] + s[i..j] + r[n..] == (s[j..k] + s[i..j] + s[k..]) + ([root] + s[..i])
    ensures ([root] + s[..i]) + (s[j..k] + s[i..j] + s[k..]) == [root] + MovedWithin(s, i, j, k)
  {
    var r, n := AfterRange(root, s, i, j), k - j;
    assert r[..n] == s[j..k] && r[n..] == s[k..] + ([root] + s[..i]);
    RegroupedOn([root], s[..i], s[j..k], s[i..j], s[k..]);
  }

  lemma RegroupedOn(h: Seq, x: Seq, a: Seq, y: Seq, z: Seq)
    ensures a + y + (z + (h + x)) == (a + y + z) + (h + x)
    ensures (h + x) + (a + y + z) == h + (x + a + y + z)
  {
  }

  lemma MovedBack(root: ListNode, s: Seq, i: nat, j: nat, k: nat)
    requires k < i < j <= |s|
    ensures var r, n := AfterRange(root, s, i, j), |s| - j + 1 + k;
      && n < |r| && r[n] == FirstOr(s[k..], root)
      && r[..n] + s[i..j] + r[n..] == s[j..] + ([root] + s[..k] + s[i..j] + s[k..i])
    ensures ([root] + s[..k] + s[i..j] + s[k..i]) + s[j..] == [root] + MovedWithin(s, i, j, k)
  {
    var r, n := AfterRange(root, s, i, j), |s| - j + 1 + k;
    assert r[..n] == s[j..] + ([root] + s[..k]) && r[n..] == s[k..i];
    Regrouped([root], s[j..], s[..k], s[i..j], s[k..i]);
  }

  lemma Regrouped(h: Seq, z: Seq, a: Seq, y: Seq, b: Seq)
    ensures (z + (h + a)) + y + b == z + (h + a + y + b)
    ensures (h + a + y + b) + z == h + (a + y + b + z)
    ensures (h + a) + z == h + (a + z)
  {
  }

  /** Within one list a range can go to any place outside of it but its end. */
  lemma MovedInList(m: LinkMap, root: ListNode, s: Seq, i: nat, j: nat, k: nat, p: ListNode, b: ListNode, e: ListNode,
      s': Seq)
    requires IsList(m, root, s) && i < j <= |s| && k <= |s| && (k < i || j < k)
    requires p == FirstOr(s[k..], root) && b == s[i] && e == FirstOr(s[j..], root) && s' == MovedWithin(s, i, j, k)
    ensures p in m && b in m && e in m && b != e && p != b && p != e
    ensures m[p].previous != null && m[b].previous != null && m[e].previous != null
    ensures m[p].previous in m && m[b].previous in m && m[e].previous in m
    ensures var m' := Transferred(m, p, b, e);
      && IsList(m', root, s') && OnlyLinked(m, m', Members([root] + s)) && Members([root] + s') == Members([root] + s)
  {
    var y, r := s[i..j], AfterRange(root, s, i, j);
    var n := if j < k then k - j else |s| - j + 1 + k;
    ReadFromRange(m, root, s, i, j);
    if j < k {
      MovedOn(root, s, i, j, k);
    } else {
      MovedBack(root, s, i, j, k);
    }
    TransferInside(m, y, r, n);
    NotSame(m, y, r);
    NotLater(m, y, r, n);
    var m' := Transferred(m, r[n], y[0], r[0]);
    if j < k {
      Turned(m', s[j..k] + y + s[k..], [root] + s[..i]);
      MembersTurned(s[j..k] + y + s[k..], [root] + s[..i]);
    } else {
      Turned(m', s[j..], [root] + s[..k] + y + s[k..i]);
      MembersTurned(s[j..], [root] + s[..k] + y + s[k..i]);
    }
  }

  lemma NotLater(m: LinkMap, y: Seq, r: Seq, n: nat)
    requires Ring(m, y + r) && y != [] && n < |r|
    ensures y[0] != r[n]
  {
    assert (y + r)[|y| + n] == r[n] && (y + r)[0] == y[0];
  }

  /** If it is to go to its end, it drops out of the list. */
  lemma DroppedOut(m: LinkMap, root: ListNode, s: Seq, i: nat, j: nat)
    requires IsList(m, root, s) && i < j <= |s|
    ensures var b, e := s[i], FirstOr(s[j..], root);
      && b in m && e in m && b != e && m[b].previous != null && m[e].previous != null && m[b].previous in m
        && m[e].previous in m
      && var m' := Transferred(m, e, b, e);
         IsList(m', root, s[..i] + s[j..]) && Ring(m', s[i..j]) && OnlyLinked(m, m', Members([root] + s))
  {
    var y, r := s[i..j], AfterRange(root, s, i, j);
    ReadFromRange(m, root, s, i, j);
    TransferToEnd(m, y, r);
    NotSame(m, y, r);
    var m' := Transferred(m, r[0], y[0], r[0]);
    Turned(m', s[j..], [root] + s[..i]);
    Regrouped([root], s[j..], s[..i], [], []);
  }
}
