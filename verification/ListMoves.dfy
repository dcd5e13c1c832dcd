/** Reversing and rotating a circular list (circular_list_algorithms.hpp). */
module ListMoves {
  import opened ListNodes
  import opened Rings
  import opened CircularList

  ghost function Reversed(s: Seq): Seq {
    if s == [] then [] else Reversed(s[1..]) + [s[0]]
  }

  lemma {:induction false} ReversedAppend(a: Seq, b: Seq)
    ensures Reversed(a + b) == Reversed(b) + Reversed(a)
  {
    if a == [] {
      assert a + b == b;
    } else {
      assert (a + b)[1..] == a[1..] + b;
      ReversedAppend(a[1..], b);
    }
  }

  /** Reversal undoes itself. */
  lemma {:induction false} ReversedTwice(s: Seq)
    ensures Reversed(Reversed(s)) == s
  {
    if s != [] {
      ReversedTwice(s[1..]);
      ReversedAppend(Reversed(s[1..]), [s[0]]);
      assert [s[0]][1..] == [];
    }
  }

  /** Position `i` of the one is position `n - 1 - i` of the other. */
  lemma {:induction false} ReversedAt(s: Seq, i: nat)
    requires i < |s|
    ensures |Reversed(s)| == |s| && Reversed(s)[|s| - 1 - i] == s[i]
  {
    if |s| > 1 {
      ReversedAt(s[1..], if i == 0 then 0 else i - 1);
    }
  }

  /** One step of the reversal: the first of the nodes `rest` comes before the nodes `done`. */
  lemma ReverseStep(m: LinkMap, p: ListNode, done: Seq, rest: Seq)
    requires IsList(m, p, done + rest) && done != [] && rest != []
    ensures var f, n, i := done[0], rest[0], FirstOr(rest[1..], p);
      && f in m && n in m && i in m && m[n].next == i && n != i
      && m[f].previous == p && p in m && m[n].previous == LastOf(done) && LastOf(done) in m && m[i].previous == n
      && IsList(Transferred(m, f, n, i), p, [n] + done + rest[1..])
      && OnlyLinked(m, Transferred(m, f, n, i), Members([p] + (done + rest)))
  {
    var a, b, c := [rest[0]], rest[1..] + [p], done;
    ReverseParts(p, done, rest);
    Turned(m, [p] + done, rest);
    TransferWithin(m, a, b, c);
    NextInRing(m, a, b, c);
    Turned(Transferred(m, c[0], a[0], b[0]), rest[1..], [p] + a + c);
    MembersTurned([p] + done, rest);
  }

  lemma ReverseParts(p: ListNode, done: Seq, rest: Seq)
    requires done != [] && rest != []
    ensures var a, b, c := [rest[0]], rest[1..] + [p], done;
      && [p] + (done + rest) == ([p] + done) + rest && rest + ([p] + done) == a + b + c
      && b[0] == FirstOr(rest[1..], p) && LastOf(a) == rest[0] && LastOf(b) == p
      && b + a + c == rest[1..] + ([p] + a + c) && [p] + a + c + rest[1..] == [p] + ([rest[0]] + done + rest[1..])
  {
  }

  lemma NextInRing(m: LinkMap, a: Seq, b: Seq, c: Seq)
    requires Ring(m, a + b + c) && a != [] && b != []
    ensures Edge(m, LastOf(a), b[0])
  {
    ChainConcat(m, a + b, c);
    ChainConcat(m, a, b);
  }

  lemma FirstTwo(m: LinkMap, p: ListNode, s: Seq)
    requires IsList(m, p, s) && s != []
    ensures s[0] in m && m[s[0]].next == FirstOr(s[1..], p)
  {
    if s[1..] == [] {
      AtHead(m, p, s);
    } else {
      assert [p] + s == [p, s[0]] + s[1..] + [];
      NextInRing(m, [p, s[0]], s[1..], []);
    }
  }

  /** The nodes `done` are reversed and the nodes `rest` are not; `f` and `i` are the first of either. */
  ghost predicate Reversing(m: LinkMap, p: ListNode, s: Seq, done: Seq, rest: Seq, f: ListNode, i: ListNode) {
    && IsList(m, p, done + rest) && i == FirstOr(rest, p) && f == FirstOr(done, p)
    && Reversed(s) == Reversed(rest) + done && (done == [] ==> rest == [])
      && Members([p] + (done + rest)) == Members([p] + s)
  }

  lemma ReversingStep(m: LinkMap, p: ListNode, s: Seq, done: Seq, rest: Seq, f: ListNode, i: ListNode)
    requires Reversing(m, p, s, done, rest, f, i) && rest != []
    ensures var i' := FirstOr(rest[1..], p);
      && f in m && i in m && i' in m && m[i].next == i' && i != i'
      && m[f].previous == p && p in m && m[i].previous == LastOf(done) && LastOf(done) in m && m[i'].previous == i
      && Reversing(Transferred(m, f, i, i'), p, s, [i] + done, rest[1..], i, i')
      && OnlyLinked(m, Transferred(m, f, i, i'), Members([p] + s))
  {
    ReverseStep(m, p, done, rest);
    SameNodes(p, done, rest);
    ReversedNext(done, rest);
  }

  lemma ReversedNext(done: Seq, rest: Seq)
    requires rest != []
    ensures Reversed(rest) + done == Reversed(rest[1..]) + ([rest[0]] + done)
  {
    var r: Seq := Reversed(rest[1..]);
    assert (r + [rest[0]]) + done == r + ([rest[0]] + done);
  }

  lemma SameNodes(p: ListNode, done: Seq, rest: Seq)
    requires rest != []
    ensures Members([p] + ([rest[0]] + done + rest[1..])) == Members([p] + (done + rest))
    ensures [p] + ([rest[0]] + done + rest[1..]) == [p] + (([rest[0]] + done) + rest[1..])
  {
    assert rest == [rest[0]] + rest[1..];
    SameMembers([p] + ([rest[0]] + done + rest[1..]), [p] + (done + rest));
  }

  lemma SameMembers(a: Seq, b: Seq)
    requires multiset(a) == multiset(b)
    ensures Members(a) == Members(b)
  {
    forall x ensures x in a <==> x in b {
      assert x in multiset(a) <==> x in multiset(b);
    }
  }

  lemma ReversingStart(m: LinkMap, p: ListNode, s: Seq)
    requires IsList(m, p, s)
    ensures p in m && m[p].next == FirstOr(s, p) && FirstOr(s, p) in m
    ensures var done, rest := if s == [] then [] else [s[0]], if s == [] then [] else s[1..];
      Reversing(m, p, s, done, rest, FirstOr(s, p), FirstOr(rest, p)) && m[FirstOr(s, p)].next == FirstOr(rest, p)
  {
    AtHead(m, p, s);
    if s != [] {
      FirstTwo(m, p, s);
      assert s == [s[0]] + s[1..];
    } else {
      assert s + [] == s;
    }
  }

  /** Reverses the list of the root `p`. */
  method Reverse(T: ListTraits, p: ListNode, ghost s: Seq)
    requires T.Valid() && IsList(T.links, p, s)
    modifies T, T.links.Keys
    ensures T.Valid() && IsList(T.links, p, Reversed(s)) && OnlyLinked(old(T.links), T.links, Members([p] + s))
  {
    ReversingStart(T.links, p, s);
    ghost var m := T.links;
    ghost var done, rest := if s == [] then [] else [s[0]], if s == [] then [] else s[1..];
    var f: ListNode := p.next;
    var i: ListNode, e := f.next, p;
    while i != e
      invariant T.Valid() && Reversing(T.links, p, s, done, rest, f, i) && OnlyLinked(m, T.links, Members([p] + s))
      decreases |rest|
    {
      ReversingStep(T.links, p, s, done, rest, f, i);
      var n := i;
      i := i.next;
      Transfer(T, f, n, i);
      f := n;
      done, rest := [n] + done, rest[1..];
    }
    ReversingEnd(T.links, p, s, done, rest, f, i);
  }

  lemma ReversingEnd(m: LinkMap, p: ListNode, s: Seq, done: Seq, rest: Seq, f: ListNode, i: ListNode)
    requires Reversing(m, p, s, done, rest, f, i) && i == p
    ensures IsList(m, p, Reversed(s))
  {
    AtHead(m, p, done + rest);
    assert rest == [] && done + [] == done && [] + done == done;
  }

  /** `s` read from position `j` on. */
  ghost function Rotated(s: Seq, j: nat): Seq
    requires j <= |s|
  {
    s[j..] + s[..j]
  }

  /** `s` with its first `n` elements, counted modulo its length, moved to the end. */
  ghost function ShiftedForward(s: Seq, n: nat): Seq {
    if s == [] then [] else Rotated(s, n % |s|)
  }

  ghost function ShiftedBackwards(s: Seq, n: nat): Seq {
    if s == [] then [] else Rotated(s, |s| - n % |s|)
  }

  /** The two undo each other, whatever the number of positions. */
  lemma ShiftsInverse(s: Seq, n: nat)
    ensures ShiftedBackwards(ShiftedForward(s, n), n) == s && ShiftedForward(ShiftedBackwards(s, n), n) == s
  {
    if s != [] {
      RotatedBack(s, n % |s|);
      RotatedBack(s, |s| - n % |s|);
    }
  }

  /** Where the elements go: `n` positions towards the beginning, and around its end; or the other way. */
  lemma ShiftedAt(s: Seq, n: nat, k: nat)
    requires k < |s|
    ensures |ShiftedForward(s, n)| == |s| && ShiftedForward(s, n)[k] == s[(k + n) % |s|]
    ensures |ShiftedBackwards(s, n)| == |s| && ShiftedBackwards(s, n)[(k + n) % |s|] == s[k]
  {
    SumModulo(k, n, |s|);
    RotatedAt(s, n % |s|, k, (k + n) % |s|);
  }

  lemma RotatedAt(s: Seq, j: nat, k: nat, q: nat)
    requires j < |s| && k < |s| && q == if k + j < |s| then k + j else k + j - |s|
    ensures |Rotated(s, j)| == |s| && Rotated(s, j)[k] == s[q]
    ensures |Rotated(s, |s| - j)| == |s| && Rotated(s, |s| - j)[q] == s[k]
  {
  }

  lemma SumModulo(k: nat, n: nat, m: nat)
    requires k < m
    ensures (k + n) % m == if k + n % m < m then k + n % m else k + n % m - m
  {
    var q, j := n / m, n % m;
    assert n == q * m + j;
    if k + j < m {
      Quotient(k + n, q, k + j, m);
    } else {
      assert k + n == (q + 1) * m + (k + j - m);
      Quotient(k + n, q + 1, k + j - m, m);
    }
  }

  lemma RotatedBack(s: Seq, j: nat)
    requires j <= |s|
    ensures |Rotated(s, j)| == |s| && Rotated(Rotated(s, j), |s| - j) == s
  {
  }

  lemma NextPosition(i: nat, k: nat)
    requires 0 < k
    ensures (i + 1) % k == if i % k == k - 1 then 0 else i % k + 1
  {
    var q, j := i / k, i % k;
    assert i == q * k + j;
    if j == k - 1 {
      assert i + 1 == (q + 1) * k;
      Quotient(i + 1, q + 1, 0, k);
    } else {
      Quotient(i + 1, q, j + 1, k);
    }
  }

  lemma Quotient(x: nat, q: nat, j: nat, k: nat)
    requires 0 < k && j < k && x == q * k + j
    ensures x % k == j
  {
    var a := x / k - q;
    assert a * k == j - x % k by {
      assert x == (x / k) * k + x % k;
      assert (x / k) * k - q * k == a * k;
    }
    Multiple(a, k);
  }

  lemma Multiple(a: int, k: nat)
    ensures (1 <= a ==> k <= a * k) && (a <= -1 ==> a * k + k <= 0)
  {
    if a >= 1 {
      assert a * k == (a - 1) * k + k;
    } else if a <= -1 {
      assert a * k == (a + 1) * k - k;
    }
  }

  /** Where nothing is to be moved. */
  lemma NoShift(s: Seq, n: nat)
    requires n == 0 || |s| <= 1
    ensures ShiftedForward(s, n) == s && ShiftedBackwards(s, n) == s
  {
    if s != [] {
      Quotient(n, if |s| == 1 then n else 0, 0, |s|);
    }
  }

  /** The ring without the root, read from position `j` on, and the root put before it. */
  lemma RootBack(m: LinkMap, p: ListNode, s: Seq, j: nat)
    requires Ring(m, s) && p in m && p !in s && j <= |s|
    ensures var c := Rotated(s, j);
      && c[0] in m && m[c[0]].previous == LastOf(c) && LastOf(c) in m && m[LastOf(c)].next == c[0]
      && IsList(LinkedBefore(m, c[0], p), p, c) && IsList(LinkedAfter(m, LastOf(c), p), p, c)
      && OnlyLinked(m, LinkedBefore(m, c[0], p), Members([p] + s))
        && OnlyLinked(m, LinkedAfter(m, LastOf(c), p), Members([p] + s))
  {
    assert s == s[..j] + s[j..];
    Turned(m, s[..j], s[j..]);
    MembersTurned(s[..j], s[j..]);
    MembersConcat([p], s);
    LinkHead(m, p, Rotated(s, j));
  }

  /** The root's neighbours are the same exactly in lists of at most one element. */
  lemma AtMostOne(m: LinkMap, p: ListNode, s: Seq)
    requires IsList(m, p, s)
    ensures p in m && (m[p].next == m[p].previous <==> |s| <= 1)
  {
    AtHead(m, p, s);
    UniqueConcat([p], s);
  }

  /** `n` steps forward from the first node of a ring. */
  method Advance(T: ListTraits, first0: ListNode, n: nat, ghost s: Seq) returns (first: ListNode)
    requires T.Valid() && Ring(T.links, s) && first0 == s[0]
    ensures first == s[n % |s|]
  {
    first := first0;
    var i := 0;
    Quotient(0, 0, 0, |s|);
    while i < n
      invariant 0 <= i <= n && first == s[i % |s|]
    {
      RingAt(T.links, s, i % |s|);
      NextPosition(i, |s|);
      first := first.next;
      i := i + 1;
    }
  }

  /** `n` steps back from the last node of a ring. */
  method Retreat(T: ListTraits, last0: ListNode, n: nat, ghost s: Seq) returns (last: ListNode)
    requires T.Valid() && Ring(T.links, s) && last0 == LastOf(s)
    ensures last == s[|s| - 1 - n % |s|]
  {
    last := last0;
    var i := 0;
    Quotient(0, 0, 0, |s|);
    while i < n
      invariant 0 <= i <= n && last == s[|s| - 1 - i % |s|]
    {
      RingAt(T.links, s, |s| - 1 - i % |s|);
      NextPosition(i, |s|);
      last := last.previous;
      i := i + 1;
    }
  }

  /** Moves the root `p` by `n` positions towards the end of its list. */
  method MoveBackwards(T: ListTraits, p: ListNode, n: nat, ghost s: Seq)
    requires T.Valid() && IsList(T.links, p, s)
    modifies T, T.links.Keys
    ensures T.Valid() && IsList(T.links, p, ShiftedForward(s, n)) && OnlyLinked(old(T.links), T.links, Members([p] + s))
  {
    AtHead(T.links, p, s);
    if n == 0 {
      NoShift(s, n);
      return;
    }
    var first: ListNode := p.next;
    AtMostOne(T.links, p, s);
    if first == p.previous {
      NoShift(s, n);
      return;
    }
    UnlinkHead(T.links, p, s);
    MembersConcat([p], s);
    var none := Unlink(T, p);
    first := Advance(T, first, n, s);
    RootBack(T.links, p, s, n % |s|);
    LinkBefore(T, first, p);
  }

  /** Moves the root `p` by `n` positions towards the beginning of its list. */
  method MoveForward(T: ListTraits, p: ListNode, n: nat, ghost s: Seq)
    requires T.Valid() && IsList(T.links, p, s)
    modifies T, T.links.Keys
    ensures T.Valid() && IsList(T.links, p, ShiftedBackwards(s, n))
      && OnlyLinked(old(T.links), T.links, Members([p] + s))
  {
    AtHead(T.links, p, s);
    if n == 0 {
      NoShift(s, n);
      return;
    }
    var last: ListNode := p.previous;
    AtMostOne(T.links, p, s);
    if last == p.next {
      NoShift(s, n);
      return;
    }
    UnlinkHead(T.links, p, s);
    MembersConcat([p], s);
    var none := Unlink(T, p);
    last := Retreat(T, last, n, s);
    RootBack(T.links, p, s, |s| - n % |s|);
    LinkAfter(T, last, p);
  }
}
