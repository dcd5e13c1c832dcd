/** What merging one ordered container into another does to the two orders. */
module Merging {
  import opened NodeTraits
  import opened Order
  import Search
  import opened InsertChecks

  /** The order after a node was offered to a container of unique keys. */
  ghost function WithUnique(comp: Comp, s: seq<Node>, n: Node): seq<Node> {
    if Absent(comp, s, n.key) then Inserted(s, UpperBound(comp, s, n.key), n) else s
  }

  /** The order after a node was added behind all equivalent ones. */
  ghost function WithEqual(comp: Comp, s: seq<Node>, n: Node): seq<Node> {
    Inserted(s, UpperBound(comp, s, n.key), n)
  }

  /** The orders of the target `t` and of the source `s` after every node of `s` was offered to `t`. */
  ghost function UniqueTarget(comp: Comp, t: seq<Node>, s: seq<Node>): seq<Node>
    decreases |s|
  {
    if s == [] then t else UniqueTarget(comp, WithUnique(comp, t, s[0]), s[1..])
  }

  ghost function UniqueRest(comp: Comp, t: seq<Node>, s: seq<Node>): seq<Node>
    decreases |s|
  {
    if s == [] then []
    else (if Absent(comp, t, s[0].key) then [] else [s[0]]) + UniqueRest(comp, WithUnique(comp, t, s[0]), s[1..])
  }

  ghost function EqualTarget(comp: Comp, t: seq<Node>, s: seq<Node>): seq<Node>
    decreases |s|
  {
    if s == [] then t else EqualTarget(comp, WithEqual(comp, t, s[0]), s[1..])
  }

  /** The elements of `s` whose key is already present in `t`, in `before`, or earlier in `s`. */
  ghost function Repeats(comp: Comp, t: seq<Node>, before: seq<Node>, s: seq<Node>): seq<Node>
    decreases |s|
  {
    if s == [] then []
    else (if Absent(comp, t, s[0].key) && Absent(comp, before, s[0].key) then [] else [s[0]])
         + Repeats(comp, t, before + [s[0]], s[1..])
  }

  /** The elements with a key equivalent to `key`, in order. */
  ghost function Class(comp: Comp, s: seq<Node>, key: int): seq<Node> {
    if s == [] then []
    else (if Equivalent(comp, s[0].key, key) then [s[0]] else []) + Class(comp, s[1..], key)
  }

  lemma AbsentConcat(comp: Comp, a: seq<Node>, b: seq<Node>, key: int)
    ensures Absent(comp, a + b, key) <==> Absent(comp, a, key) && Absent(comp, b, key)
  {
    forall i | 0 <= i < |a| ensures (a + b)[i] == a[i] {}
    forall i | 0 <= i < |b| ensures (a + b)[|a| + i] == b[i] {}
  }

  lemma AbsentInserted(comp: Comp, s: seq<Node>, i: nat, n: Node, key: int)
    requires i <= |s|
    ensures Absent(comp, Inserted(s, i, n), key) <==> Absent(comp, s, key) && !Equivalent(comp, n.key, key)
  {
    AbsentConcat(comp, s[..i] + [n], s[i..], key);
    AbsentConcat(comp, s[..i], [n], key);
    AbsentConcat(comp, s[..i], s[i..], key);
    assert s[..i] + s[i..] == s;
    assert [n][0] == n;
  }

  lemma WithUniqueCovers(comp: Comp, s: seq<Node>, n: Node, key: int)
    requires StrictWeak(comp)
    ensures Absent(comp, WithUnique(comp, s, n), key) <==> Absent(comp, s, key) && !Equivalent(comp, n.key, key)
  {
    if Absent(comp, s, n.key) {
      AbsentInserted(comp, s, UpperBound(comp, s, n.key), n, key);
    }
  }

  /** The merged target has a key exactly if the target or the source had it. */
  lemma {:induction false} UniqueTargetCovers(comp: Comp, t: seq<Node>, s: seq<Node>, key: int)
    requires StrictWeak(comp)
    ensures Absent(comp, UniqueTarget(comp, t, s), key) <==> Absent(comp, t, key) && Absent(comp, s, key)
    decreases |s|
  {
    if s != [] {
      UniqueTargetCovers(comp, WithUnique(comp, t, s[0]), s[1..], key);
      WithUniqueCovers(comp, t, s[0], key);
      AbsentConcat(comp, [s[0]], s[1..], key);
      assert [s[0]] + s[1..] == s && [s[0]][0] == s[0];
    }
  }

  /** What stays in the source, in its order, is what repeats a key of the target or an earlier one
      of the source. */
  lemma {:induction false} RestRepeats(comp: Comp, t0: seq<Node>, before: seq<Node>, t: seq<Node>, s: seq<Node>)
    requires StrictWeak(comp)
    requires forall key :: Absent(comp, t, key) <==> Absent(comp, t0, key) && Absent(comp, before, key)
    ensures UniqueRest(comp, t, s) == Repeats(comp, t0, before, s)
    decreases |s|
  {
    if s != [] {
      var t', before' := WithUnique(comp, t, s[0]), before + [s[0]];
      forall key ensures Absent(comp, t', key) <==> Absent(comp, t0, key) && Absent(comp, before', key) {
        WithUniqueCovers(comp, t, s[0], key);
        AbsentConcat(comp, before, [s[0]], key);
        assert [s[0]][0] == s[0];
      }
      RestRepeats(comp, t0, before', t', s[1..]);
    }
  }

  lemma RestIsRepeats(comp: Comp, t: seq<Node>, s: seq<Node>)
    requires StrictWeak(comp)
    ensures UniqueRest(comp, t, s) == Repeats(comp, t, [], s)
  {
    RestRepeats(comp, t, [], t, s);
  }

  lemma InsertedElements(s: seq<Node>, i: nat, n: Node)
    requires i <= |s|
    ensures multiset(Inserted(s, i, n)) == multiset(s) + multiset([n])
  {
    assert s == s[..i] + s[i..];
  }

  lemma Sums(a: multiset<Node>, b: multiset<Node>, c: multiset<Node>)
    ensures (a + b) + c == a + (b + c) && a + (b + c) == b + (a + c)
  {
  }

  lemma HeadAndTail(s: seq<Node>)
    requires s != []
    ensures multiset(s) == multiset([s[0]]) + multiset(s[1..])
  {
    assert s == [s[0]] + s[1..];
  }

  /** No node is lost or duplicated. */
  lemma {:induction false} UniqueConserves(comp: Comp, t: seq<Node>, s: seq<Node>)
    ensures multiset(UniqueTarget(comp, t, s)) + multiset(UniqueRest(comp, t, s)) == multiset(t) + multiset(s)
    decreases |s|
  {
    if s != [] {
      var n, t' := s[0], WithUnique(comp, t, s[0]);
      UniqueConserves(comp, t', s[1..]);
      HeadAndTail(s);
      if Absent(comp, t, n.key) {
        InsertedElements(t, UpperBound(comp, t, n.key), n);
        Sums(multiset(t), multiset([n]), multiset(s[1..]));
        assert UniqueRest(comp, t, s) == UniqueRest(comp, t', s[1..]);
      } else {
        HeadAndTail([n] + UniqueRest(comp, t, s[1..]));
        Sums(multiset(UniqueTarget(comp, t, s)), multiset([n]), multiset(UniqueRest(comp, t, s[1..])));
        Sums(multiset(t), multiset([n]), multiset(s[1..]));
      }
    }
  }

  lemma InsertedKeepsSorted(comp: Comp, s: seq<Node>, i: nat, n: Node)
    requires StrictWeak(comp) && Sorted(comp, s) && LowerBound(comp, s, n.key) <= i <= UpperBound(comp, s, n.key)
    ensures i <= |s| && Sorted(comp, Inserted(s, i, n)) && |Inserted(s, i, n)| == |s| + 1
    ensures StrictlySorted(comp, s) && Absent(comp, s, n.key) ==> StrictlySorted(comp, Inserted(s, i, n))
  {
    assert s[..i] + s[i..] == s;
    InsertedSorted(comp, s[..i], n, s[i..]);
    if StrictlySorted(comp, s) && Absent(comp, s, n.key) {
      InsertedStrictly(comp, s[..i], n, s[i..]);
    }
  }

  /** A container of unique keys stays one. */
  lemma {:induction false} UniqueTargetSorted(comp: Comp, t: seq<Node>, s: seq<Node>)
    requires StrictWeak(comp) && StrictlySorted(comp, t)
    ensures StrictlySorted(comp, UniqueTarget(comp, t, s))
    decreases |s|
  {
    if s != [] {
      Search.EqualRangeExact(comp, t, s[0].key);
      InsertedKeepsSorted(comp, t, UpperBound(comp, t, s[0].key), s[0]);
      UniqueTargetSorted(comp, WithUnique(comp, t, s[0]), s[1..]);
    }
  }

  lemma FirstOfConcat(a: seq<Node>, b: seq<Node>)
    requires a != []
    ensures a + b != [] && (a + b)[0] == a[0] && (a + b)[1..] == a[1..] + b
  {
  }

  lemma Regroup(a: seq<Node>, b: seq<Node>, c: seq<Node>)
    ensures (a + b) + c == a + (b + c)
  {
  }

  lemma {:induction false} ClassConcat(comp: Comp, a: seq<Node>, b: seq<Node>, key: int)
    ensures Class(comp, a + b, key) == Class(comp, a, key) + Class(comp, b, key)
  {
    if a == [] {
      assert a + b == b;
    } else {
      ClassConcat(comp, a[1..], b, key);
      FirstOfConcat(a, b);
      Regroup(if Equivalent(comp, a[0].key, key) then [a[0]] else [], Class(comp, a[1..], key), Class(comp, b, key));
    }
  }

  lemma {:induction false} ClassMembers(comp: Comp, s: seq<Node>, key: int, n: Node)
    ensures n in Class(comp, s, key) <==> n in s && Equivalent(comp, n.key, key)
  {
    if s != [] {
      ClassMembers(comp, s[1..], key, n);
      assert n in s <==> n == s[0] || n in s[1..];
    }
  }

  lemma {:induction false} ClassEmpty(comp: Comp, s: seq<Node>, key: int)
    requires Absent(comp, s, key)
    ensures Class(comp, s, key) == []
  {
    if s != [] {
      ClassEmpty(comp, s[1..], key);
    }
  }

  /** No element from the upper bound on is equivalent to the key. */
  lemma NoneBeyondUpper(comp: Comp, s: seq<Node>, key: int)
    requires StrictWeak(comp) && Sorted(comp, s)
    ensures Absent(comp, s[UpperBound(comp, s, key)..], key)
  {
    var u := UpperBound(comp, s, key);
    Search.EqualRangeExact(comp, s, key);
    forall i | 0 <= i < |s[u..]| ensures !Equivalent(comp, s[u..][i].key, key) {
      assert s[u..][i] == s[u + i];
    }
  }

  lemma AbsentEquivalent(comp: Comp, s: seq<Node>, key: int, key': int)
    requires StrictWeak(comp) && Absent(comp, s, key) && Equivalent(comp, key, key')
    ensures Absent(comp, s, key')
  {
  }

  lemma WithEqualClass(comp: Comp, s: seq<Node>, n: Node, key: int)
    requires StrictWeak(comp) && Sorted(comp, s)
    ensures Class(comp, WithEqual(comp, s, n), key) == Class(comp, s, key) + Class(comp, [n], key)
  {
    var u := UpperBound(comp, s, n.key);
    assert s[..u] + s[u..] == s;
    ClassConcat(comp, s[..u], s[u..], key);
    ClassConcat(comp, s[..u] + [n], s[u..], key);
    ClassConcat(comp, s[..u], [n], key);
    if Equivalent(comp, n.key, key) {
      NoneBeyondUpper(comp, s, n.key);
      AbsentEquivalent(comp, s[u..], n.key, key);
      ClassEmpty(comp, s[u..], key);
    }
  }

  /** The merged target is sorted, and stable: equivalent elements of the target come first, in their
      order, then those of the source, in theirs. */
  lemma {:induction false} EqualTargetStable(comp: Comp, t: seq<Node>, s: seq<Node>, key: int)
    requires StrictWeak(comp) && Sorted(comp, t)
    ensures Sorted(comp, EqualTarget(comp, t, s))
    ensures Class(comp, EqualTarget(comp, t, s), key) == Class(comp, t, key) + Class(comp, s, key)
    ensures |EqualTarget(comp, t, s)| == |t| + |s|
    decreases |s|
  {
    if s != [] {
      var t' := WithEqual(comp, t, s[0]);
      Search.EqualRangeExact(comp, t, s[0].key);
      InsertedKeepsSorted(comp, t, UpperBound(comp, t, s[0].key), s[0]);
      EqualTargetStable(comp, t', s[1..], key);
      WithEqualClass(comp, t, s[0], key);
      assert s == [s[0]] + s[1..];
      ClassConcat(comp, [s[0]], s[1..], key);
    }
  }
}
