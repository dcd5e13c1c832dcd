/** Orders on list elements, merging, and what a stable sort is. */
module ListOrder {
  import opened ListNodes
  import opened Rings
  import opened Order

  /** No element is less than an earlier one. */
  ghost predicate Ordered(comp: Comp, s: Seq) {
    forall i, j :: 0 <= i < j < |s| ==> !comp(s[j].value, s[i].value)
  }

  /** The elements equivalent to `v`, in order. */
  ghost function Class(comp: Comp, s: Seq, v: int): Seq {
    if s == [] then []
    else (if Equivalent(comp, s[0].value, v) then [s[0]] else []) + Class(comp, s[1..], v)
  }

  /** `r` is `s` sorted, with equivalent elements in their order. */
  ghost predicate StableSorted(comp: Comp, s: Seq, r: Seq) {
    Ordered(comp, r) && multiset(r) == multiset(s) && forall v :: Class(comp, r, v) == Class(comp, s, v)
  }

  /** Of equivalent elements, those of `a` come first. */
  ghost function Merge(comp: Comp, a: Seq, b: Seq): Seq
    decreases |a| + |b|
  {
    if b == [] then a
    else if a == [] then b
    else if comp(b[0].value, a[0].value) then [b[0]] + Merge(comp, a, b[1..])
    else [a[0]] + Merge(comp, a[1..], b)
  }

  lemma OneLess(s: Seq, j: nat)
    requires 0 < j <= |s|
    ensures s[1..][j - 1..] == s[j..] && [s[0]] + s[1..][..j - 1] == s[..j]
  {
  }

  lemma Regroup(a: Seq, b: Seq, c: Seq)
    ensures (a + b) + c == a + (b + c)
  {
  }

  /** Elements of `a` not greater than the first of `b` come first. */
  lemma {:induction false} MergeSkip(comp: Comp, a: Seq, b: Seq, j: nat)
    requires j <= |a| && b != [] && forall i :: 0 <= i < j ==> !comp(b[0].value, a[i].value)
    ensures Merge(comp, a, b) == a[..j] + Merge(comp, a[j..], b)
  {
    if j == 0 {
      assert a[0..] == a;
    } else {
      MergeSkip(comp, a[1..], b, j - 1);
      OneLess(a, j);
      Regroup([a[0]], a[1..][..j - 1], Merge(comp, a[j..], b));
    }
  }

  /** So do elements of `b` less than the first of `a`. */
  lemma {:induction false} MergeTake(comp: Comp, a: Seq, b: Seq, j: nat)
    requires j <= |b| && a != [] && forall i :: 0 <= i < j ==> comp(b[i].value, a[0].value)
    ensures Merge(comp, a, b) == b[..j] + Merge(comp, a, b[j..])
  {
    if j == 0 {
      assert b[0..] == b;
    } else {
      MergeTake(comp, a, b[1..], j - 1);
      OneLess(b, j);
      Regroup([b[0]], b[1..][..j - 1], Merge(comp, a, b[j..]));
    }
  }

  lemma OrderedParts(comp: Comp, s: Seq)
    requires Ordered(comp, s) && s != []
    ensures Ordered(comp, s[1..]) && forall x <- s :: !comp(x.value, s[0].value) || x == s[0]
  {
  }

  lemma OrderedCons(comp: Comp, x: ListNode, s: Seq)
    requires Ordered(comp, s) && forall y <- s :: !comp(y.value, x.value)
    ensures Ordered(comp, [x] + s)
  {
    var t := [x] + s;
    forall i, j | 0 <= i < j < |t| ensures !comp(t[j].value, t[i].value) {
      assert t[j] == s[j - 1] && t[j] in s;
    }
  }

  lemma {:induction false} MergeElements(comp: Comp, a: Seq, b: Seq)
    ensures multiset(Merge(comp, a, b)) == multiset(a) + multiset(b)
    decreases |a| + |b|
  {
    if a != [] && b != [] {
      if comp(b[0].value, a[0].value) {
        MergeElements(comp, a, b[1..]);
        assert b == [b[0]] + b[1..];
      } else {
        MergeElements(comp, a[1..], b);
        assert a == [a[0]] + a[1..];
      }
    }
  }

  lemma MergeMember(comp: Comp, a: Seq, b: Seq, x: ListNode)
    ensures x in Merge(comp, a, b) <==> x in a || x in b
  {
    MergeElements(comp, a, b);
    assert x in multiset(Merge(comp, a, b)) <==> x in multiset(a) || x in multiset(b);
  }

  lemma {:induction false} MergeOrdered(comp: Comp, a: Seq, b: Seq)
    requires StrictWeak(comp) && Ordered(comp, a) && Ordered(comp, b)
    ensures Ordered(comp, Merge(comp, a, b))
    decreases |a| + |b|
  {
    if a != [] && b != [] {
      OrderedParts(comp, a);
      OrderedParts(comp, b);
      if comp(b[0].value, a[0].value) {
        MergeOrdered(comp, a, b[1..]);
        forall y <- Merge(comp, a, b[1..]) ensures !comp(y.value, b[0].value) {
          MergeMember(comp, a, b[1..], y);
        }
        OrderedCons(comp, b[0], Merge(comp, a, b[1..]));
      } else {
        MergeOrdered(comp, a[1..], b);
        forall y <- Merge(comp, a[1..], b) ensures !comp(y.value, a[0].value) {
          MergeMember(comp, a[1..], b, y);
        }
        OrderedCons(comp, a[0], Merge(comp, a[1..], b));
      }
    }
  }

  lemma FirstOfConcat(a: Seq, b: Seq)
    requires a != []
    ensures a + b != [] && (a + b)[0] == a[0] && (a + b)[1..] == a[1..] + b
  {
  }

  lemma {:induction false} ClassConcat(comp: Comp, a: Seq, b: Seq, v: int)
    ensures Class(comp, a + b, v) == Class(comp, a, v) + Class(comp, b, v)
  {
    if a == [] {
      assert a + b == b;
    } else {
      ClassConcat(comp, a[1..], b, v);
      FirstOfConcat(a, b);
      Regroup(if Equivalent(comp, a[0].value, v) then [a[0]] else [], Class(comp, a[1..], v), Class(comp, b, v));
    }
  }

  lemma {:induction false} ClassNone(comp: Comp, s: Seq, v: int)
    requires forall x <- s :: !Equivalent(comp, x.value, v)
    ensures Class(comp, s, v) == []
  {
    if s != [] {
      ClassNone(comp, s[1..], v);
    }
  }

  /** Elements of `a` greater than the first of `b` are not equivalent to what that is equivalent to. */
  lemma NoneEquivalent(comp: Comp, a: Seq, x: int, v: int)
    requires StrictWeak(comp) && Ordered(comp, a) && a != [] && comp(x, a[0].value) && Equivalent(comp, x, v)
    ensures Class(comp, a, v) == []
  {
    OrderedParts(comp, a);
    forall y <- a ensures !Equivalent(comp, y.value, v) {
      assert comp(x, y.value);
    }
    ClassNone(comp, a, v);
  }

  lemma {:induction false} MergeClass(comp: Comp, a: Seq, b: Seq, v: int)
    requires StrictWeak(comp) && Ordered(comp, a) && Ordered(comp, b)
    ensures Class(comp, Merge(comp, a, b), v) == Class(comp, a, v) + Class(comp, b, v)
    decreases |a| + |b|
  {
    if a != [] && b != [] {
      OrderedParts(comp, a);
      OrderedParts(comp, b);
      if comp(b[0].value, a[0].value) {
        MergeClass(comp, a, b[1..], v);
        if Equivalent(comp, b[0].value, v) {
          NoneEquivalent(comp, a, b[0].value, v);
        }
      } else {
        MergeClass(comp, a[1..], b, v);
      }
    }
  }

  /** Merging two stably sorted runs, the first of which came first, sorts the whole stably. */
  lemma MergeStable(comp: Comp, s: Seq, a: Seq, t: Seq, b: Seq)
    requires StrictWeak(comp) && StableSorted(comp, s, a) && StableSorted(comp, t, b)
    ensures StableSorted(comp, s + t, Merge(comp, a, b))
  {
    MergeOrdered(comp, a, b);
    MergeElements(comp, a, b);
    forall v ensures Class(comp, Merge(comp, a, b), v) == Class(comp, s + t, v) {
      MergeClass(comp, a, b, v);
      ClassConcat(comp, s, t, v);
    }
  }

  lemma SingleSorted(comp: Comp, s: Seq)
    requires |s| <= 1
    ensures StableSorted(comp, s, s)
  {
  }

  /** The first of a sorted sequence heads its class. */
  lemma ClassHead(comp: Comp, s: Seq, v: int)
    requires StrictWeak(comp) && s != [] && Equivalent(comp, s[0].value, v)
    ensures Class(comp, s, v) != [] && Class(comp, s, v)[0] == s[0] && Class(comp, s, v)[1..] == Class(comp, s[1..], v)
  {
  }

  lemma {:induction false} ClassMember(comp: Comp, s: Seq, v: int)
    ensures Class(comp, s, v) != [] <==> exists x <- s :: Equivalent(comp, x.value, v)
  {
    if s != [] {
      ClassMember(comp, s[1..], v);
      assert s == [s[0]] + s[1..];
      assert forall x :: x in s <==> x == s[0] || x in s[1..];
    }
  }

  /** The first of a sorted sequence is not greater than any element that is equivalent to `v`. */
  lemma HeadNotGreater(comp: Comp, s: Seq, v: int)
    requires StrictWeak(comp) && Ordered(comp, s) && Class(comp, s, v) != []
    ensures s != [] && !comp(v, s[0].value)
  {
    ClassMember(comp, s, v);
    OrderedParts(comp, s);
  }

  lemma SameHead(comp: Comp, r: Seq, r': Seq)
    requires StrictWeak(comp) && Ordered(comp, r) && Ordered(comp, r') && r != [] && r' != []
    requires Class(comp, r, r[0].value) == Class(comp, r', r[0].value)
      && Class(comp, r, r'[0].value) == Class(comp, r', r'[0].value)
    ensures r[0] == r'[0]
  {
    var v, v' := r[0].value, r'[0].value;
    ClassHead(comp, r, v);
    ClassHead(comp, r', v');
    HeadNotGreater(comp, r', v);
    HeadNotGreater(comp, r, v');
    ClassHead(comp, r', v);
  }

  lemma SameTail(comp: Comp, r: Seq, r': Seq, w: int)
    requires StrictWeak(comp) && r != [] && r' != [] && r[0] == r'[0] && Class(comp, r, w) == Class(comp, r', w)
    ensures Class(comp, r[1..], w) == Class(comp, r'[1..], w)
  {
    if Equivalent(comp, r[0].value, w) {
      ClassHead(comp, r, w);
      ClassHead(comp, r', w);
    } else {
      assert Class(comp, r, w) == Class(comp, r[1..], w);
      assert Class(comp, r', w) == Class(comp, r'[1..], w);
    }
  }

  /** There is only one way to sort a sequence stably. */
  lemma {:induction false} SortedOnce(comp: Comp, r: Seq, r': Seq)
    requires StrictWeak(comp) && Ordered(comp, r) && Ordered(comp, r')
      && forall v :: Class(comp, r, v) == Class(comp, r', v)
    ensures r == r'
  {
    if r == [] {
      if r' != [] {
        ClassHead(comp, r', r'[0].value);
      }
    } else {
      ClassHead(comp, r, r[0].value);
      assert r' != [];
      SameHead(comp, r, r');
      forall w ensures Class(comp, r[1..], w) == Class(comp, r'[1..], w) {
        SameTail(comp, r, r', w);
      }
      SortedOnce(comp, r[1..], r'[1..]);
    }
  }
}
