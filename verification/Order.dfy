/** Orders on keys, and sequences of nodes sorted by them. */
module Order {
  import opened NodeTraits

  type Comp = (int, int) -> bool

  /** `comp` induces a strict weak order: it is asymmetric, and what is not separated by it
      is separated from the same third keys. */
  ghost predicate StrictWeak(comp: Comp) {
    && (forall a, b :: comp(a, b) ==> !comp(b, a))
    && (forall a, b, c :: comp(a, c) ==> comp(a, b) || comp(b, c))
  }

  ghost predicate Equivalent(comp: Comp, a: int, b: int) {
    !comp(a, b) && !comp(b, a)
  }

  ghost predicate Sorted(comp: Comp, s: seq<Node>) {
    forall i, j :: 0 <= i < j < |s| ==> !comp(s[j].key, s[i].key)
  }

  /** Sorted, and no two keys equivalent. */
  ghost predicate StrictlySorted(comp: Comp, s: seq<Node>) {
    forall i, j :: 0 <= i < j < |s| ==> comp(s[i].key, s[j].key)
  }

  /** Keys before the lower bound of `key`, and keys before its upper bound. */
  ghost function BeforeLower(comp: Comp, key: int): int -> bool {
    (k: int) => comp(k, key)
  }

  ghost function BeforeUpper(comp: Comp, key: int): int -> bool {
    (k: int) => !comp(key, k)
  }

  ghost predicate All(s: seq<Node>, p: int -> bool) {
    forall i :: 0 <= i < |s| ==> p(s[i].key)
  }

  ghost predicate None(s: seq<Node>, p: int -> bool) {
    forall i :: 0 <= i < |s| ==> !p(s[i].key)
  }

  /** Nothing that satisfies `p` comes after something that does not. */
  ghost predicate Partitioned(s: seq<Node>, p: int -> bool) {
    forall i, j :: 0 <= i < j < |s| && p(s[j].key) ==> p(s[i].key)
  }

  /** How many elements at the start of `s` satisfy `p`. */
  ghost function Bound(s: seq<Node>, p: int -> bool): (i: nat)
    ensures i <= |s| && All(s[..i], p) && (i < |s| ==> !p(s[i].key))
  {
    if s == [] || !p(s[0].key) then 0 else 1 + Bound(s[1..], p)
  }

  /** Position of the first element not less than `key`, and of the first greater than `key`. */
  ghost function LowerBound(comp: Comp, s: seq<Node>, key: int): nat {
    Bound(s, BeforeLower(comp, key))
  }

  ghost function UpperBound(comp: Comp, s: seq<Node>, key: int): nat {
    Bound(s, BeforeUpper(comp, key))
  }

  lemma SortedPartitioned(comp: Comp, s: seq<Node>, key: int)
    requires StrictWeak(comp) && Sorted(comp, s)
    ensures Partitioned(s, BeforeLower(comp, key)) && Partitioned(s, BeforeUpper(comp, key))
  {
  }

  /** A split into elements that satisfy `p` and elements that do not is at the bound. */
  lemma {:induction false} BoundAt(a: seq<Node>, b: seq<Node>, p: int -> bool)
    requires All(a, p) && None(b, p)
    ensures Bound(a + b, p) == |a|
  {
    if a == [] {
      assert a + b == b;
    } else {
      assert (a + b)[1..] == a[1..] + b;
      BoundAt(a[1..], b, p);
    }
  }

  lemma AllConcat(a: seq<Node>, b: seq<Node>, p: int -> bool)
    ensures All(a + b, p) <==> All(a, p) && All(b, p)
    ensures None(a + b, p) <==> None(a, p) && None(b, p)
  {
    forall i | 0 <= i < |a| ensures (a + b)[i] == a[i] {}
    forall i | 0 <= i < |b| ensures (a + b)[|a| + i] == b[i] {}
  }

  lemma PartitionedParts(a: seq<Node>, n: Node, b: seq<Node>, p: int -> bool)
    requires Partitioned(a + [n] + b, p)
    ensures Partitioned(a, p) && Partitioned(b, p)
    ensures if p(n.key) then All(a, p) else None(b, p)
  {
    var s := a + [n] + b;
    forall i | 0 <= i < |a| ensures s[i] == a[i] {}
    forall i | 0 <= i < |b| ensures s[|a| + 1 + i] == b[i] {}
    assert s[|a|] == n;
  }
}
