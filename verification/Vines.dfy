/** The shapes that the Stout-Warren rebalancing runs through, as values. */
module Vines {
  import opened Trees
  import opened Rotations
  import opened Powers

  /** A tree in which no node has a left child. */
  ghost predicate Vine(t: Tree) {
    t.Bin? ==> t.l.Leaf? && Vine(t.r)
  }

  /** How many nodes are on the path that goes right from the root. */
  ghost function Length(t: Tree): nat {
    if t.Leaf? then 0 else 1 + Length(t.r)
  }

  /** `k` left rotations down that path, each two nodes further. */
  ghost function Compress(t: Tree, k: nat): Tree
    requires 2 * k <= Length(t)
  {
    if k == 0 then t
    else
      assert Length(t) == 1 + Length(t.r);
      var s := TurnL(t);
      Bin(s.l, s.n, s.red, Compress(s.r, k - 1))
  }

  lemma {:induction false} CompressKeeps(t: Tree, k: nat)
    requires 2 * k <= Length(t)
    ensures InOrder(Compress(t, k)) == InOrder(t)
    ensures Length(Compress(t, k)) == Length(t) - k
  {
    if k > 0 {
      CompressKeeps(t.r.r, k - 1);
      TurnLKeeps(t);
    }
  }

  /** Every level above `i` is full, and at most one more level is begun below it. */
  ghost predicate Packed(t: Tree, i: nat) {
    if i == 0 then Height(t) <= 1
    else t.Bin? && Packed(t.l, i - 1) && Packed(t.r, i - 1)
  }

  /** `v` nodes in a line going right, their left subtrees and what follows the line being packed. */
  ghost predicate Spine(t: Tree, v: nat, i: nat) {
    if v == 0 then Packed(t, i)
    else t.Bin? && Packed(t.l, i) && Spine(t.r, v - 1, i)
  }

  lemma {:induction false} SpineLength(t: Tree, v: nat, i: nat)
    requires Spine(t, v, i)
    ensures v <= Length(t)
  {
    if v > 0 {
      SpineLength(t.r, v - 1, i);
    }
  }

  lemma {:induction false} VineSpine(t: Tree)
    requires Vine(t)
    ensures Spine(t, Length(t), 0) && Size(t) == Length(t)
  {
    if t.Bin? {
      VineSpine(t.r);
    }
  }

  /** The first pass makes the deepest leaves. */
  lemma {:induction false} CompressVine(t: Tree, k: nat)
    requires Vine(t) && 2 * k <= Length(t)
    ensures Spine(Compress(t, k), Length(t) - k, 0)
  {
    if k == 0 {
      VineSpine(t);
    } else {
      CompressVine(t.r.r, k - 1);
    }
  }

  /** Every further pass halves the line and packs what hangs off it one level higher. */
  lemma {:induction false} CompressSpine(t: Tree, k: nat, i: nat)
    requires Spine(t, 2 * k + 1, i)
    ensures 2 * k <= Length(t) && Spine(Compress(t, k), k, i + 1)
  {
    SpineLength(t, 2 * k + 1, i);
    if k > 0 {
      assert Spine(t.r, 2 * k, i) && Spine(t.r.r, 2 * (k - 1) + 1, i);
      CompressSpine(t.r.r, k - 1, i);
    }
  }

  /** Without a line, or with one node on it, the whole is packed. */
  lemma SpineEnd(t: Tree, v: nat, i: nat)
    requires Spine(t, v, i) && v <= 1
    ensures Packed(t, i + v)
  {
    if v == 1 {
      assert Spine(t.r, 0, i);
    }
  }

  lemma {:induction false} SizeBelowPow2(t: Tree)
    ensures Size(t) + 1 <= Pow2(Height(t))
  {
    if t.Bin? {
      SizeBelowPow2(t.l);
      SizeBelowPow2(t.r);
      Pow2Grows(Height(t.l), Height(t) - 1);
      Pow2Grows(Height(t.r), Height(t) - 1);
    }
  }

  lemma {:induction false} PackedSize(t: Tree, i: nat)
    requires Packed(t, i)
    ensures Pow2(i) <= Size(t) + 1 && i <= Height(t) <= i + 1
    ensures Size(t) + 1 == Pow2(i) ==> Height(t) == i
  {
    if i > 0 {
      PackedSize(t.l, i - 1);
      PackedSize(t.r, i - 1);
    }
  }

  /** The height is exactly log2 of the number of nodes plus one, rounded up. */
  ghost predicate Lowest(t: Tree) {
    Size(t) + 1 <= Pow2(Height(t)) && (Height(t) > 0 ==> Pow2(Height(t) - 1) < Size(t) + 1)
  }

  lemma PackedHeight(t: Tree, i: nat)
    requires Packed(t, i)
    ensures Lowest(t)
  {
    PackedSize(t, i);
    SizeBelowPow2(t);
    if Height(t) == i && i > 0 {
      Pow2Grows(i - 1, i);
      Pow2Grows(i, i - 1);
    }
  }

  lemma SpineHeight(t: Tree, v: nat, i: nat)
    requires Spine(t, v, i) && v <= 1
    ensures Lowest(t)
  {
    SpineEnd(t, v, i);
    PackedHeight(t, i + v);
  }

  /** No tree with as many nodes is lower. */
  lemma LeastHeight(t: Tree, s: Tree)
    requires Lowest(t) && Size(s) == Size(t)
    ensures Height(t) <= Height(s)
  {
    SizeBelowPow2(s);
    if Height(s) < Height(t) {
      Pow2Grows(Height(s), Height(t) - 1);
    }
  }

  lemma HalvedPow2(j: nat, v: nat) returns (j': nat)
    requires v == Pow2(j) - 1 && 1 < v
    ensures j == j' + 1 && v / 2 == Pow2(j') - 1 && v == 2 * (v / 2) + 1
  {
    j' := j - 1;
    assert Pow2(j) == 2 * Pow2(j');
  }
}
