/** The red-black invariant, on trees as values. */
module RedBlack {
  import opened NodeTraits
  import opened Trees
  import opened Powers

  /** The black nodes on the leftmost path of `t`; on every path, if `Balanced(t)`. */
  ghost function BH(t: Tree): nat {
    if t.Leaf? then 0 else BH(t.l) + if t.red then 0 else 1
  }

  /** No red node has a red child, and all paths have the same number of black nodes. */
  ghost predicate Balanced(t: Tree) {
    t.Bin? ==> Balanced(t.l) && Balanced(t.r) && BH(t.l) == BH(t.r) && (t.red ==> !IsRed(t.l) && !IsRed(t.r))
  }

  /** A red-black tree: balanced, with a black root. */
  ghost predicate RB(t: Tree) {
    Balanced(t) && !IsRed(t)
  }

  /** `c` around a balanced tree with root colour `red` and black height `k` is balanced. */
  ghost predicate Takes(c: Ctx, red: bool, k: nat) {
    match c
    case Top => true
    case InL(up, _, kn, r) =>
      Balanced(r) && BH(r) == k && (kn ==> !red && !IsRed(r)) && Takes(up, kn, k + if kn then 0 else 1)
    case InR(up, l, _, kn) =>
      Balanced(l) && BH(l) == k && (kn ==> !red && !IsRed(l)) && Takes(up, kn, k + if kn then 0 else 1)
  }

  ghost function Blacken(t: Tree): Tree {
    if t.Leaf? then t else Colored(t, false)
  }

  lemma {:induction false} PlugBalanced(c: Ctx, t: Tree)
    ensures Balanced(Plug(c, t)) <==> Balanced(t) && Takes(c, IsRed(t), BH(t))
  {
    match c
    case Top =>
    case InL(up, n, red, r) => PlugBalanced(up, Bin(t, n, red, r));
    case InR(up, l, n, red) => PlugBalanced(up, Bin(l, n, red, t));
  }

  lemma {:induction false} TakesBlack(c: Ctx, red: bool, k: nat)
    requires Takes(c, red, k)
    ensures Takes(c, false, k)
  {
  }

  /** The root of `Plug(c, t)` does not depend on `t` unless `c` is empty. */
  ghost function TopRed(c: Ctx, red: bool): bool {
    if c.Top? then red else TopRed(c.up, c.red)
  }

  lemma {:induction false} PlugRed(c: Ctx, t: Tree)
    ensures IsRed(Plug(c, t)) == TopRed(c, IsRed(t))
  {
    match c
    case Top =>
    case InL(up, n, red, r) => PlugRed(up, Bin(t, n, red, r));
    case InR(up, l, n, red) => PlugRed(up, Bin(l, n, red, t));
  }

  lemma {:induction false} BalancedSize(t: Tree)
    requires Balanced(t)
    ensures Pow2(BH(t)) <= Size(t) + 1
    ensures Height(t) <= 2 * BH(t) + if IsRed(t) then 1 else 0
  {
    if t.Bin? {
      BalancedSize(t.l);
      BalancedSize(t.r);
    }
  }

  /** A red-black tree of n nodes is at most 2 log2(n + 1) high. */
  lemma HeightBound(t: Tree)
    requires RB(t)
    ensures Height(t) <= 2 * FloorLog2(Size(t) + 1)
  {
    BalancedSize(t);
    var k := FloorLog2(Size(t) + 1);
    if k < BH(t) {
      Pow2Grows(k + 1, BH(t));
    }
  }

  /** A tree of one node. */
  lemma Single(n: Node, red: bool)
    ensures var t := Bin(Leaf, n, red, Leaf);
      InOrder(t) == [n] && Nodes(t) == {n} && Distinct(t) && Balanced(t) && BH(t) == if red then 0 else 1
  {
    var t: Tree := Leaf;
    assert Nodes(t) == {} && !IsRed(t) && Balanced(t);
  }
}
