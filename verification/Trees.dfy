/** Binary trees of nodes, as values, and trees with a hole ("contexts").

    A `Tree` records which node sits where and with which colour; it says nothing about the
    links stored in the nodes. `TreeGraph` ties the two together. A `Ctx` is the rest of a tree
    around one subtree: the path from that subtree up to the header, with the siblings hanging
    off the path. All algorithms that climb or descend are stated about such a pair. */
module Trees {

  import opened NodeTraits

  datatype Tree = Leaf | Bin(l: Tree, n: Node, red: bool, r: Tree)

  datatype Ctx =
    | Top
    | InL(up: Ctx, n: Node, red: bool, r: Tree)
    | InR(up: Ctx, l: Tree, n: Node, red: bool)

  ghost function Root(t: Tree): Node? {
    if t.Leaf? then null else t.n
  }

  ghost predicate IsRed(t: Tree) {
    t.Bin? && t.red
  }

  ghost function Nodes(t: Tree): set<Node> {
    match t
    case Leaf => {}
    case Bin(l, n, _, r) => Nodes(l) + {n} + Nodes(r)
  }

  ghost function InOrder(t: Tree): seq<Node> {
    match t
    case Leaf => []
    case Bin(l, n, _, r) => InOrder(l) + [n] + InOrder(r)
  }

  ghost function Size(t: Tree): nat {
    if t.Leaf? then 0 else Size(t.l) + 1 + Size(t.r)
  }

  ghost function Height(t: Tree): nat {
    if t.Leaf? then 0 else 1 + if Height(t.l) < Height(t.r) then Height(t.r) else Height(t.l)
  }

  /** No node occurs twice. */
  ghost predicate Distinct(t: Tree) {
    match t
    case Leaf => true
    case Bin(l, n, _, r) =>
      n !in Nodes(l) && n !in Nodes(r) && Nodes(l) !! Nodes(r) && Distinct(l) && Distinct(r)
  }

  /** The tree obtained by filling the hole of `c` with `t`. */
  ghost function Plug(c: Ctx, t: Tree): Tree {
    match c
    case Top => t
    case InL(up, n, red, r) => Plug(up, Bin(t, n, red, r))
    case InR(up, l, n, red) => Plug(up, Bin(l, n, red, t))
  }

  ghost function CNodes(c: Ctx): set<Node> {
    match c
    case Top => {}
    case InL(up, n, _, r) => CNodes(up) + {n} + Nodes(r)
    case InR(up, l, n, _) => CNodes(up) + {n} + Nodes(l)
  }

  ghost predicate CDistinct(c: Ctx) {
    match c
    case Top => true
    case InL(up, n, _, r) =>
      n !in Nodes(r) && n !in CNodes(up) && Nodes(r) !! CNodes(up) && Distinct(r) && CDistinct(up)
    case InR(up, l, n, _) =>
      n !in Nodes(l) && n !in CNodes(up) && Nodes(l) !! CNodes(up) && Distinct(l) && CDistinct(up)
  }

  /** The nodes that precede, in order, whatever fills the hole. */
  ghost function Pre(c: Ctx): seq<Node> {
    match c
    case Top => []
    case InL(up, _, _, _) => Pre(up)
    case InR(up, l, n, _) => Pre(up) + InOrder(l) + [n]
  }

  /** The nodes that follow, in order, whatever fills the hole. */
  ghost function Post(c: Ctx): seq<Node> {
    match c
    case Top => []
    case InL(up, n, _, r) => [n] + InOrder(r) + Post(up)
    case InR(up, _, _, _) => Post(up)
  }

  /** The parent of whatever fills the hole; `h` is the header. */
  ghost function Parent(c: Ctx, h: Node): Node {
    if c.Top? then h else c.n
  }

  /** `t` with another colour at its root. */
  ghost function Colored(t: Tree, red: bool): (s: Tree)
    requires t.Bin?
    ensures s.Bin?
    ensures InOrder(s) == InOrder(t) && Nodes(s) == Nodes(t)
  {
    Bin(t.l, t.n, red, t.r)
  }

  /** The right child of the root, turned into the root. */
  ghost function TurnL(t: Tree): Tree
    requires t.Bin? && t.r.Bin?
  {
    Bin(Bin(t.l, t.n, t.red, t.r.l), t.r.n, t.r.red, t.r.r)
  }

  /** The left child of the root, turned into the root. */
  ghost function TurnR(t: Tree): Tree
    requires t.Bin? && t.l.Bin?
  {
    Bin(t.l.l, t.l.n, t.l.red, Bin(t.l.r, t.n, t.red, t.r))
  }

  /** The subtree one level up: the one below the node at the end of `c`. */
  ghost function Parented(c: Ctx, t: Tree): (s: Tree)
    requires !c.Top?
    ensures s.Bin? && s.n == c.n
  {
    match c
    case InL(_, n, red, r) => Bin(t, n, red, r)
    case InR(_, l, n, red) => Bin(l, n, red, t)
  }

  lemma Regroup<T>(a: seq<T>, b: seq<T>, c: seq<T>, d: seq<T>, e: seq<T>)
    ensures a + (b + c + d) + e == a + b + (c + d + e)
    ensures a + (b + c + d) + e == (a + b + c) + d + e
    ensures a + (b + c + d) + e == (a + b) + c + (d + e)
  {
  }

  lemma {:induction false} PlugInOrder(c: Ctx, t: Tree)
    ensures InOrder(Plug(c, t)) == Pre(c) + InOrder(t) + Post(c)
  {
    match c
    case Top =>
    case InL(up, n, red, r) =>
      PlugInOrder(up, Bin(t, n, red, r));
      Regroup(Pre(up), InOrder(t), [n], InOrder(r), Post(up));
    case InR(up, l, n, red) =>
      PlugInOrder(up, Bin(l, n, red, t));
      Regroup(Pre(up), InOrder(l), [n], InOrder(t), Post(up));
  }

  lemma {:induction false} PlugNodes(c: Ctx, t: Tree)
    ensures Nodes(Plug(c, t)) == CNodes(c) + Nodes(t)
    ensures Distinct(Plug(c, t)) <==> Distinct(t) && CDistinct(c) && CNodes(c) !! Nodes(t)
  {
    match c
    case Top =>
    case InL(up, n, red, r) =>
      PlugNodes(up, Bin(t, n, red, r));
    case InR(up, l, n, red) =>
      PlugNodes(up, Bin(l, n, red, t));
  }

  /** Subtrees with the same nodes in the same order are interchangeable for the order. */
  lemma SameInOrder(c: Ctx, t: Tree, t': Tree)
    requires InOrder(t) == InOrder(t')
    ensures InOrder(Plug(c, t)) == InOrder(Plug(c, t'))
  {
    PlugInOrder(c, t);
    PlugInOrder(c, t');
  }

  lemma {:induction false} InOrderNodes(t: Tree)
    ensures forall n :: n in InOrder(t) <==> n in Nodes(t)
    ensures |InOrder(t)| == Size(t)
  {
    if t.Bin? {
      InOrderNodes(t.l);
      InOrderNodes(t.r);
    }
  }

  lemma {:induction false} InOrderMember(t: Tree, i: nat)
    requires i < |InOrder(t)|
    ensures InOrder(t)[i] in Nodes(t)
  {
    var k := |InOrder(t.l)|;
    if i < k {
      InOrderMember(t.l, i);
    } else if i > k {
      InOrderMember(t.r, i - k - 1);
    }
  }

  /** No element of `s` occurs twice. */
  ghost predicate NoDup(s: seq<Node>) {
    forall i, j :: 0 <= i < j < |s| ==> s[i] != s[j]
  }

  lemma NoDupConcat(a: seq<Node>, b: seq<Node>)
    requires NoDup(a) && NoDup(b) && forall x :: x in a ==> x !in b
    ensures NoDup(a + b)
  {
    var s := a + b;
    forall i, j | 0 <= i < j < |s| ensures s[i] != s[j] {
      if i < |a| <= j {
        assert s[i] in a && s[j] == b[j - |a|] && s[j] in b;
      }
    }
  }

  lemma NotRepeated(t: Tree, x: Node)
    requires Distinct(t) && t.Bin? && x in InOrder(t.l) + [t.n]
    ensures x !in InOrder(t.r)
  {
    InOrderNodes(t.l);
    InOrderNodes(t.r);
    assert x in InOrder(t.l) || x in [t.n];
    assert x in Nodes(t.l) || x == t.n;
  }

  lemma {:induction false} InOrderNoDup(t: Tree)
    requires Distinct(t)
    ensures NoDup(InOrder(t))
  {
    if t.Bin? {
      InOrderNoDup(t.l);
      InOrderNoDup(t.r);
      InOrderNodes(t.l);
      InOrderNodes(t.r);
      NoDupConcat(InOrder(t.l), [t.n]);
      forall x | x in InOrder(t.l) + [t.n] ensures x !in InOrder(t.r) {
        NotRepeated(t, x);
      }
      NoDupConcat(InOrder(t.l) + [t.n], InOrder(t.r));
    }
  }

  ghost function Depth(c: Ctx): nat {
    if c.Top? then 0 else 1 + Depth(c.up)
  }

  /** The context `inner`, with its top end attached to the hole of `outer`. */
  ghost function Append(inner: Ctx, outer: Ctx): Ctx {
    match inner
    case Top => outer
    case InL(up, n, red, r) => InL(Append(up, outer), n, red, r)
    case InR(up, l, n, red) => InR(Append(up, outer), l, n, red)
  }

  lemma {:induction false} PlugAppend(inner: Ctx, outer: Ctx, t: Tree)
    ensures Plug(Append(inner, outer), t) == Plug(outer, Plug(inner, t))
  {
    match inner
    case Top =>
    case InL(up, n, red, r) => PlugAppend(up, outer, Bin(t, n, red, r));
    case InR(up, l, n, red) => PlugAppend(up, outer, Bin(l, n, red, t));
  }

  /** Every node of a tree is the root of a subtree of it. */
  lemma {:induction false} Focus(t: Tree, x: Node) returns (c: Ctx, s: Tree)
    requires x in Nodes(t)
    ensures Plug(c, s) == t && s.Bin? && s.n == x
  {
    if t.n == x {
      c, s := Top, t;
    } else if x in Nodes(t.l) {
      c, s := Focus(t.l, x);
      PlugAppend(c, InL(Top, t.n, t.red, t.r), s);
      c := Append(c, InL(Top, t.n, t.red, t.r));
    } else {
      c, s := Focus(t.r, x);
      PlugAppend(c, InR(Top, t.l, t.n, t.red), s);
      c := Append(c, InR(Top, t.l, t.n, t.red));
    }
  }

  /** The subtree of the leftmost node, and the path down to it. */
  ghost function LeftEnd(t: Tree): (s: Tree)
    requires t.Bin?
    ensures s.Bin? && s.l.Leaf?
  {
    if t.l.Leaf? then t else LeftEnd(t.l)
  }

  ghost function LeftPath(t: Tree): Ctx
    requires t.Bin?
  {
    if t.l.Leaf? then Top else Append(LeftPath(t.l), InL(Top, t.n, t.red, t.r))
  }

  ghost function RightEnd(t: Tree): (s: Tree)
    requires t.Bin?
    ensures s.Bin? && s.r.Leaf?
  {
    if t.r.Leaf? then t else RightEnd(t.r)
  }

  ghost function RightPath(t: Tree): Ctx
    requires t.Bin?
  {
    if t.r.Leaf? then Top else Append(RightPath(t.r), InR(Top, t.l, t.n, t.red))
  }

  lemma {:induction false} LeftEndFirst(t: Tree)
    requires t.Bin?
    ensures Plug(LeftPath(t), LeftEnd(t)) == t && !LeftPath(t).InR? && Pre(LeftPath(t)) == []
    ensures InOrder(t)[0] == LeftEnd(t).n
  {
    if t.l.Bin? {
      LeftEndFirst(t.l);
      PlugAppend(LeftPath(t.l), InL(Top, t.n, t.red, t.r), LeftEnd(t));
      PreAppend(LeftPath(t.l), InL(Top, t.n, t.red, t.r));
    }
  }

  lemma {:induction false} RightEndLast(t: Tree)
    requires t.Bin?
    ensures Plug(RightPath(t), RightEnd(t)) == t && !RightPath(t).InL? && Post(RightPath(t)) == []
    ensures InOrder(t)[|InOrder(t)| - 1] == RightEnd(t).n
  {
    if t.r.Bin? {
      RightEndLast(t.r);
      PlugAppend(RightPath(t.r), InR(Top, t.l, t.n, t.red), RightEnd(t));
      PreAppend(RightPath(t.r), InR(Top, t.l, t.n, t.red));
    }
  }

  lemma {:induction false} PreAppend(inner: Ctx, outer: Ctx)
    ensures Pre(Append(inner, outer)) == Pre(outer) + Pre(inner)
    ensures Post(Append(inner, outer)) == Post(inner) + Post(outer)
  {
    match inner
    case Top =>
    case InL(up, n, red, r) => PreAppend(up, outer);
    case InR(up, l, n, red) => PreAppend(up, outer);
  }

  lemma {:induction false} AppendParent(inner: Ctx, outer: Ctx, h: Node)
    ensures Parent(Append(inner, outer), h) == if inner.Top? then Parent(outer, h) else inner.n
    ensures !inner.Top? ==> Append(inner, outer).InL? == inner.InL? && Append(inner, outer).InR? == inner.InR?
  {
  }

  lemma {:induction false} PlugRoot(c: Ctx, t: Tree, t': Tree)
    requires !c.Top?
    ensures Plug(c, t).Bin? && Plug(c, t').Bin? && Plug(c, t).n == Plug(c, t').n
  {
    if !c.up.Top? {
      PlugRoot(c.up, Parented(c, t), Parented(c, t'));
    }
  }

  /** The nodes before, and after, the root of the subtree in focus. */
  ghost function Before(c: Ctx, t: Tree): seq<Node>
    requires t.Bin?
  {
    Pre(c) + InOrder(t.l)
  }

  ghost function After(c: Ctx, t: Tree): seq<Node>
    requires t.Bin?
  {
    InOrder(t.r) + Post(c)
  }

  lemma AroundRoot(c: Ctx, t: Tree)
    requires t.Bin?
    ensures InOrder(Plug(c, t)) == Before(c, t) + [t.n] + After(c, t)
    ensures Distinct(t) && CDistinct(c) && CNodes(c) !! Nodes(t) ==> NoDup(Before(c, t) + [t.n] + After(c, t))
  {
    PlugNodes(c, t);
    if Distinct(Plug(c, t)) {
      InOrderNoDup(Plug(c, t));
    }
    PlugInOrder(c, t);
    Regroup(Pre(c), InOrder(t.l), [t.n], InOrder(t.r), Post(c));
  }

  ghost function Elems(s: seq<Node>): set<Node> {
    set n | n in s
  }

  lemma {:induction false} ElemsInOrder(t: Tree)
    ensures Elems(InOrder(t)) == Nodes(t)
  {
    if t.Bin? {
      ElemsInOrder(t.l);
      ElemsInOrder(t.r);
      ElemsConcat(InOrder(t.l), [t.n]);
      ElemsConcat(InOrder(t.l) + [t.n], InOrder(t.r));
    }
  }

  lemma ElemsConcat(a: seq<Node>, b: seq<Node>)
    ensures Elems(a + b) == Elems(a) + Elems(b)
  {
  }

  lemma SameOrderNodes(t: Tree, c: Ctx, s: Tree)
    requires InOrder(t) == InOrder(Plug(c, s))
    ensures Nodes(t) == CNodes(c) + Nodes(s)
  {
    ElemsInOrder(t);
    ElemsInOrder(Plug(c, s));
    PlugNodes(c, s);
  }
}
