/** Several lists at a time: what two of them exchange leaves the others alone. */
module ListPool {
  import opened ListNodes
  import opened Rings
  import opened Order
  import opened ListOrder
  import opened Lists

  ghost function Nodes(root: ListNode, s: Seq): set<ListNode> {
    Members([root] + s)
  }

  /** Lists without common nodes, all of their nodes among `all`. */
  ghost predicate Separate(m: LinkMap, roots: Seq, es: seq<Seq>, all: set<ListNode>) {
    && |es| == |roots|
    && (forall i :: 0 <= i < |es| ==> IsList(m, roots[i], es[i]) && Nodes(roots[i], es[i]) <= all)
    && (forall i, j :: 0 <= i < |es| && 0 <= j < |es| && i != j ==> Nodes(roots[i], es[i]) !! Nodes(roots[j], es[j]))
  }

  /** Two of the lists have changed among themselves. */
  lemma StillSeparate(m: LinkMap, m': LinkMap, roots: Seq, es: seq<Seq>, es': seq<Seq>, all: set<ListNode>, i: nat,
      j: nat)
    requires Separate(m, roots, es, all) && i < |es| && j < |es| && i != j && |es'| == |es|
    requires forall k :: 0 <= k < |es| && k != i && k != j ==> es'[k] == es[k]
    requires IsList(m', roots[i], es'[i]) && IsList(m', roots[j], es'[j])
      && Nodes(roots[i], es'[i]) !! Nodes(roots[j], es'[j])
    requires Nodes(roots[i], es'[i]) + Nodes(roots[j], es'[j]) == Nodes(roots[i], es[i]) + Nodes(roots[j], es[j])
    requires OnlyLinked(m, m', Nodes(roots[i], es[i]) + Nodes(roots[j], es[j]))
    ensures Separate(m', roots, es', all) && OnlyLinked(m, m', all)
  {
    forall k | 0 <= k < |es| ensures IsList(m', roots[k], es'[k]) && Nodes(roots[k], es'[k]) <= all {
      if k != i && k != j {
        forall n <- [roots[k]] + es[k] ensures n in m ==> n in m' && m'[n] == m[n] {
          assert n in Nodes(roots[k], es[k]);
        }
        RingFrame(m, m', [roots[k]] + es[k]);
      }
    }
  }

  /** The list objects of a pool, by their fields. */
  ghost predicate Pool(ls: seq<List>, T: ListTraits, roots: Seq, es: seq<Seq>)
    reads ls
  {
    && |ls| == |roots| == |es|
    && (forall i :: 0 <= i < |ls| ==>
      ls[i].T == T && ls[i].root == roots[i] && ls[i].elems == es[i] && ls[i].size == |es[i]|)
    && (forall i, j :: 0 <= i < j < |ls| ==> ls[i] != ls[j])
  }

  method MergeAt(ls: seq<List>, T: ListTraits, i: nat, j: nat, comp: Comp, ghost roots: Seq, ghost es: seq<Seq>,
      ghost all: set<ListNode>)
      returns (ghost es': seq<Seq>)
    requires T.Valid() && Pool(ls, T, roots, es) && Separate(T.links, roots, es, all) && i < |ls| && j < |ls| && i != j
    modifies ls, T, T.links.Keys
    ensures T.Valid() && es' == es[i := Merge(comp, es[i], es[j])][j := []] && Pool(ls, T, roots, es')
      && Separate(T.links, roots, es', all)
    ensures OnlyLinked(old(T.links), T.links, all)
  {
    ghost var m := T.links;
    es' := es[i := Merge(comp, es[i], es[j])][j := []];
    ls[i].MergeWith(ls[j], comp);
    StillSeparate(m, T.links, roots, es, es', all, i, j);
  }

  method SwapAt(ls: seq<List>, T: ListTraits, i: nat, j: nat, ghost roots: Seq, ghost es: seq<Seq>,
      ghost all: set<ListNode>)
      returns (ghost es': seq<Seq>)
    requires T.Valid() && Pool(ls, T, roots, es) && Separate(T.links, roots, es, all) && i < |ls| && j < |ls| && i != j
    modifies ls, T, T.links.Keys
    ensures T.Valid() && es' == es[i := es[j]][j := es[i]] && Pool(ls, T, roots, es')
      && Separate(T.links, roots, es', all)
    ensures OnlyLinked(old(T.links), T.links, all)
  {
    ghost var m := T.links;
    es' := es[i := es[j]][j := es[i]];
    ls[i].Swap(ls[j]);
    StillSeparate(m, T.links, roots, es, es', all, i, j);
  }

  method SpliceFirstAt(ls: seq<List>, T: ListTraits, i: nat, j: nat, ghost roots: Seq, ghost es: seq<Seq>,
      ghost all: set<ListNode>)
      returns (ghost es': seq<Seq>)
    requires T.Valid() && Pool(ls, T, roots, es) && Separate(T.links, roots, es, all) && i < |ls| && j < |ls| && i != j
      && es[j] != []
    modifies ls, T, T.links.Keys
    ensures T.Valid() && es' == es[i := [es[j][0]] + es[i]][j := es[j][1..]] && Pool(ls, T, roots, es')
      && Separate(T.links, roots, es', all)
    ensures OnlyLinked(old(T.links), T.links, all)
  {
    ghost var m := T.links;
    es' := es[i := [es[j][0]] + es[i]][j := es[j][1..]];
    ls[i].SpliceFirst(ls[j]);
    StillSeparate(m, T.links, roots, es, es', all, i, j);
  }
}
