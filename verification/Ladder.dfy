/** The binary counter of sorted runs that the list's merge sort keeps, as values. */
module Ladder {
  import opened Rings
  import opened Order
  import opened ListOrder
  import opened Powers

  const SLOTS := 64

  /** The first `k` of the runs `segs`, the last of them first. */
  ghost function Cat(segs: seq<Seq>, k: nat): Seq
    requires k <= |segs|
  {
    if k == 0 then [] else segs[k - 1] + Cat(segs, k - 1)
  }

  /** Slot `i` holds the run `segs[i]` sorted stably, which has 2^i elements or none; from `fill` on there are none. */
  ghost predicate Counter(comp: Comp, es: seq<Seq>, segs: seq<Seq>, fill: nat) {
    && |es| == |segs| == SLOTS && fill <= SLOTS
    && (forall i :: 0 <= i < SLOTS ==> StableSorted(comp, segs[i], es[i]) && (segs[i] == [] || |segs[i]| == Pow2(i)))
    && (forall i :: fill <= i < SLOTS ==> segs[i] == [])
  }

  /** The slots before `i` are empty. */
  ghost predicate EmptyBelow(segs: seq<Seq>, i: nat)
    requires i <= |segs|
  {
    forall j :: 0 <= j < i ==> segs[j] == []
  }

  lemma StableSize(comp: Comp, s: Seq, r: Seq)
    requires StableSorted(comp, s, r)
    ensures |r| == |s|
  {
    assert |multiset(r)| == |r| && |multiset(s)| == |s|;
  }

  lemma {:induction false} CatEmpty(segs: seq<Seq>, k: nat)
    requires k <= |segs| && EmptyBelow(segs, k)
    ensures Cat(segs, k) == []
  {
    if k > 0 {
      CatEmpty(segs, k - 1);
    }
  }

  /** With nothing below it, a run comes last. */
  lemma {:induction false} CatLast(segs: seq<Seq>, k: nat, i: nat)
    requires i < k <= |segs| && EmptyBelow(segs, i)
    ensures Cat(segs, k) == Cat(segs[i := []], k) + segs[i]
  {
    if k == i + 1 {
      CatEmpty(segs, i);
      CatEmpty(segs[i := []], i);
    } else {
      CatLast(segs, k - 1, i);
    }
  }

  /** Slots with nothing in them do not matter. */
  lemma {:induction false} CatBeyond(segs: seq<Seq>, k: nat, n: nat)
    requires k <= n <= |segs| && forall j :: k <= j < n ==> segs[j] == []
    ensures Cat(segs, n) == Cat(segs, k)
  {
    if k < n {
      CatBeyond(segs, k, n - 1);
    }
  }

  /** A step of the carry: the run of slot `i`, merged with the carry, becomes the carry. */
  lemma CarryOn(comp: Comp, es: seq<Seq>, segs: seq<Seq>, fill: nat, i: nat, c: Seq, carry: Seq)
    requires StrictWeak(comp) && Counter(comp, es, segs, fill) && i < fill && EmptyBelow(segs, i)
    requires StableSorted(comp, c, carry) && |c| == Pow2(i) && es[i] != []
    ensures Counter(comp, es[i := []], segs[i := []], fill) && EmptyBelow(segs[i := []], i + 1)
    ensures StableSorted(comp, segs[i] + c, Merge(comp, es[i], carry)) && |segs[i] + c| == Pow2(i + 1)
    ensures Cat(segs, fill) + c == Cat(segs[i := []], fill) + (segs[i] + c)
  {
    StableSize(comp, segs[i], es[i]);
    MergeStable(comp, segs[i], es[i], c, carry);
    CatLast(segs, fill, i);
    SingleSorted(comp, []);
  }

  /** The carry arrives in the empty slot `i`. */
  lemma CarryIn(comp: Comp, es: seq<Seq>, segs: seq<Seq>, fill: nat, i: nat, c: Seq, carry: Seq)
    requires Counter(comp, es, segs, fill) && i <= fill && i < SLOTS && EmptyBelow(segs, i) && es[i] == []
    requires StableSorted(comp, c, carry) && |c| == Pow2(i)
    ensures var fill' := if i == fill then fill + 1 else fill;
      Counter(comp, es[i := carry], segs[i := c], fill') && Cat(segs[i := c], fill') == Cat(segs, fill) + c
  {
    var fill' := if i == fill then fill + 1 else fill;
    StableSize(comp, segs[i], es[i]);
    assert segs[i] == [] && segs[i := c][i := []] == segs;
    CatLast(segs[i := c], fill', i);
    CatBeyond(segs, fill, fill');
  }

  /** A carry of 2^i elements that are among fewer than 2^64 finds a slot. */
  lemma SlotFound(i: nat, n: nat)
    requires Pow2(i) <= n < Pow2(SLOTS)
    ensures i < SLOTS
  {
    Pow2Grows(SLOTS, i);
  }

  /** Merging slot after slot: everything up to slot `i` is in slot `i`. */
  lemma Collected(comp: Comp, segs: seq<Seq>, i: nat, e: Seq, lower: Seq)
    requires StrictWeak(comp) && i < |segs| && StableSorted(comp, segs[i], e) && StableSorted(comp, Cat(segs, i), lower)
    ensures StableSorted(comp, Cat(segs, i + 1), Merge(comp, e, lower))
  {
    MergeStable(comp, segs[i], e, Cat(segs, i), lower);
  }
}
