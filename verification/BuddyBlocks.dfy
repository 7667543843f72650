/**
 The geometry of buddy blocks: page frames 0, 1, 2, ... cut into aligned blocks of 2^order
 pages, and how a labelling of pages by "which block am I in" behaves when blocks are split,
 merged, taken and given back.
 */
module BuddyBlocks {
  const MAX_ORDER: nat := 10

  function Pow2(o: nat): (r: nat)
    ensures r >= 1
  {
    if o == 0 then 1 else 2 * Pow2(o - 1)
  }

  /** The number of the order-o block that page q lies in. */
  function Idx(q: nat, o: nat): nat {
    if o == 0 then q else Idx(q, o - 1) / 2
  }

  /** The first page of the k-th block of order o. */
  function Head(k: nat, o: nat): nat
    decreases o
  {
    if o == 0 then k else Head(2 * k, o - 1)
  }

  predicate IsHead(q: nat, o: nat) {
    Head(Idx(q, o), o) == q
  }

  lemma {:induction false} HeadStep(k: nat, o: nat)
    ensures Head(k + 1, o) == Head(k, o) + Pow2(o)
    decreases o
  {
    if o > 0 {
      HeadStep(2 * k, o - 1);
      HeadStep(2 * k + 1, o - 1);
    }
  }

  lemma {:induction false} HeadMono(k: nat, j: nat, o: nat)
    requires k <= j
    ensures Head(k, o) <= Head(j, o)
    decreases j
  {
    if k < j {
      HeadMono(k, j - 1, o);
      HeadStep(j - 1, o);
    }
  }

  /** Block k is exactly the pages from its head up to the next head. */
  lemma {:induction false} BlockRange(q: nat, k: nat, o: nat)
    ensures Idx(q, o) == k <==> Head(k, o) <= q < Head(k + 1, o)
    decreases o
  {
    if o > 0 {
      BlockRange(q, 2 * k, o - 1);
      BlockRange(q, 2 * k + 1, o - 1);
      HeadStep(2 * k, o - 1);
      HeadStep(2 * k + 1, o - 1);
      assert Head(k + 1, o) == Head(2 * k + 2, o - 1);
    }
  }

  lemma HeadIsHead(k: nat, o: nat)
    ensures Idx(Head(k, o), o) == k && IsHead(Head(k, o), o)
  {
    HeadStep(k, o);
    BlockRange(Head(k, o), k, o);
  }

  lemma {:induction false} OddAbove(q: nat, o: nat)
    requires Idx(q, o) >= 1
    ensures q >= Pow2(o)
    decreases o
  {
    if o > 0 {
      BlockRange(q, Idx(q, o), o);
      HeadMono(1, Idx(q, o), o);
      HeadStep(0, o);
    }
  }

  /** q ^ (1 << o): bit o of q is the lowest bit of the number of its order-o block. */
  function Flip(q: nat, o: nat): nat {
    if Idx(q, o) % 2 == 0 then q + Pow2(o) else OddAbove(q, o); q - Pow2(o)
  }

  lemma {:induction false} IdxCoarser(q: nat, r: nat, o: nat, o': nat)
    requires Idx(q, o) == Idx(r, o) && o <= o'
    ensures Idx(q, o') == Idx(r, o')
    decreases o'
  {
    if o < o' {
      IdxCoarser(q, r, o, o' - 1);
    }
  }

  lemma {:induction false} HeadFiner(q: nat, o: nat, o': nat)
    requires IsHead(q, o') && o <= o'
    ensures IsHead(q, o)
    decreases o'
  {
    if o < o' {
      var k := Idx(q, o');
      assert Head(2 * k, o' - 1) == q;
      HeadIsHead(2 * k, o' - 1);
      HeadFiner(q, o, o' - 1);
    }
  }

  /** The two halves of block k of order o + 1, by their heads and by their buddies. */
  lemma Halves(k: nat, o: nat)
    ensures Head(k, o + 1) == Head(2 * k, o) && Head(2 * k + 1, o) == Head(k, o + 1) + Pow2(o)
    ensures Head(k + 1, o + 1) == Head(2 * k + 2, o) == Head(2 * k + 1, o) + Pow2(o)
    ensures IsHead(Head(2 * k, o), o) && IsHead(Head(2 * k + 1, o), o)
    ensures Idx(Head(2 * k, o), o) == 2 * k && Idx(Head(2 * k + 1, o), o) == 2 * k + 1
    ensures Flip(Head(2 * k, o), o) == Head(2 * k + 1, o) && Flip(Head(2 * k + 1, o), o) == Head(2 * k, o)
  {
    HeadStep(2 * k, o);
    HeadStep(2 * k + 1, o);
    HeadIsHead(2 * k, o);
    HeadIsHead(2 * k + 1, o);
  }

  /** The buddy of a block head is the head of the other half of the same parent, and being
      buddies is mutual. */
  lemma FlipHead(q: nat, o: nat)
    requires IsHead(q, o)
    ensures var b := Flip(q, o);
      && IsHead(b, o) && Idx(b, o + 1) == Idx(q, o + 1) && b != q
      && Flip(b, o) == q
      && (if q < b then q else b) == Head(Idx(q, o + 1), o + 1)
  {
    var k := Idx(q, o + 1);
    Halves(k, o);
    assert Idx(q, o) == 2 * k || Idx(q, o) == 2 * k + 1;
  }

  /** A head of order o inside block k of order o + 1 is one of its two halves. */
  lemma HalfOf(q: nat, o: nat, k: nat)
    requires IsHead(q, o) && Idx(q, o + 1) == k
    ensures q == Head(2 * k, o) || q == Head(2 * k + 1, o)
  {
    assert Idx(q, o) == 2 * k || Idx(q, o) == 2 * k + 1;
  }

  // ---------- Labelling pages by blocks ----------

  /** What a page is part of: nothing the allocator manages, a free block, or a block handed out. */
  datatype Use = Unmanaged | Free(order: nat) | Live(order: nat)

  /** Block k of the label's order lies within the pages and carries the label throughout. */
  ghost predicate Whole(u: seq<Use>, k: nat, v: Use)
    requires !v.Unmanaged?
  {
    v.order <= MAX_ORDER && forall r {:trigger Idx(r, v.order)} ::
      0 <= r && Idx(r, v.order) == k ==> r < |u| && u[r] == v
  }

  /** Every managed page's whole block carries the page's own label. */
  ghost predicate Partitioned(u: seq<Use>) {
    forall q :: 0 <= q < |u| && !u[q].Unmanaged? ==> Whole(u, Idx(q, u[q].order), u[q])
  }

  function Paint(u: seq<Use>, k: nat, o: nat, v: Use): (u': seq<Use>)
    ensures |u'| == |u|
    ensures forall q {:trigger u'[q]} :: 0 <= q < |u| ==> u'[q] == if Idx(q, o) == k then v else u[q]
  {
    seq(|u|, q requires 0 <= q < |u| => if Idx(q, o) == k then v else u[q])
  }

  /** The pages of block k of order o all belong to blocks no larger than it. */
  ghost predicate Covered(u: seq<Use>, k: nat, o: nat) {
    forall q {:trigger Idx(q, o)} :: 0 <= q && Idx(q, o) == k ==> q < |u| && !u[q].Unmanaged? && u[q].order <= o
  }

  /** Relabelling a union of blocks with blocks that fit inside it keeps the partition. */
  lemma PaintPartitioned(u: seq<Use>, k: nat, o: nat, v: Use)
    requires Partitioned(u) && Covered(u, k, o) && !v.Unmanaged? && v.order <= o <= MAX_ORDER
    ensures Partitioned(Paint(u, k, o, v))
  {
    var u' := Paint(u, k, o, v);
    forall q | 0 <= q < |u| && !u'[q].Unmanaged? ensures Whole(u', Idx(q, u'[q].order), u'[q]) {
      forall r | 0 <= r && Idx(r, u'[q].order) == Idx(q, u'[q].order) ensures r < |u'| && u'[r] == u'[q] {
        if Idx(q, o) == k {
          IdxCoarser(r, q, v.order, o);
        } else {
          assert Whole(u, Idx(q, u[q].order), u[q]);
          if Idx(r, o) == k {
            IdxCoarser(r, q, u[q].order, o);
          }
        }
      }
      assert Idx(q, o) != k ==> Whole(u, Idx(q, u[q].order), u[q]);
    }
  }

  /** A free or live block covers itself. */
  lemma BlockCovered(u: seq<Use>, q: nat, o: nat)
    requires Partitioned(u) && q < |u| && !u[q].Unmanaged? && u[q].order == o
    ensures Covered(u, Idx(q, o), o)
    ensures forall r :: 0 <= r < |u| && Idx(r, o) == Idx(q, o) ==> u[r] == u[q]
  {
    assert Whole(u, Idx(q, o), u[q]);
  }

  /** Why the allocator may trust its buddy's descriptor: the buddy of the head of a block is
      itself the head of a block, never a page in the middle of one. */
  lemma BuddyIsHead(u: seq<Use>, p: nat, o: nat)
    requires Partitioned(u) && p < |u| && !u[p].Unmanaged? && u[p].order == o && IsHead(p, o)
    requires Flip(p, o) < |u| && !u[Flip(p, o)].Unmanaged?
    ensures var b := Flip(p, o); u[b].order <= o && IsHead(b, u[b].order)
  {
    var b := Flip(p, o);
    FlipHead(p, o);
    if u[b].order > o {
      IdxCoarser(p, b, o + 1, u[b].order);
      assert false;
    }
    HeadFiner(b, u[b].order, o);
  }

  // ---------- The blocks themselves ----------

  /** p heads a block, free or handed out. */
  ghost predicate BlockAt(u: seq<Use>, p: nat) {
    p < |u| && !u[p].Unmanaged? && IsHead(p, u[p].order)
  }

  lemma {:induction false} HeadAligned(k: nat, o: nat)
    ensures Head(k, o) == k * Pow2(o)
    decreases o
  {
    if o > 0 {
      HeadAligned(2 * k, o - 1);
    }
  }

  /** Blocks are aligned to their size and lie within the page array. */
  lemma BlocksAligned(u: seq<Use>, p: nat)
    requires Partitioned(u) && BlockAt(u, p)
    ensures p == Idx(p, u[p].order) * Pow2(u[p].order) && p + Pow2(u[p].order) <= |u| && u[p].order <= MAX_ORDER
  {
    var o, k := u[p].order, Idx(p, u[p].order);
    HeadAligned(k, o);
    HeadStep(k, o);
    assert Whole(u, k, u[p]);
    BlockRange(p + Pow2(o) - 1, k, o);
  }

  /** Two different blocks share no page. */
  lemma BlocksDisjoint(u: seq<Use>, p: nat, q: nat)
    requires Partitioned(u) && BlockAt(u, p) && BlockAt(u, q) && p != q
    ensures p + Pow2(u[p].order) <= q || q + Pow2(u[q].order) <= p
  {
    var o, o' := u[p].order, u[q].order;
    HeadStep(Idx(p, o), o);
    HeadStep(Idx(q, o'), o');
    BlockRange(q, Idx(p, o), o);
    BlockRange(p, Idx(q, o'), o');
    assert Whole(u, Idx(p, o), u[p]) && Whole(u, Idx(q, o'), u[q]);
  }

  /** Every managed page lies in a block, and in only one by BlocksDisjoint. */
  lemma BlocksCover(u: seq<Use>, q: nat) returns (p: nat)
    requires Partitioned(u) && q < |u| && !u[q].Unmanaged?
    ensures BlockAt(u, p) && p <= q < p + Pow2(u[p].order) && u[p] == u[q]
  {
    var o, k := u[q].order, Idx(q, u[q].order);
    p := Head(k, o);
    HeadIsHead(k, o);
    HeadStep(k, o);
    BlockRange(q, k, o);
    assert Whole(u, k, u[q]);
  }
}
