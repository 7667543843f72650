/**
 What holds between calls: no two free buddies are left unmerged, and the page counters.
 While a call is under way free buddy pairs do exist, but only at one known block.
 */
module BuddyRun {
  import opened BuddyBlocks
  import opened BuddyLists
  import opened BuddyState

  /** Every pair of free buddies has block p of order o as one of the two. */
  ghost predicate PairsOnlyAt(u: seq<Use>, p: nat, o: nat) {
    forall q, x :: FreePair(u, q, x) ==> x == o && (q == p || Flip(q, x) == p)
  }

  /** A free buddy pair that painting a block did not touch was there before. */
  lemma OldPair(u: seq<Use>, k: nat, o: nat, v: Use, q: nat, x: nat)
    requires FreePair(Paint(u, k, o, v), q, x) && v != Free(x)
    ensures FreePair(u, q, x) && Idx(q, o) != k && Idx(Flip(q, x), o) != k
  {
  }

  /** Splitting p leaves one pair, its two halves, provided no other block of that size is free. */
  lemma SplitPairs(u: seq<Use>, p: nat, o: nat, n: nat, right: nat)
    requires PairsOnlyAt(u, p, o) && FreeHead(u, p, o) && o == n + 1 <= MAX_ORDER && right == p + Pow2(n)
    requires forall q :: !FreeHead(u, q, n)
    ensures PairsOnlyAt(Paint(u, Idx(p, o), o, Free(n)), right, n)
  {
    var k := Idx(p, o);
    var u' := Paint(u, k, o, Free(n));
    Halves(k, n);
    forall q, x | FreePair(u', q, x) ensures x == n && (q == right || Flip(q, x) == right) {
      if x == n {
        assert !FreeHead(u, q, n);
        assert Idx(q, o) == k;
        HalfOf(q, n, k);
      } else {
        OldPair(u, k, o, Free(n), q, x);
        assert false;
      }
    }
  }

  /** Handing out the block that all pairs go through leaves none. */
  lemma TakePairs(u: seq<Use>, p: nat, o: nat)
    requires PairsOnlyAt(u, p, o) && FreeHead(u, p, o)
    ensures Coalesced(Paint(u, Idx(p, o), o, Live(o)))
  {
    var u' := Paint(u, Idx(p, o), o, Live(o));
    forall q, x ensures !FreePair(u', q, x) {
      if FreePair(u', q, x) {
        OldPair(u, Idx(p, o), o, Live(o), q, x);
      }
    }
  }

  /** Giving back a block makes pairs with that block only. */
  lemma GivePairs(u: seq<Use>, p: nat, o: nat)
    requires Coalesced(u) && p < |u| && u[p] == Live(o) && IsHead(p, o)
    ensures PairsOnlyAt(Paint(u, Idx(p, o), o, Free(o)), p, o)
  {
    var k := Idx(p, o);
    var u' := Paint(u, k, o, Free(o));
    forall q, x | FreePair(u', q, x) ensures x == o && (q == p || Flip(q, x) == p) {
      FlipHead(q, x);
      if x != o || (Idx(q, o) != k && Idx(Flip(q, x), o) != k) {
        assert FreePair(u, q, x);
        assert false;
      }
    }
  }

  /** Merging p with its buddy moves the pairs up to the merged block. */
  lemma MergePairs(u: seq<Use>, p: nat, b: nat, o: nat, n: nat, base: nat)
    requires PairsOnlyAt(u, p, o) && FreeHead(u, p, o) && n == o + 1 <= MAX_ORDER
    requires b == Flip(p, o) && base == (if p < b then p else b)
    requires forall q :: 0 <= q && Idx(q, n) == Idx(p, n) ==> q < |u| && u[q] == Free(o)
    ensures PairsOnlyAt(Paint(u, Idx(p, n), n, Free(n)), base, n)
  {
    var k := Idx(p, n);
    var u' := Paint(u, k, n, Free(n));
    forall q, x | FreePair(u', q, x) ensures x == n && (q == base || Flip(q, x) == base) {
      FlipHead(q, x);
      MergeHeads(o, n, p, b, base, k, q);
      MergeHeads(o, n, p, b, base, k, Flip(q, x));
      if x != n || (Idx(q, n) != k && Idx(Flip(q, x), n) != k) {
        assert false;
      }
    }
  }

  /** If the block all pairs go through has no free buddy, there are no pairs. */
  lemma NoPairs(u: seq<Use>, p: nat, o: nat)
    requires PairsOnlyAt(u, p, o) && !FreePair(u, p, o) && p < |u| && u[p] == Free(o)
    ensures Coalesced(u)
  {
    forall q, x ensures !FreePair(u, q, x) {
      if FreePair(u, q, x) {
        FlipHead(q, x);
        assert false;
      }
    }
  }

  /** The merge test is exact: the buddy's descriptor says "free, order o" if and only if the
      buddy is a free block of order o, although descriptors of pages inside blocks are stale. */
  lemma TrustBuddy(s: State, p: nat, o: nat, b: nat)
    requires Inv(s) && FreeHead(s.u, p, o) && o < MAX_ORDER && b == Flip(p, o)
    ensures FreePair(s.u, p, o) <==> b < |s.d| && s.d[b].free && s.d[b].order == o
    ensures b < |s.u| && s.u[b] == Free(o) ==> FreePair(s.u, p, o)
  {
    if b < |s.u| {
      assert DescOk(s.d[b], s.u[b], b);
      FlipHead(p, o);
      if !s.u[b].Unmanaged? {
        BuddyIsHead(s.u, p, o);
      }
    }
  }

  // ---------- Counting ----------

  ghost function LiveSet(u: seq<Use>): set<nat> {
    set q: nat | q < |u| && u[q].Live?
  }

  ghost function FreeSet(u: seq<Use>): set<nat> {
    set q: nat | q < |u| && u[q].Free?
  }

  predicate Between(a: nat, q: nat, b: nat) {
    a <= q < b
  }

  ghost function Interval(a: nat, b: nat): set<nat> {
    set q: nat | q < b && Between(a, q, b)
  }

  lemma {:induction false} IntervalSize(a: nat, b: nat)
    requires a <= b
    ensures |Interval(a, b)| == b - a
    decreases b
  {
    if a < b {
      IntervalSize(a, b - 1);
      assert Interval(a, b) == Interval(a, b - 1) + {b - 1};
    } else {
      assert Interval(a, b) == {};
    }
  }

  /** A block of order o has 2^o pages. */
  lemma BlockPages(k: nat, o: nat) returns (block: set<nat>)
    ensures |block| == Pow2(o) && forall q: nat :: q in block <==> Idx(q, o) == k
  {
    HeadStep(k, o);
    IntervalSize(Head(k, o), Head(k + 1, o));
    block := Interval(Head(k, o), Head(k + 1, o));
    forall q: nat ensures q in block <==> Idx(q, o) == k {
      BlockRange(q, k, o);
    }
  }

  lemma SizeOfUnion(a: set<nat>, b: set<nat>, c: set<nat>)
    requires b !! c && forall q: nat :: q in a <==> q in b || q in c
    ensures |a| == |b| + |c|
  {
    assert a == b + c;
  }

  /** Handing out a free block of order o moves 2^o pages from free to live. */
  lemma TakeCounts(u: seq<Use>, p: nat, o: nat)
    requires Partitioned(u) && FreeHead(u, p, o)
    ensures var u' := Paint(u, Idx(p, o), o, Live(o));
      |LiveSet(u')| == |LiveSet(u)| + Pow2(o) && |FreeSet(u)| == |FreeSet(u')| + Pow2(o)
  {
    var u' := Paint(u, Idx(p, o), o, Live(o));
    var block := BlockPages(Idx(p, o), o);
    BlockCovered(u, p, o);
    SizeOfUnion(LiveSet(u'), LiveSet(u), block);
    SizeOfUnion(FreeSet(u), FreeSet(u'), block);
  }

  /** Giving it back moves them the other way. */
  lemma GiveCounts(u: seq<Use>, p: nat, o: nat)
    requires Partitioned(u) && p < |u| && u[p] == Live(o)
    ensures var u' := Paint(u, Idx(p, o), o, Free(o));
      |LiveSet(u)| == |LiveSet(u')| + Pow2(o) && |FreeSet(u')| == |FreeSet(u)| + Pow2(o)
  {
    var u' := Paint(u, Idx(p, o), o, Free(o));
    var block := BlockPages(Idx(p, o), o);
    BlockCovered(u, p, o);
    SizeOfUnion(LiveSet(u), LiveSet(u'), block);
    SizeOfUnion(FreeSet(u'), FreeSet(u), block);
  }

  // ---------- Whole steps ----------

  lemma MergePaint(u: seq<Use>, o: nat, p: nat, b: nat, base: nat, n: nat)
    requires Partitioned(u) && FreePair(u, p, o) && b == Flip(p, o) && base == (if p < b then p else b) && n == o + 1
    ensures PairsOnlyAt(u, p, o) ==> PairsOnlyAt(Paint(u, Idx(p, n), n, Free(n)), base, n)
    ensures SameKinds(u, Paint(u, Idx(p, n), n, Free(n)))
  {
    ParentCovered(u, o, p, b);
    if PairsOnlyAt(u, p, o) { MergePairs(u, p, b, o, n, base); }
  }

  lemma MergeStep(s: State, o: nat, p: nat, b: nat, base: nat)
    requires Inv(s) && FreePair(s.u, p, o) && b == Flip(p, o) && base == if p < b then p else b
    ensures p in s.ls[o] && b in s.ls[o] && p != b
    ensures var s' := MergeF(s, o, p, b);
      && Inv(s') && base < |s'.d| && FreeHead(s'.u, base, o + 1) && s'.d[base].order == o + 1
      && (PairsOnlyAt(s.u, p, o) ==> PairsOnlyAt(s'.u, base, o + 1))
      && SameKinds(s.u, s'.u) && Untouched(s, s')
  {
    FlipHead(p, o);
    PairListed(s.ls, s.u, o, p, b, base);
    MergeKeeps(s, o, p, b);
    MergeUntouched(s, o, p, b);
    MergePaint(s.u, o, p, b, base, o + 1);
    var s' := MergeF(s, o, p, b);
    assert DescOk(s'.d[base], s'.u[base], base);
  }

  lemma SplitLabels(ls: seq<seq<nat>>, u: seq<Use>, o: nat, n: nat, p: nat)
    requires Partitioned(u) && Members(ls, u) && o == n + 1 <= MAX_ORDER && ls[n] == [] && FreeHead(u, p, o)
    ensures PairsOnlyAt(u, p, o) ==> PairsOnlyAt(Paint(u, Idx(p, o), o, Free(n)), p + Pow2(n), n)
    ensures SameKinds(u, Paint(u, Idx(p, o), o, Free(n)))
  {
    BlockCovered(u, p, o);
    assert ListsHeads(ls[n], u, n);
    if PairsOnlyAt(u, p, o) {
      SplitPairs(u, p, o, n, p + Pow2(n));
    }
  }

  /** A split while looking for a block of a smaller order, the lists in between being empty. */
  lemma SplitStep(s: State, o: nat, n: nat)
    requires Inv(s) && o == n + 1 <= MAX_ORDER && s.ls[o] != [] && s.ls[n] == []
    ensures var s' := SplitF(s, o);
      && Inv(s') && s'.ls[n] != []
      && (forall x :: 0 <= x < n ==> s'.ls[x] == s.ls[x])
      && (PairsOnlyAt(s.u, s.ls[o][0], o) ==> PairsOnlyAt(s'.u, s'.ls[n][0], n))
      && SameKinds(s.u, s'.u) && Untouched(s, s')
  {
    SplitKeeps(s, o);
    SplitUntouched(s, o);
    ListedIsFree(s, o, s.ls[o][0]);
    SplitLabels(s.ls, s.u, o, n, s.ls[o][0]);
  }

  // ---------- Which block serves ----------

  /** Only pages of free blocks of order o have got another label. */
  ghost predicate Parts(u: seq<Use>, u': seq<Use>, o: nat) {
    |u'| == |u| && forall q :: 0 <= q < |u| ==> u'[q] == u[q] || u[q] == Free(o)
  }

  lemma SplitParts(s: State, o: nat)
    requires Inv(s) && 0 < o <= MAX_ORDER && s.ls[o] != []
    ensures Parts(s.u, SplitF(s, o).u, o)
  {
    var p := s.ls[o][0];
    ListedIsFree(s, o, p);
    BlockCovered(s.u, p, o);
  }

  lemma NoneListed(s: State, x: nat)
    requires Inv(s) && x <= MAX_ORDER && s.ls[x] == []
    ensures forall q :: 0 <= q < |s.u| ==> s.u[q] != Free(x)
  {
    forall q | 0 <= q < |s.u| ensures s.u[q] != Free(x) {
      if s.u[q] == Free(x) {
        var p := BlocksCover(s.u, q);
        assert ListsHeads(s.ls[x], s.u, x) && FreeHead(s.u, p, x);
      }
    }
  }

  lemma PartsChain(s: State, v: seq<Use>, w: seq<Use>, from: nat, c: nat)
    requires Inv(s) && c <= MAX_ORDER && Parts(s.u, v, from) && Parts(v, w, c)
    requires c == from || s.ls[c] == []
    ensures Parts(s.u, w, from)
  {
    if c != from { NoneListed(s, c); }
  }

  /** The block of page p is the smallest free one that holds 2^order pages. */
  ghost predicate BestFit(u: seq<Use>, p: nat, order: nat) {
    && p < |u| && u[p].Free? && order <= u[p].order
    && forall q :: 0 <= q < |u| && u[q].Free? && order <= u[q].order ==> u[p].order <= u[q].order
  }

  /** The first list that is not empty has it. */
  lemma FirstListFits(s: State, u': seq<Use>, p: nat, order: nat, from: nat)
    requires Inv(s) && order <= from <= MAX_ORDER && forall x :: order <= x < from ==> s.ls[x] == []
    requires Parts(s.u, u', from) && p < |u'| && u'[p] == Free(order)
    ensures BestFit(s.u, p, order)
  {
    forall x | order <= x < from ensures forall q :: 0 <= q < |s.u| ==> s.u[q] != Free(x) {
      NoneListed(s, x);
    }
  }

  /** Splitting from order `from` down has come to order c: the lists below are still empty, and buddies can only meet
      at the first block of list c. */
  ghost predicate Descending(s0: State, s: State, from: nat, order: nat, c: nat) {
    && Inv(s) && order <= c <= from <= MAX_ORDER && s.ls[c] != [] && (forall x :: order <= x < c ==> s.ls[x] == [])
    && (Coalesced(s0.u) ==> PairsOnlyAt(s.u, s.ls[c][0], c))
    && SameKinds(s0.u, s.u) && Untouched(s0, s) && Parts(s0.u, s.u, from)
  }

  lemma DescendStep(s0: State, s: State, from: nat, order: nat, c: nat, n: nat)
    requires Inv(s0) && Descending(s0, s, from, order, c) && c == n + 1 > order
    requires forall x :: order <= x < from ==> s0.ls[x] == []
    ensures Descending(s0, SplitF(s, c), from, order, n)
  {
    SplitStep(s, c, n);
    SplitParts(s, c);
    KindsChain(s0, s, SplitF(s, c));
    PartsChain(s0, s.u, SplitF(s, c).u, from, c);
  }

  /** Merging leaves reference counts alone. */
  ghost predicate SameRefs(d: seq<PageDesc>, d': seq<PageDesc>) {
    |d'| == |d| && forall q :: 0 <= q < |d| ==> d'[q].refCount == d[q].refCount
  }

  lemma RelistRefs(s: State, t: State, o: nat, p: nat)
    requires SameButNext(s.d, t.d)
    ensures SameRefs(s.d, AddF(Redescribe(t, p, o), o, p).d)
  {
  }

  lemma MergeRefs(s: State, o: nat, p: nat, b: nat)
    requires Inv(s) && o < MAX_ORDER && p in s.ls[o] && b in s.ls[o] && p != b
    ensures SameRefs(s.d, MergeF(s, o, p, b).d)
  {
    DelTwoKeeps(s, o, p, b);
    RelistRefs(s, DelTwo(s, o, p, b), o + 1, if p < b then p else b);
  }

  /** Block p of order o was free throughout and is now live; other free pages are still free,
      and everything else is as it was. */
  ghost predicate Allocated(u: seq<Use>, u': seq<Use>, p: nat, o: nat) {
    && |u'| == |u| && p < |u| && IsHead(p, o) && u'[p] == Live(o)
    && forall q :: 0 <= q < |u| ==>
         if Idx(q, o) == Idx(p, o) then u[q].Free? && u'[q] == Live(o)
         else (u[q].Free? <==> u'[q].Free?) && (!u[q].Free? ==> u'[q] == u[q])
  }

  lemma TakeStep(s: State, o: nat, p: nat)
    requires Inv(s) && o <= MAX_ORDER && s.ls[o] != [] && p == s.ls[o][0]
    ensures p < |s.d| && s.d[p].physAddr == PfnToPhys(p) && p in s.ls[o]
    ensures var s' := TakeF(s, o);
      && Inv(s') && Allocated(s.u, s'.u, p, o) && Untouched(s, s')
      && (PairsOnlyAt(s.u, p, o) ==> Coalesced(s'.u))
      && |LiveSet(s'.u)| == |LiveSet(s.u)| + Pow2(o) && |FreeSet(s.u)| == |FreeSet(s'.u)| + Pow2(o)
  {
    TakeKeeps(s, o);
    TakeUntouched(s, o);
    assert DescOk(s.d[p], s.u[p], p);
    TakeLabels(s.u, p, o);
  }

  lemma TakeLabels(u: seq<Use>, p: nat, o: nat)
    requires Partitioned(u) && FreeHead(u, p, o)
    ensures var u' := Paint(u, Idx(p, o), o, Live(o));
      && Allocated(u, u', p, o) && (PairsOnlyAt(u, p, o) ==> Coalesced(u'))
      && |LiveSet(u')| == |LiveSet(u)| + Pow2(o) && |FreeSet(u)| == |FreeSet(u')| + Pow2(o)
  {
    BlockCovered(u, p, o);
    TakeCounts(u, p, o);
    if PairsOnlyAt(u, p, o) { TakePairs(u, p, o); }
  }

  /** Block p of order o was live and its pages are now free. */
  ghost predicate Released(u: seq<Use>, u': seq<Use>, p: nat, o: nat) {
    && |u'| == |u| && p < |u|
    && forall q :: 0 <= q < |u| ==>
         if Idx(q, o) == Idx(p, o) then u[q] == Live(o) && u'[q].Free?
         else (u[q].Free? <==> u'[q].Free?) && (!u[q].Free? ==> u'[q] == u[q])
  }

  lemma GiveStep(s: State, p: nat, o: nat)
    requires Inv(s) && p < |s.u| && s.u[p] == Live(o) && IsHead(p, o)
    ensures o <= MAX_ORDER && p < |s.d|
    ensures var s' := GiveF(s, p, o);
      && Inv(s') && FreeHead(s'.u, p, o) && s'.d[p].order == o && Released(s.u, s'.u, p, o)
      && (Coalesced(s.u) ==> PairsOnlyAt(s'.u, p, o))
      && |LiveSet(s.u)| == |LiveSet(s'.u)| + Pow2(o) && |FreeSet(s'.u)| == |FreeSet(s.u)| + Pow2(o)
      && (forall q :: 0 <= q < |s.d| && q != p ==> s'.d[q] == s.d[q]) && s'.d[p].slab == s.d[p].slab
  {
    GiveKeeps(s, p, o);
    GiveLabels(s.u, p, o);
  }

  lemma GiveLabels(u: seq<Use>, p: nat, o: nat)
    requires Partitioned(u) && p < |u| && u[p] == Live(o) && IsHead(p, o)
    ensures var u' := Paint(u, Idx(p, o), o, Free(o));
      && Released(u, u', p, o) && (Coalesced(u) ==> PairsOnlyAt(u', p, o))
      && |LiveSet(u)| == |LiveSet(u')| + Pow2(o) && |FreeSet(u')| == |FreeSet(u)| + Pow2(o)
  {
    BlockCovered(u, p, o);
    GiveCounts(u, p, o);
    if Coalesced(u) { GivePairs(u, p, o); }
  }

  lemma SameKindsCounts(u: seq<Use>, u': seq<Use>)
    requires SameKinds(u, u')
    ensures LiveSet(u') == LiveSet(u) && FreeSet(u') == FreeSet(u)
  {
  }

  lemma KindsChain(s: State, t: State, r: State)
    requires SameKinds(s.u, t.u) && Untouched(s, t) && SameKinds(t.u, r.u) && Untouched(t, r)
    ensures SameKinds(s.u, r.u) && Untouched(s, r)
  {
  }

  lemma KindsThenAllocated(s: State, t: State, r: State, p: nat, o: nat)
    requires SameKinds(s.u, t.u) && Untouched(s, t) && Allocated(t.u, r.u, p, o) && Untouched(t, r)
    ensures Allocated(s.u, r.u, p, o) && Untouched(s, r)
    ensures |FreeSet(t.u)| == |FreeSet(s.u)| && |LiveSet(t.u)| == |LiveSet(s.u)|
  {
    SameKindsCounts(s.u, t.u);
  }

  lemma ReleasedThenKinds(u: seq<Use>, v: seq<Use>, w: seq<Use>, p: nat, o: nat)
    requires Released(u, v, p, o) && SameKinds(v, w)
    ensures Released(u, w, p, o)
    ensures |FreeSet(w)| == |FreeSet(v)| && |LiveSet(w)| == |LiveSet(v)|
  {
    SameKindsCounts(v, w);
  }

  lemma GaveUntouched(s: State, t: State, r: State, p: nat, o: nat)
    requires Released(s.u, t.u, p, o) && Untouched(t, r) && |s.d| == |t.d|
    requires p < |s.d| && t.d[p].slab == s.d[p].slab && forall q :: 0 <= q < |s.d| && q != p ==> t.d[q] == s.d[q]
    ensures forall q :: 0 <= q < |s.d| && !s.u[q].Free? && Idx(q, o) != Idx(p, o) ==> r.d[q] == s.d[q]
    ensures NoNewSlab(s.d, r.d)
  {
  }

  // ---------- Setting up ----------

  lemma ReservedKeeps(s: State, s': State)
    requires Inv(s) && s' == s.(d := s'.d) && |s'.d| == |s.d|
    requires forall q :: 0 <= q < |s.d| ==> s'.d[q] == s.d[q].(reserved := s'.d[q].reserved)
    requires forall q :: 0 <= q < |s.d| && !s.u[q].Unmanaged? ==> s'.d[q] == s.d[q]
    ensures Inv(s')
  {
    ListsFrame(s.d, s'.d, s.h, s.ls);
    forall q | 0 <= q < |s.u| ensures DescOk(s'.d[q], s.u[q], q) {
      assert DescOk(s.d[q], s.u[q], q);
    }
  }

  /** Slab flag and cache of a descriptor are not the allocator's business. */
  lemma SlabFlagKeeps(s: State, p: nat, i: int)
    requires Inv(s) && p < |s.d|
    ensures Inv(s.(d := s.d[p := s.d[p].(slab := true, cache := i)]))
  {
    var d' := s.d[p := s.d[p].(slab := true, cache := i)];
    ListsFrame(s.d, d', s.h, s.ls);
    forall q | 0 <= q < |s.u| ensures DescOk(d'[q], s.u[q], q) {
      assert DescOk(s.d[q], s.u[q], q);
    }
  }

  ghost function AddPageF(s: State, p: nat): State {
    if p < |s.d| == |s.u| then
      AddF(s.(d := s.d[p := PageDesc(true, false, false, 0, 0, PfnToPhys(p), NIL, NIL)]), 0, p).(u := s.u[p := Free(0)])
    else s
  }

  lemma AddPageLabels(ls: seq<seq<nat>>, u: seq<Use>, p: nat)
    requires Partitioned(u) && Members(ls, u) && p < |u| && u[p].Unmanaged?
    ensures Partitioned(u[p := Free(0)]) && Members(ls[0 := [p] + ls[0]], u[p := Free(0)])
    ensures forall x :: 0 <= x <= MAX_ORDER ==> p !in ls[x]
  {
    var u', ls' := u[p := Free(0)], ls[0 := [p] + ls[0]];
    forall q | 0 <= q < |u'| && !u'[q].Unmanaged? ensures Whole(u', Idx(q, u'[q].order), u'[q]) {
      assert q != p ==> Whole(u, Idx(q, u[q].order), u[q]);
    }
    forall x | 0 <= x <= MAX_ORDER ensures ListsHeads(ls'[x], u', x) && p !in ls[x] {
      assert ListsHeads(ls[x], u, x);
      forall q: nat ensures q in ls'[x] <==> FreeHead(u', q, x) {
      }
    }
  }

  lemma AddPageCounts(u: seq<Use>, p: nat)
    requires p < |u| && u[p].Unmanaged?
    ensures |LiveSet(u[p := Free(0)])| == |LiveSet(u)| && |FreeSet(u[p := Free(0)])| == |FreeSet(u)| + 1
  {
    var u' := u[p := Free(0)];
    assert LiveSet(u') == LiveSet(u) && FreeSet(u') == FreeSet(u) + {p};
  }

  lemma AddPageStep(s: State, p: nat)
    requires Inv(s) && p < |s.u| && s.u[p].Unmanaged?
    ensures Inv(AddPageF(s, p)) && SameButNext(s.d[p := AddPageF(s, p).d[p]], AddPageF(s, p).d)
    ensures |LiveSet(s.u[p := Free(0)])| == |LiveSet(s.u)| && |FreeSet(s.u[p := Free(0)])| == |FreeSet(s.u)| + 1
  {
    var u' := s.u[p := Free(0)];
    AddPageCounts(s.u, p);
    AddPageLabels(s.ls, s.u, p);
    var s1 := s.(d := s.d[p := PageDesc(true, false, false, 0, 0, PfnToPhys(p), NIL, NIL)]);
    UnlistedFrame(s.d, s1.d, s.h, s.ls, p);
    AddLists(s1, 0, p);
    var s' := AddPageF(s, p);
    assert s' == AddF(s1, 0, p).(u := u');
    AddPageDescs(s.d, s1.d, s'.d, s.u, p);
  }

  lemma AddPageDescs(d: seq<PageDesc>, d1: seq<PageDesc>, d': seq<PageDesc>, u: seq<Use>, p: nat)
    requires Descs(d, u) && p < |d| && d1 == d[p := PageDesc(true, false, false, 0, 0, PfnToPhys(p), NIL, NIL)]
    requires SameButNext(d1, d')
    ensures Descs(d', u[p := Free(0)])
  {
    forall q | 0 <= q < |u| ensures DescOk(d'[q], u[p := Free(0)][q], q) {
      assert DescOk(d[q], u[q], q);
    }
  }
}
