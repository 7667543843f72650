/**
 The buddy page allocator on its page array and free-list heads.
 */
module Buddy {
  import opened BuddyBlocks
  import opened BuddyLists
  import opened BuddyState
  import opened BuddyRun

  /** The guard against unsigned underflow around the page counter. */
  function SubtractOrZero(a: nat, b: nat): nat {
    if a >= b then a - b else 0
  }

  class BuddyAllocator {
    const pages: array<PageDesc>
    const heads: array<int>
    var totalPages: nat
    var statTotal: nat
    var statUsed: nat
    ghost var lists: seq<seq<nat>>
    ghost var use: seq<Use>

    ghost function St(): (s: State)
      reads `lists, `use, pages, heads
    {
      State(pages[..], heads[..], lists, use)
    }

    ghost predicate Valid()
      reads this, pages, heads
    {
      && Inv(St()) && totalPages <= BUDDY_MAX_PAGES
      && (forall q :: totalPages <= q < |use| ==> use[q].Unmanaged?)
      && statUsed == |LiveSet(use)| && statTotal == |LiveSet(use)| + |FreeSet(use)|
    }

    constructor ()
      ensures Valid() && fresh(pages) && fresh(heads) && totalPages == 0 && statUsed == 0
      ensures forall q :: 0 <= q < BUDDY_MAX_PAGES ==> use[q] == Unmanaged && !pages[q].reserved
    {
      pages := new PageDesc[BUDDY_MAX_PAGES](_ => PageDesc(false, false, false, 0, 0, 0, NIL, NIL));
      heads := new int[MAX_ORDER + 1](_ => NIL);
      totalPages, statTotal, statUsed := 0, 0, 0;
      lists := seq(MAX_ORDER + 1, _ => []);
      use := seq(BUDDY_MAX_PAGES, _ => Unmanaged);
      new;
      assert forall o :: 0 <= o <= MAX_ORDER ==> ListsHeads(lists[o], use, o);
      assert LiveSet(use) == {} && FreeSet(use) == {};
    }

    /** None of the pages of a range is managed. */
    ghost predicate Unused(start: nat, end: nat)
      reads this
    {
      forall q :: start <= q < end && q < |use| ==> use[q].Unmanaged?
    }

    /** Marks a range of pages as never to be handed out; sound if none of them is in use yet. */
    method MarkReserved(start: nat, end: nat)
      requires Valid()
      modifies pages
      ensures Unused(start, end) ==> Valid()
      ensures forall q :: 0 <= q < pages.Length ==>
        pages[q] == if start <= q < end then old(pages[q]).(reserved := true) else old(pages[q])
    {
      if start >= BUDDY_MAX_PAGES { return; }
      var last := if end > BUDDY_MAX_PAGES then BUDDY_MAX_PAGES else end;
      if last < start { return; }
      ghost var s := St();
      for pfn := start to last
        invariant forall q :: 0 <= q < pages.Length ==>
          pages[q] == if start <= q < pfn then old(pages[q]).(reserved := true) else old(pages[q])
      {
        pages[pfn] := pages[pfn].(reserved := true);
      }
      if Unused(start, end) { ReservedKeeps(s, St()); }
    }

    /** Registers a page with a slab cache. */
    method MarkSlab(pfn: nat, cache: nat)
      requires Valid() && pfn < pages.Length
      modifies pages
      ensures Valid() && pages[..] == old(pages[..])[pfn := old(pages[pfn]).(slab := true, cache := cache)]
    {
      SlabFlagKeeps(St(), pfn, cache);
      pages[pfn] := pages[pfn].(slab := true, cache := cache);
    }

    /** Puts every page of a range that is not reserved on the order-0 list; sound if the range lies within the
        pages there are and none of them is in use yet. */
    method MarkAvailable(start: nat, end: nat)
      requires Valid()
      modifies this, pages, heads
      ensures totalPages == old(totalPages) && statUsed == old(statUsed)
      ensures end <= totalPages && old(Unused(start, end)) ==> Valid() && forall q :: 0 <= q < |use| ==>
        use[q] == if start <= q < end && !old(pages[q].reserved) then Free(0) else old(use)[q]
    {
      if start >= BUDDY_MAX_PAGES { return; }
      var last := if end > BUDDY_MAX_PAGES then BUDDY_MAX_PAGES else end;
      if last < start { return; }
      ghost var good := end <= totalPages && Unused(start, end);
      for pfn := start to last
        invariant totalPages == old(totalPages) && statUsed == old(statUsed) && Shaped(St())
        invariant forall q :: pfn <= q < pages.Length ==> pages[q].reserved == old(pages[q].reserved)
        invariant good ==> Valid() && |use| == |old(use)| && forall q :: 0 <= q < |use| ==>
          use[q] == if start <= q < pfn && !old(pages[q].reserved) then Free(0) else old(use)[q]
      {
        if !pages[pfn].reserved {
          AddPage(pfn, good);
        }
      }
    }

    method AddPage(pfn: nat, ghost good: bool)
      requires Shaped(St()) && pfn < pages.Length
      requires good ==> Valid() && pfn < totalPages && use[pfn].Unmanaged? && !pages[pfn].reserved
      modifies this, pages, heads
      ensures Shaped(St()) && totalPages == old(totalPages) && statUsed == old(statUsed)
      ensures good ==> Valid() && use == old(use)[pfn := Free(0)]
      ensures forall q :: 0 <= q < pages.Length && q != pfn ==> pages[q].reserved == old(pages[q].reserved)
    {
      if good { AddPageStep(St(), pfn); }
      pages[pfn] := PageDesc(true, false, false, 0, 0, PfnToPhys(pfn), NIL, NIL);
      ListAdd(0, pfn);
      if good { use := use[pfn := Free(0)]; }
      statTotal := statTotal + 1;
    }

    method ListAdd(o: nat, p: nat)
      requires Shaped(St()) && o <= MAX_ORDER && p < pages.Length
      modifies pages, heads, `lists
      ensures St() == AddF(old(St()), o, p)
    {
      pages[p] := pages[p].(next := heads[o]);
      heads[o] := p;
      lists := lists[o := [p] + lists[o]];
    }

    /** The page whose link leads to p, NIL if there is none. */
    method FindPrev(o: nat, p: nat) returns (prev: int)
      requires o < heads.Length && o < |lists| && Linked(pages[..], heads[o], lists[o]) && NoRepeats(lists[o])
      requires heads[o] != p
      ensures if p in lists[o] then var i := IndexOf(lists[o], p); i > 0 && prev == lists[o][i - 1] else prev == NIL
      ensures prev == NIL || 0 <= prev < pages.Length
    {
      ghost var d, l, j := pages[..], lists[o], 0;
      prev := heads[o];
      while prev != NIL && pages[prev].next != p
        invariant 0 <= j <= |l| && p !in l[..j] && (j < |l| ==> prev == l[j] && l[j] < |d|)
        invariant j == |l| ==> prev == NIL
        invariant j < |l| ==> l[j] != p
        decreases |l| - j
      {
        assert d[l[j]].next == Succ(l, j);
        prev := pages[prev].next;
        j := j + 1;
      }
      if j < |l| {
        assert d[l[j]].next == Succ(l, j);
        assert j + 1 < |l| && l[j + 1] == p;
      }
    }

    /** list_del; a page that is not on the list is left alone. */
    method ListDel(o: nat, p: nat)
      requires Lists(pages[..], heads[..], lists) && o <= MAX_ORDER && p < pages.Length
      modifies pages, heads, `lists
      ensures St() == DelP(old(St()), o, p)
    {
      assert Linked(pages[..], heads[o], lists[o]) && NoRepeats(lists[o]);
      if heads[o] == p {
        assert p == lists[o][0] && IndexOf(lists[o], p) == 0;
        DelBounds(St(), o, 0);
        heads[o] := pages[p].next;
        pages[p] := pages[p].(next := NIL);
        lists := lists[o := Cut(lists[o], 0)];
        return;
      }
      var prev := FindPrev(o, p);
      if prev != NIL {
        ghost var i := IndexOf(lists[o], p);
        DelBounds(St(), o, i);
        pages[prev] := pages[prev].(next := pages[p].next);
        pages[p] := pages[p].(next := NIL);
        lists := lists[o := Cut(lists[o], i)];
      }
    }

    method Describe(p: nat, o: nat)
      requires p < pages.Length
      modifies pages
      ensures St() == Redescribe(old(St()), p, o)
    {
      pages[p] := AsFree(pages[p], o, p);
    }

    /** Takes a block off its list and describes its halves. */
    method CutBlock(order: nat, p: nat, right: nat)
      requires Deletable(St(), order, p) && order > 0 && right < pages.Length && p < pages.Length
      modifies pages, heads, `lists
      ensures St() == Redescribe(Redescribe(DelP(old(St()), order, p), p, order - 1), right, order - 1) && Shaped(St())
    {
      DelPKeeps(St(), order, p);
      ListDel(order, p);
      Describe(p, order - 1);
      Describe(right, order - 1);
    }

    method ListPair(o: nat, p: nat, q: nat)
      requires Shaped(St()) && o <= MAX_ORDER && p < pages.Length && q < pages.Length
      modifies pages, heads, `lists
      ensures St() == AddF(AddF(old(St()), o, p), o, q)
    {
      ListAdd(o, p);
      ListAdd(o, q);
    }

    method SplitLinks(order: nat, p: nat)
      requires Deletable(St(), order, p) && order > 0 && lists[order][0] == p && p + Pow2(order - 1) < pages.Length
      modifies pages, heads, `lists, `use
      ensures St() == SplitF(old(St()), order)
    {
      var right := p + Pow2(order - 1);
      CutBlock(order, p, right);
      ListPair(order - 1, p, right);
      use := Paint(use, Idx(p, order), order, Free(order - 1));
    }

    /** Cuts the first free block of an order in two; NIL if there is none. */
    method Split(order: nat) returns (left: int)
      requires Inv(St())
      modifies pages, heads, `lists, `use
      ensures Inv(St())
      ensures order == 0 || order > MAX_ORDER || old(lists[order]) == [] ==> left == NIL && St() == old(St())
      ensures 0 < order <= MAX_ORDER && old(lists[order]) != [] ==>
        left == old(lists[order][0]) && St() == SplitF(old(St()), order)
    {
      if order == 0 || order > MAX_ORDER { return NIL; }
      assert Linked(pages[..], heads[order], lists[order]);
      if heads[order] == NIL { return NIL; }
      SplitKeeps(St(), order);
      left := heads[order];
      assert left in lists[order];
      SplitLinks(order, left);
    }

    method MergeLinks(order: nat, p: nat, b: nat)
      requires Deletable(St(), order, p) && b in lists[order] && p != b && order < MAX_ORDER
      requires p < pages.Length && b < pages.Length
      modifies pages, heads, `lists, `use
      ensures St() == MergeF(old(St()), order, p, b)
    {
      DelPKeeps(St(), order, p);
      ListDel(order, p);
      DelPKeeps(St(), order, b);
      ListDel(order, b);
      var base := if p < b then p else b;
      Describe(base, order + 1);
      ListAdd(order + 1, base);
      use := Paint(use, Idx(p, order + 1), order + 1, Free(order + 1));
    }

    /** One merge of p with its free buddy. */
    method MergeOnce(order: nat, p: nat, b: nat) returns (base: nat)
      requires Inv(St()) && FreePair(use, p, order) && b == Flip(p, order)
      modifies pages, heads, `lists, `use
      ensures Inv(St()) && base < pages.Length && FreeHead(use, base, order + 1) && pages[base].order == order + 1
      ensures PairsOnlyAt(old(use), p, order) ==> PairsOnlyAt(use, base, order + 1)
      ensures SameRefs(old(pages[..]), pages[..])
      ensures SameKinds(old(use), use) && Untouched(old(St()), St())
    {
      base := if p < b then p else b;
      MergeStep(St(), order, p, b, base);
      MergeRefs(St(), order, p, b);
      MergeLinks(order, p, b);
    }

    /** Merges p with its buddy as long as the buddy is a free block of the same order. */
    method Merge(p: nat) returns (r: nat)
      requires Inv(St()) && p < pages.Length && FreeHead(use, p, pages[p].order)
      modifies pages, heads, `lists, `use
      ensures Inv(St()) && r < pages.Length && FreeHead(use, r, pages[r].order)
      ensures PairsOnlyAt(old(use), p, old(pages[p].order)) ==> Coalesced(use)
      ensures SameRefs(old(pages[..]), pages[..])
      ensures SameKinds(old(use), use) && Untouched(old(St()), St())
      decreases MAX_ORDER - pages[p].order
    {
      var order := pages[p].order;
      if PairsOnlyAt(use, p, order) && !FreePair(use, p, order) { NoPairs(use, p, order); }
      if order >= MAX_ORDER {
        return p;
      }
      var b := Flip(p, order);
      TrustBuddy(St(), p, order, b);
      if b >= BUDDY_MAX_PAGES || !pages[b].free || pages[b].order != order {
        return p;
      }
      var base := MergeOnce(order, p, b);
      r := Merge(base);
    }

    /** Splits blocks from order `from` down until list `order` is not empty. */
    method SplitDown(from: nat, order: nat)
      requires Inv(St()) && order <= from <= MAX_ORDER && lists[from] != []
      requires forall x :: order <= x < from ==> lists[x] == []
      modifies pages, heads, `lists, `use
      ensures Descending(old(St()), St(), from, order, order)
    {
      var current: nat := from;
      while current > order
        invariant Descending(old(St()), St(), from, order, current)
      {
        var next: nat := current - 1;
        DescendStep(old(St()), St(), from, order, current, next);
        var _ := Split(current);
        current := next;
      }
    }

    method TakeFirst(order: nat, p: nat)
      requires Inv(St()) && order <= MAX_ORDER && lists[order] != [] && p == lists[order][0]
      modifies pages, heads, `lists, `use
      ensures St() == TakeF(old(St()), order)
    {
      TakeStep(St(), order, p);
      DelPKeeps(St(), order, p);
      ListDel(order, p);
      pages[p] := pages[p].(free := false, order := order, refCount := 1);
      use := Paint(use, Idx(p, order), order, Live(order));
    }

    /** The smallest order from `order` up with a free block; MAX_ORDER + 1 if there is none. */
    method FindOrder(order: nat) returns (current: nat)
      requires Inv(St()) && order <= MAX_ORDER
      ensures order <= current <= MAX_ORDER + 1 && (current <= MAX_ORDER ==> lists[current] != [])
      ensures forall x :: order <= x < current ==> lists[x] == []
    {
      current := order;
      assert forall x :: 0 <= x <= MAX_ORDER ==> Linked(St().d, St().h[x], lists[x]);
      while current <= MAX_ORDER && heads[current] == NIL
        invariant order <= current <= MAX_ORDER + 1
        invariant forall x :: order <= x < current ==> lists[x] == []
      {
        assert Linked(St().d, St().h[current], lists[current]);
        current := current + 1;
      }
      assert current <= MAX_ORDER ==> Linked(St().d, St().h[current], lists[current]);
    }

    lemma NoneFree(order: nat)
      requires Inv(St()) && forall x :: order <= x <= MAX_ORDER ==> lists[x] == []
      ensures NoBlock(use, order)
    {
      forall x, q | order <= x <= MAX_ORDER ensures !FreeHead(use, q, x) {
        assert ListsHeads(lists[x], use, x);
      }
    }

    /** Hands out 2^order pages; 0 stands for NULL.  It fails only if no free block is big enough. */
    method AllocPages(order: nat) returns (pa: nat, ghost p: nat)
      requires Valid()
      modifies this, pages, heads
      ensures Valid() && totalPages == old(totalPages) && statTotal == old(statTotal)
      ensures old(Coalesced(use)) ==> Coalesced(use)
      ensures pa == 0 <==> NoBlock(old(use), order)
      ensures pa == 0 ==> St() == old(St()) && statUsed == old(statUsed)
      ensures pa != 0 ==>
        && pa == PfnToPhys(p) && Allocated(old(use), use, p, order) && pages[p].refCount == 1
        && statUsed == old(statUsed) + Pow2(order) && Untouched(old(St()), St())
        && BestFit(old(use), p, order)
    {
      p := 0;
      if order > MAX_ORDER { return 0, 0; }
      var current := FindOrder(order);
      if current > MAX_ORDER {
        NoneFree(order);
        return 0, 0;
      }
      ListedIsFree(St(), current, lists[current][0]);
      pa, p := Carve(current, order);
      statUsed := statUsed + Pow2(order);
    }

    /** Splits down to the order wanted and takes the first block. */
    method Carve(from: nat, order: nat) returns (pa: nat, ghost p: nat)
      requires Inv(St()) && order <= from <= MAX_ORDER && lists[from] != []
      requires forall x :: order <= x < from ==> lists[x] == []
      modifies pages, heads, `lists, `use
      ensures Inv(St()) && pa == PfnToPhys(p) && Allocated(old(use), use, p, order)
      ensures Untouched(old(St()), St()) && pages[p].refCount == 1
      ensures BestFit(old(use), p, order)
      ensures old(Coalesced(use)) ==> Coalesced(use)
      ensures |LiveSet(use)| == |LiveSet(old(use))| + Pow2(order)
      ensures |FreeSet(old(use))| == |FreeSet(use)| + Pow2(order)
    {
      SplitDown(from, order);
      ghost var t := St();
      var first := heads[order];
      assert Linked(t.d, t.h[order], t.ls[order]);
      ListedIsFree(t, order, first);
      FirstListFits(old(St()), t.u, first, order, from);
      TakeStep(t, order, first);
      TakeFirst(order, first);
      KindsThenAllocated(old(St()), t, St(), first, order);
      p := first;
      pa := pages[first].physAddr;
      // The address lies below 1 GiB, so the source's return of NULL for higher ones is dead code.
      assert pa < KERNEL_PHYS_MAX;
    }

    /** What free_pages checks before it touches anything. */
    ghost predicate Accepts(pa: nat, order: nat)
      requires totalPages <= pages.Length
      reads this, pages
    {
      && pa != 0 && order <= MAX_ORDER && pa >= PHYS_MEM_BASE
      && var pfn := (pa - PHYS_MEM_BASE) / PAGE_SIZE;
         pfn < totalPages && !pages[pfn].reserved && !pages[pfn].free
    }

    /** Takes 2^order pages back.  Pointers the checks turn away, a block freed twice among them,
        change nothing; any other must be a block handed out with that order. */
    method FreePages(pa: nat, order: nat)
      requires Valid()
      requires Accepts(pa, order) ==>
        var pfn := (pa - PHYS_MEM_BASE) / PAGE_SIZE; use[pfn] == Live(order) && IsHead(pfn, order)
      modifies this, pages, heads
      ensures Valid() && totalPages == old(totalPages) && statTotal == old(statTotal)
      ensures old(Coalesced(use)) ==> Coalesced(use)
      ensures !old(Accepts(pa, order)) ==> St() == old(St()) && statUsed == old(statUsed)
      ensures old(Accepts(pa, order)) ==>
        var pfn := (pa - PHYS_MEM_BASE) / PAGE_SIZE;
        && Released(old(use), use, pfn, order) && old(statUsed) == statUsed + Pow2(order) && pages[pfn].refCount == 0
        && forall q :: 0 <= q < pages.Length && !old(use)[q].Free? && Idx(q, order) != Idx(pfn, order) ==>
             pages[q] == old(pages[q])
      ensures NoNewSlab(old(St().d), St().d)
    {
      if pa == 0 { return; }
      if order > MAX_ORDER { return; }
      if pa < PHYS_MEM_BASE { return; }
      var pfn := (pa - PHYS_MEM_BASE) / PAGE_SIZE;
      if pfn >= totalPages { return; }
      if pages[pfn].reserved { return; }
      if pages[pfn].free { return; }
      GiveBack(pfn, order);
      statUsed := SubtractOrZero(statUsed, Pow2(order));
    }

    method GiveBackLinks(pfn: nat, order: nat)
      requires Shaped(St()) && order <= MAX_ORDER && pfn < pages.Length
      modifies pages, heads, `lists, `use
      ensures St() == GiveF(old(St()), pfn, order)
    {
      pages[pfn] := pages[pfn].(free := true, order := order, refCount := 0);
      ListAdd(order, pfn);
      use := Paint(use, Idx(pfn, order), order, Free(order));
    }

    /** Returns a live block to its list and merges it upward. */
    method GiveBack(pfn: nat, order: nat)
      requires Inv(St()) && pfn < |use| && use[pfn] == Live(order) && IsHead(pfn, order)
      modifies pages, heads, `lists, `use
      ensures Inv(St()) && Released(old(use), use, pfn, order)
      ensures old(Coalesced(use)) ==> Coalesced(use)
      ensures |LiveSet(old(use))| == |LiveSet(use)| + Pow2(order)
      ensures |FreeSet(use)| == |FreeSet(old(use))| + Pow2(order)
      ensures forall q :: 0 <= q < pages.Length && !old(use)[q].Free? && Idx(q, order) != Idx(pfn, order) ==>
        pages[q] == old(pages[q])
      ensures pages[pfn].refCount == 0
      ensures NoNewSlab(old(St().d), St().d)
    {
      ghost var s := St();
      GiveStep(s, pfn, order);
      GiveBackLinks(pfn, order);
      ghost var t := St();
      var _ := Merge(pfn);
      ReleasedThenKinds(s.u, t.u, use, pfn, order);
      GaveUntouched(s, t, St(), pfn, order);
    }
  }
}
