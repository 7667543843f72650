/**
 kmalloc and kfree: slab objects up to a page, blocks of pages above that.
 */
module Slab {
  import opened Basics
  import opened BuddyBlocks
  import opened BuddyLists
  import opened BuddyState
  import opened BuddyRun
  import opened Buddy
  import opened SlabState

  lemma NextMultiple(i: nat, r: nat)
    requires r % ObjSize(i) == 0
    ensures (r + ObjSize(i)) % ObjSize(i) == 0
  {
  }

  /** No free object is on a page that is not a slab page. */
  lemma NotListed(h: Heap, d: seq<PageDesc>, p: nat, i: nat)
    requires HeapOk(h, d) && p !in h.slabs && i < CACHES
    ensures forall a :: a in h.lists[i] ==> Page(a) != p
  {
    assert ListOk(h.slabs, h.live, h.lists[i], i);
  }

  /** No other live pointer starts on the page of a block. */
  lemma OthersElsewhere(h: Heap, d: seq<PageDesc>, a: nat)
    requires HeapOk(h, d) && a in h.live && Page(a) !in h.slabs
    ensures forall b :: b in h.live && b != a ==> Page(b) != Page(a)
  {
    forall b | b in h.live && b != a ensures Page(b) != Page(a) {
      assert LiveAt(h.use, h.slabs, a, h.live[a]) && LiveAt(h.use, h.slabs, b, h.live[b]);
      SplitAddr(a);
      SplitAddr(b);
    }
  }

  lemma LivePage(h: Heap, d: seq<PageDesc>, a: nat)
    requires HeapOk(h, d) && a in h.live
    ensures a >= PHYS_MEM_BASE && Page(a) < |d| && (d[Page(a)].slab <==> Page(a) in h.slabs)
    ensures Page(a) in h.slabs ==> d[Page(a)].cache == h.slabs[Page(a)]
  {
    assert LiveAt(h.use, h.slabs, a, h.live[a]);
  }

  lemma NullNotLive(h: Heap, d: seq<PageDesc>)
    requires HeapOk(h, d)
    ensures 0 !in h.live && h.live - {0} == h.live
  {
    forall a | a in h.live ensures a >= PHYS_MEM_BASE { LivePage(h, d, a); }
  }

  /** No free block has room for an object of this size. */
  ghost predicate NoneFits(u: seq<Use>, size: nat) {
    forall o :: 0 <= o && size <= PAGE_SIZE * Pow2(o) ==> NoBlock(u, o)
  }

  /** The pages a size takes, as a bound on powers of two. */
  lemma PagesFor(size: nat, n: nat)
    ensures (size + PAGE_SIZE - 1) / PAGE_SIZE <= n <==> size <= PAGE_SIZE * n
  {
  }

  /** Whether some free block is big enough is decided by the first order that is. */
  lemma FirstOrder(u: seq<Use>, size: nat, needed: nat, order: nat)
    requires needed == (size + PAGE_SIZE - 1) / PAGE_SIZE && forall k :: 0 <= k < order ==> Pow2(k) < needed
    requires order > MAX_ORDER || needed <= Pow2(order)
    ensures NoneFits(u, size) <==> NoBlock(u, order)
  {
    forall o | 0 <= o && size <= PAGE_SIZE * Pow2(o) ensures o >= order {
      PagesFor(size, Pow2(o));
    }
    if order <= MAX_ORDER {
      PagesFor(size, Pow2(order));
    }
  }

  /** Cache i's list has n more objects in front, all on page p; the other lists are as they were. */
  ghost predicate Stocked(ls: seq<seq<nat>>, ls': seq<seq<nat>>, i: nat, p: nat, n: nat) {
    && |ls'| == |ls| && i < |ls| && |ls'[i]| == n + |ls[i]| && ls'[i][n..] == ls[i]
    && (forall k :: 0 <= k < n ==> Page(ls'[i][k]) == p) && (forall x :: 0 <= x < |ls| && x != i ==> ls'[x] == ls[x])
  }

  lemma StockedMore(ls: seq<seq<nat>>, ls': seq<seq<nat>>, i: nat, p: nat, n: nat, n': nat, a: nat)
    requires Stocked(ls, ls', i, p, n) && Page(a) == p && n' == n + 1
    ensures Stocked(ls, ls'[i := [a] + ls'[i]], i, p, n')
  {
    assert ([a] + ls'[i])[n'..] == ls'[i][n..];
  }

  /** A page stocked for an empty list, and its first object taken. */
  lemma StockedPop(h: Heap, t: Heap, h': Heap, i: nat, p: nat, a: nat)
    requires i < |h.lists| && h.lists[i] == [] && Stocked(h.lists, t.lists, i, p, PerPage(i))
    requires Allocated(h.use, t.use, p, 0) && t.slabs == h.slabs[p := i] && FromList(t, h', i, a)
    ensures FromPage(h, h', i, a)
  {
    assert h'.lists == h.lists[i := h'.lists[i]];
  }

  /** A page holds a whole number of objects of each cache. */
  lemma WholePage(i: nat, n: nat)
    requires i < CACHES && n * ObjSize(i) <= PAGE_SIZE < n * ObjSize(i) + ObjSize(i)
    ensures n == PerPage(i)
  {
    if n < PerPage(i) { MulMono(ObjSize(i), n + 1, PerPage(i)); }
    if n > PerPage(i) { MulMono(ObjSize(i), PerPage(i) + 1, n); }
  }

  class SlabHeap {
    const buddy: BuddyAllocator
    var lists: seq<seq<nat>>
    ghost var slabs: map<nat, nat>
    ghost var live: map<nat, nat>

    ghost function H(): Heap
      reads this, buddy
    {
      Heap(buddy.use, slabs, lists, live)
    }

    ghost predicate Valid()
      reads this, buddy, buddy.pages, buddy.heads
    {
      buddy.Valid() && HeapOk(H(), buddy.pages[..]) && NoneLost(slabs, lists, live)
    }

    constructor (b: BuddyAllocator)
      requires b.Valid() && forall q :: 0 <= q < b.pages.Length ==> !b.pages[q].slab
      ensures Valid() && buddy == b && live == map[]
    {
      buddy := b;
      lists := [[], [], [], [], [], [], [], []];
      slabs, live := map[], map[];
    }

    /** One object of a page onto the free list. */
    method PushSlot(i: nat, pfn: nat, off: nat, ghost next: map<nat, nat>, ghost d: seq<PageDesc>)
      requires HeapOk(Heap(buddy.use, next, lists, live), d) && i < CACHES && pfn in next && next[pfn] == i
      requires off < PAGE_SIZE && off % ObjSize(i) == 0
      requires PfnToPhys(pfn) + off !in live && PfnToPhys(pfn) + off !in lists[i]
      modifies this`lists
      ensures HeapOk(Heap(buddy.use, next, lists, live), d)
      ensures lists == old(lists)[i := [PfnToPhys(pfn) + off] + old(lists)[i]]
    {
      JoinAddr(pfn, off);
      PushKeeps(Heap(buddy.use, next, lists, live), d, i, PfnToPhys(pfn) + off);
      lists := lists[i := [PfnToPhys(pfn) + off] + lists[i]];
    }

    /** Nothing beyond off of page pfn is listed or live yet. */
    ghost predicate Uncarved(i: nat, pfn: nat, off: nat)
      reads this
    {
      i < |lists| && (forall a :: a in lists[i] ==> Page(a) != pfn || Off(a) < off) &&
        (forall a :: a in live ==> Page(a) != pfn)
    }

    /** Carves a page into objects of cache i; the page will be registered with these tables. */
    method CarvePage(i: nat, pfn: nat, ghost next: map<nat, nat>, ghost d: seq<PageDesc>)
      requires HeapOk(Heap(buddy.use, next, lists, live), d) && i < CACHES && pfn in next && next[pfn] == i
      requires Uncarved(i, pfn, 0)
      modifies this`lists
      ensures HeapOk(Heap(buddy.use, next, lists, live), d) && Stocked(old(lists), lists, i, pfn, PerPage(i))
      ensures Carved(lists[i], i, pfn, PAGE_SIZE)
    {
      var size, off := ObjSize(i), 0;
      ghost var n := 0;
      while off + size <= PAGE_SIZE
        invariant off % size == 0 && HeapOk(Heap(buddy.use, next, lists, live), d) && Uncarved(i, pfn, off)
        invariant off == n * size <= PAGE_SIZE && Stocked(old(lists), lists, i, pfn, n)
        invariant Carved(lists[i], i, pfn, off)
        decreases PAGE_SIZE - off
      {
        JoinAddr(pfn, off);
        StockedMore(old(lists), lists, i, pfn, n, n + 1, PfnToPhys(pfn) + off);
        CarvedMore(lists[i], i, pfn, off, off + size, PfnToPhys(pfn) + off);
        PushSlot(i, pfn, off, next, d);
        NextMultiple(i, off);
        assert off + size == (n + 1) * size;
        off, n := off + size, n + 1;
      }
      WholePage(i, n);
    }

    /** A block from the page allocator: no object is on it. */
    method TakeBlock(order: nat) returns (pa: nat, ghost p: nat)
      requires Valid()
      modifies buddy, buddy.pages, buddy.heads
      ensures Valid()
      ensures pa != 0 ==>
        pa == PfnToPhys(p) && p < |buddy.use| && buddy.use[p] == Live(order) && IsHead(p, order) && p !in slabs
      ensures pa != 0 ==> forall a :: a in live ==> Page(a) != p
      ensures pa == 0 <==> NoBlock(old(buddy.use), order)
      ensures pa == 0 ==> buddy.use == old(buddy.use)
      ensures pa != 0 ==> Allocated(old(buddy.use), buddy.use, p, order)
    {
      ghost var h, d := H(), buddy.pages[..];
      pa, p := buddy.AllocPages(order);
      if pa != 0 {
        AllocKeeps(h, d, buddy.use, buddy.pages[..], p, order);
      }
    }

    /** slab_grow: a free page is taken and carved. */
    method Grow(i: nat) returns (ok: bool, ghost p: nat)
      requires Valid() && i < CACHES
      modifies this`lists, this`slabs, buddy, buddy.pages, buddy.heads
      ensures Valid() && (ok <==> !NoBlock(old(buddy.use), 0))
      ensures ok ==> Allocated(old(buddy.use), buddy.use, p, 0) && slabs == old(slabs)[p := i]
      ensures ok ==> Stocked(old(lists), lists, i, p, PerPage(i))
      ensures !ok ==> lists == old(lists) && slabs == old(slabs) && buddy.use == old(buddy.use)
    {
      var pa;
      pa, p := TakeBlock(0);
      if pa == 0 { return false, p; }
      AddSlab(i, pa, p);
      ok := true;
    }

    /** The page at pa becomes a slab page of cache i. */
    method AddSlab(i: nat, pa: nat, ghost p: nat)
      requires Valid() && i < CACHES && pa == PfnToPhys(p) && p < |buddy.use| && buddy.use[p] == Live(0) && p !in slabs
      requires forall a :: a in live ==> Page(a) != p
      modifies this`lists, this`slabs, buddy.pages
      ensures Valid() && slabs == old(slabs)[p := i] && Stocked(old(lists), lists, i, p, PerPage(i))
    {
      ghost var h := H();
      ghost var d := buddy.pages[..];
      ghost var next, d' := slabs[p := i], d[p := d[p].(slab := true, cache := i)];
      SlabKeeps(H(), d, d', p, i);
      NotListed(H(), d, p, i);
      JoinAddr(p, 0);
      CarvePage(i, Page(pa), next, d');
      CarvedAll(h, lists, i, p);
      buddy.MarkSlab(Page(pa), i);
      slabs := next;
    }

    /** Takes the first object of a list. */
    method Pop(i: nat, size: nat) returns (ptr: nat)
      requires Valid() && i < CACHES && |lists| == CACHES && lists[i] != [] && 0 < size <= ObjSize(i)
      modifies this`lists, this`live
      ensures Valid() && ptr != 0 && ptr !in old(live) && live == old(live)[ptr := size]
      ensures ptr == old(lists)[i][0] && lists == old(lists)[i := old(lists)[i][1..]]
    {
      PopLosesNone(H(), i, size);
      PopKeeps(H(), buddy.pages[..], i, size);
      ptr := lists[i][0];
      lists := lists[i := lists[i][1..]];
      live := live[ptr := size];
    }

    /** The list of cache i was empty: stock it first. */
    method AllocStocked(i: nat, size: nat) returns (ptr: nat)
      requires Valid() && i < CACHES && |lists| == CACHES && lists[i] == [] && 0 < size <= ObjSize(i)
      modifies this`lists, this`slabs, this`live, buddy, buddy.pages, buddy.heads
      ensures Valid() && (ptr == 0 <==> NoBlock(old(buddy.use), 0))
      ensures if ptr == 0 then H() == old(H())
        else FromPage(old(H()), H(), i, ptr) && ptr !in old(live) && live == old(live)[ptr := size]
    {
      ghost var h := H();
      var ok;
      ghost var p;
      ok, p := Grow(i);
      if !ok { return 0; }
      ghost var t := H();
      ptr := Pop(i, size);
      StockedPop(h, t, H(), i, p, ptr);
    }

    /** kmalloc up to a page. */
    method AllocSmall(size: nat) returns (ptr: nat)
      requires Valid() && 0 < size <= PAGE_SIZE
      modifies this`lists, this`slabs, this`live, buddy, buddy.pages, buddy.heads
      ensures Valid() && |old(lists)| == CACHES
      ensures ptr == 0 <==> old(lists)[SizeIndex(size)] == [] && NoBlock(old(buddy.use), 0)
      ensures if ptr == 0 then H() == old(H()) else ptr !in old(live) && live == old(live)[ptr := size]
      ensures ptr != 0 ==>
        FromList(old(H()), H(), SizeIndex(size), ptr) || FromPage(old(H()), H(), SizeIndex(size), ptr)
    {
      var i := SizeIndex(size);
      if lists[i] == [] {
        ptr := AllocStocked(i, size);
      } else {
        ptr := Pop(i, size);
      }
    }

    /** The smallest order with enough pages, MAX_ORDER + 1 if there is none. */
    method OrderFor(size: nat, ghost u: seq<Use>) returns (order: nat)
      ensures order <= MAX_ORDER + 1 && (order <= MAX_ORDER ==> size <= PAGE_SIZE * Pow2(order))
      ensures NoneFits(u, size) <==> NoBlock(u, order)
      ensures forall k :: 0 <= k < order ==> PAGE_SIZE * Pow2(k) < size
    {
      var needed := (size + PAGE_SIZE - 1) / PAGE_SIZE;
      order := 0;
      while Pow2(order) < needed && order <= MAX_ORDER
        invariant order <= MAX_ORDER + 1 && forall k :: 0 <= k < order ==> Pow2(k) < needed
      {
        order := order + 1;
      }
      FirstOrder(u, size, needed, order);
      if order <= MAX_ORDER { PagesFor(size, Pow2(order)); }
    }

    /** kmalloc above a page. */
    method AllocBig(size: nat) returns (ptr: nat)
      requires Valid() && size > PAGE_SIZE
      modifies this`live, buddy, buddy.pages, buddy.heads
      ensures Valid() && (if ptr == 0 then live == old(live) else ptr !in old(live) && live == old(live)[ptr := size])
      ensures ptr == 0 <==> NoneFits(old(buddy.use), size)
      ensures if ptr == 0 then H() == old(H()) else FromBlock(old(H()), H(), size, ptr)
    {
      var order := OrderFor(size, buddy.use);
      if order > MAX_ORDER { return 0; }
      ghost var p;
      ptr, p := TakeBlock(order);
      if ptr != 0 {
        JoinAddr(p, 0);
        BigLive(H(), buddy.pages[..], p, size);
        live := live[ptr := size];
      }
    }

    method Kmalloc(size: nat) returns (ptr: nat)
      requires Valid()
      modifies this`lists, this`slabs, this`live, buddy, buddy.pages, buddy.heads
      ensures Valid() && |old(lists)| == CACHES
      ensures size == 0 ==> ptr == 0
      ensures 0 < size <= PAGE_SIZE ==> (ptr == 0 <==> old(lists)[SizeIndex(size)] == [] && NoBlock(old(buddy.use), 0))
      ensures size > PAGE_SIZE ==> (ptr == 0 <==> NoneFits(old(buddy.use), size))
      ensures if ptr == 0 then live == old(live) else ptr !in old(live) && live == old(live)[ptr := size]
      ensures ptr == 0 ==> H() == old(H())
      ensures ptr != 0 && size <= PAGE_SIZE ==>
        FromList(old(H()), H(), SizeIndex(size), ptr) || FromPage(old(H()), H(), SizeIndex(size), ptr)
      ensures ptr != 0 && size > PAGE_SIZE ==> FromBlock(old(H()), H(), size, ptr)
    {
      if size == 0 { return 0; }
      if size <= PAGE_SIZE {
        ptr := AllocSmall(size);
      } else {
        ptr := AllocBig(size);
      }
    }

    /** kfree of a slab object: back to the list of the cache its page names. */
    method FreeSmall(ptr: nat, i: nat)
      requires Valid() && ptr in live && Page(ptr) in slabs && i == slabs[Page(ptr)]
      modifies this`lists, this`live
      ensures Valid() && live == old(live) - {ptr} && |lists| == CACHES && i < CACHES
      ensures lists == old(lists)[i := [ptr] + old(lists)[i]]
    {
      ghost var d := buddy.pages[..];
      assert LiveAt(buddy.use, slabs, ptr, live[ptr]);
      assert ListOk(slabs, live, lists[i], i);
      PushLosesNone(H(), ptr, i);
      DropKeeps(H(), d, ptr);
      live := live - {ptr};
      PushKeeps(H(), d, i, ptr);
      lists := lists[i := [ptr] + lists[i]];
    }

    /** free_pages with the order in the descriptor, which is the order of the block. */
    method ReturnBlock(ptr: nat, p: nat, ghost o: nat)
      requires buddy.Valid() && ptr == PfnToPhys(p) && p < |buddy.use| && buddy.use[p] == Live(o) && IsHead(p, o)
      modifies buddy, buddy.pages, buddy.heads
      ensures buddy.Valid() && Released(old(buddy.use), buddy.use, p, o)
      ensures NoNewSlab(old(buddy.pages[..]), buddy.pages[..])
      ensures forall q :: 0 <= q < buddy.pages.Length && !old(buddy.use)[q].Free? && Idx(q, o) != Idx(p, o) ==>
        buddy.pages[q] == old(buddy.pages[q])
    {
      JoinAddr(p, 0);
      assert DescOk(buddy.pages[..][p], buddy.use[p], p);
      assert Whole(buddy.use, Idx(p, o), buddy.use[p]);
      buddy.FreePages(ptr, buddy.pages[p].order);
    }

    /** kfree of a block: the order is the one in the descriptor. */
    method FreeBig(ptr: nat)
      requires Valid() && ptr in live && Page(ptr) !in slabs
      modifies this`live, buddy, buddy.pages, buddy.heads
      ensures Valid() && live == old(live) - {ptr} && slabs == old(slabs)
      ensures Released(old(buddy.use), buddy.use, Page(ptr), old(buddy.use)[Page(ptr)].order)
    {
      ghost var d, o := buddy.pages[..], buddy.use[Page(ptr)].order;
      assert LiveAt(buddy.use, slabs, ptr, live[ptr]);
      SplitAddr(ptr);
      OthersElsewhere(H(), d, ptr);
      DropKeeps(H(), d, ptr);
      live := live - {ptr};
      ghost var h := H();
      ReturnBlock(ptr, Page(ptr), o);
      ReleaseKeeps(h, d, buddy.use, buddy.pages[..], Page(ptr), o);
    }

    /** A slab object goes to the front of its cache's list, a block back to the page allocator, whole. */
    method Kfree(ptr: nat)
      requires Valid() && (ptr == 0 || ptr in live)
      modifies this`lists, this`live, buddy, buddy.pages, buddy.heads
      ensures Valid() && live == old(live) - {ptr}
      ensures ptr == 0 ==> lists == old(lists) && buddy.use == old(buddy.use)
      ensures ptr != 0 && Page(ptr) in slabs ==> buddy.use == old(buddy.use)
      ensures ptr != 0 && Page(ptr) in slabs ==> var i := slabs[Page(ptr)];
        |old(lists)| == CACHES && i < CACHES && lists == old(lists)[i := [ptr] + old(lists)[i]]
      ensures ptr != 0 && Page(ptr) !in slabs ==> lists == old(lists)
      ensures ptr != 0 && Page(ptr) !in slabs ==>
        Released(old(buddy.use), buddy.use, Page(ptr), old(buddy.use)[Page(ptr)].order)
    {
      if ptr == 0 { NullNotLive(H(), buddy.pages[..]); return; }
      LivePage(H(), buddy.pages[..], ptr);
      if buddy.pages[Page(ptr)].slab {
        FreeSmall(ptr, buddy.pages[Page(ptr)].cache);
      } else {
        FreeBig(ptr);
      }
    }
  }
}
