/**
 The slab heap over the buddy allocator: which byte belongs to which object.
 */
module SlabState {
  import opened Basics
  import opened BuddyBlocks
  import opened BuddyLists
  import opened BuddyState
  import opened BuddyRun

  const CACHES: nat := 8

  /** slab_index_to_size. */
  function ObjSize(i: nat): (s: nat)
    ensures 32 <= s <= PAGE_SIZE && PAGE_SIZE % s == 0 && s % 8 == 0
  {
    if i == 0 then 32 else if i == 1 then 64 else if i == 2 then 128 else if i == 3 then 256
    else if i == 4 then 512 else if i == 5 then 1024 else if i == 6 then 2048 else 4096
  }

  /** slab_size_to_index: the smallest cache whose objects are big enough. */
  function SizeIndex(size: nat): (i: nat)
    ensures i < CACHES
    ensures size <= PAGE_SIZE ==> size <= ObjSize(i) && forall j :: 0 <= j < i ==> ObjSize(j) < size
  {
    if size <= 32 then 0 else if size <= 64 then 1 else if size <= 128 then 2 else if size <= 256 then 3
    else if size <= 512 then 4 else if size <= 1024 then 5 else if size <= 2048 then 6 else 7
  }

  /** How many objects a page of cache i holds. */
  function PerPage(i: nat): (n: nat)
    ensures n > 0 && (i < CACHES ==> n * ObjSize(i) == PAGE_SIZE)
  {
    if i == 0 then 128 else if i == 1 then 64 else if i == 2 then 32 else if i == 3 then 16
    else if i == 4 then 8 else if i == 5 then 4 else if i == 6 then 2 else 1
  }

  function Page(a: nat): nat {
    if a < PHYS_MEM_BASE then 0 else (a - PHYS_MEM_BASE) / PAGE_SIZE
  }

  function Off(a: nat): nat {
    if a < PHYS_MEM_BASE then 0 else (a - PHYS_MEM_BASE) % PAGE_SIZE
  }

  lemma SplitAddr(a: nat)
    requires a >= PHYS_MEM_BASE
    ensures a == PfnToPhys(Page(a)) + Off(a) && Off(a) < PAGE_SIZE
  {
  }

  lemma JoinAddr(p: nat, r: nat)
    requires r < PAGE_SIZE
    ensures Page(PfnToPhys(p) + r) == p && Off(PfnToPhys(p) + r) == r
  {
  }

  /** Page labels, slab pages with their cache, the caches' free lists, and live pointers with the
      size asked for. */
  datatype Heap = Heap(use: seq<Use>, slabs: map<nat, nat>, lists: seq<seq<nat>>, live: map<nat, nat>)

  /** a is the address of an object in a slab page. */
  predicate IsSlot(slabs: map<nat, nat>, a: nat) {
    a >= PHYS_MEM_BASE && Page(a) in slabs && Off(a) % ObjSize(slabs[Page(a)]) == 0
  }

  /** a is the first byte of a block of pages that is not a slab page. */
  ghost predicate IsBig(use: seq<Use>, slabs: map<nat, nat>, a: nat) {
    && a >= PHYS_MEM_BASE && Off(a) == 0 && Page(a) !in slabs && Page(a) < |use|
    && use[Page(a)].Live? && IsHead(Page(a), use[Page(a)].order)
  }

  ghost predicate SlabsOk(use: seq<Use>, slabs: map<nat, nat>, d: seq<PageDesc>) {
    && |d| == |use|
    && (forall p ::
      p in slabs ==> p < |use| && use[p] == Live(0) && slabs[p] < CACHES && d[p].slab && d[p].cache == slabs[p])
    && (forall p :: 0 <= p < |d| && d[p].slab ==> p in slabs)
  }

  /** A free list holds objects of its own cache, each once, and none that is live. */
  ghost predicate ListOk(slabs: map<nat, nat>, live: map<nat, nat>, l: seq<nat>, i: nat) {
    && NoRepeats(l) && forall a :: a in l ==> IsSlot(slabs, a) && slabs[Page(a)] == i && a !in live
  }

  ghost predicate ListsOk(h: Heap) {
    |h.lists| == CACHES && forall i :: 0 <= i < CACHES ==> ListOk(h.slabs, h.live, h.lists[i], i)
  }

  /** The object at a has room for size bytes. */
  ghost predicate LiveAt(use: seq<Use>, slabs: map<nat, nat>, a: nat, size: nat) {
    if Page(a) in slabs then IsSlot(slabs, a) && size <= ObjSize(slabs[Page(a)])
    else IsBig(use, slabs, a) && size <= PAGE_SIZE * Pow2(use[Page(a)].order)
  }

  ghost predicate LiveOk(use: seq<Use>, slabs: map<nat, nat>, live: map<nat, nat>) {
    forall a :: a in live ==> live[a] > 0 && LiveAt(use, slabs, a, live[a])
  }

  ghost predicate HeapOk(h: Heap, d: seq<PageDesc>) {
    Partitioned(h.use) && SlabsOk(h.use, h.slabs, d) && ListsOk(h) && LiveOk(h.use, h.slabs, h.live)
  }

  // ---------- Which bytes an object owns ----------

  predicate SameBlock(p: nat, q: nat, o: nat) {
    Idx(p, o) == Idx(q, o)
  }

  /** Byte x belongs to the object or block at a. */
  ghost predicate Covers(use: seq<Use>, slabs: map<nat, nat>, a: nat, x: nat) {
    && x >= PHYS_MEM_BASE
    && if Page(a) in slabs then Page(x) == Page(a) && Off(a) <= Off(x) < Off(a) + ObjSize(slabs[Page(a)])
       else Page(a) < |use| && use[Page(a)].Live? && SameBlock(Page(x), Page(a), use[Page(a)].order)
  }

  lemma SameSlot(s: nat, a: nat, b: nat, x: nat)
    requires s > 0 && a % s == 0 && b % s == 0 && a <= x < a + s && b <= x < b + s
    ensures a == b
  {
    var i, j := a / s, b / s;
    assert a == s * i && b == s * j;
    if i < j { MulMono(s, i + 1, j); }
    if j < i { MulMono(s, j + 1, i); }
  }

  ghost predicate IsObject(h: Heap, a: nat) {
    IsSlot(h.slabs, a) || IsBig(h.use, h.slabs, a)
  }

  /** No byte belongs to two objects. */
  lemma OneOwner(h: Heap, d: seq<PageDesc>, a: nat, b: nat, x: nat)
    requires HeapOk(h, d) && IsObject(h, a) && IsObject(h, b) && Covers(h.use, h.slabs, a, x)
    requires Covers(h.use, h.slabs, b, x)
    ensures a == b
  {
    SplitAddr(a);
    SplitAddr(b);
    if Page(a) in h.slabs && Page(b) in h.slabs {
      SameSlot(ObjSize(h.slabs[Page(a)]), Off(a), Off(b), Off(x));
    } else if Page(a) in h.slabs {
      SlabNotBlock(h, d, a, b, x);
    } else if Page(b) in h.slabs {
      SlabNotBlock(h, d, b, a, x);
    } else {
      BlockPages(h.use, Page(a), Page(x));
      BlockPages(h.use, Page(b), Page(x));
    }
  }

  /** Every page of a block carries the label of its head. */
  lemma BlockPages(u: seq<Use>, p: nat, q: nat)
    requires Partitioned(u) && p < |u| && u[p].Live? && Idx(q, u[p].order) == Idx(p, u[p].order)
    ensures q < |u| && u[q] == u[p]
  {
    assert Whole(u, Idx(p, u[p].order), u[p]);
  }

  /** A byte of a slab page is not a byte of another block. */
  lemma SlabNotBlock(h: Heap, d: seq<PageDesc>, a: nat, b: nat, x: nat)
    requires HeapOk(h, d) && Page(a) in h.slabs && IsBig(h.use, h.slabs, b) && Covers(h.use, h.slabs, a, x)
    ensures !Covers(h.use, h.slabs, b, x)
  {
    if Covers(h.use, h.slabs, b, x) {
      BlockPages(h.use, Page(b), Page(x));
    }
  }

  /** No byte of an object lies in a free page. */
  lemma NotInFreePages(h: Heap, d: seq<PageDesc>, a: nat, x: nat)
    requires HeapOk(h, d) && IsObject(h, a) && Covers(h.use, h.slabs, a, x)
    ensures Page(x) < |h.use| && h.use[Page(x)].Live?
  {
    if Page(a) !in h.slabs { BlockPages(h.use, Page(a), Page(x)); }
  }

  /** A live pointer has at least the bytes asked for. */
  lemma BigEnough(h: Heap, d: seq<PageDesc>, a: nat, x: nat)
    requires HeapOk(h, d) && a in h.live && a <= x < a + h.live[a]
    ensures Covers(h.use, h.slabs, a, x)
  {
    if Page(a) in h.slabs {
      SlotRoom(Off(a), ObjSize(h.slabs[Page(a)]));
      SplitAddr(a);
      JoinAddr(Page(a), Off(a) + (x - a));
    } else {
      var p, o := Page(a), h.use[Page(a)].order;
      SplitAddr(a);
      PageWithin(a, x, Pow2(o));
      HeadStep(Idx(p, o), o);
      BlockRange(Page(x), Idx(p, o), o);
    }
  }

  lemma SlotRoom(r: nat, s: nat)
    requires r < PAGE_SIZE && s > 0 && r % s == 0 && PAGE_SIZE % s == 0
    ensures r + s <= PAGE_SIZE
  {
    var i, n := r / s, PAGE_SIZE / s;
    assert r == s * i && PAGE_SIZE == s * n;
    if i >= n { MulMono(s, n, i); } else { MulMono(s, i + 1, n); }
  }

  lemma PageWithin(a: nat, x: nat, n: nat)
    requires a >= PHYS_MEM_BASE && Off(a) == 0 && a <= x < a + PAGE_SIZE * n
    ensures Page(a) <= Page(x) < Page(a) + n
  {
  }

  // ---------- No object is lost ----------

  /** Every object of every slab page is live or on the list of its cache. */
  ghost predicate NoneLost(slabs: map<nat, nat>, lists: seq<seq<nat>>, live: map<nat, nat>) {
    |lists| == CACHES && forall a ::
      IsSlot(slabs, a) && slabs[Page(a)] < CACHES ==> a in live || a in lists[slabs[Page(a)]]
  }

  /** The objects of page p below byte off are on list l. */
  ghost predicate Carved(l: seq<nat>, i: nat, p: nat, off: nat) {
    forall a: nat :: a >= PHYS_MEM_BASE && Page(a) == p && Off(a) % ObjSize(i) == 0 && Off(a) < off ==> a in l
  }

  lemma CarvedMore(l: seq<nat>, i: nat, p: nat, off: nat, off': nat, a: nat)
    requires Carved(l, i, p, off) && off % ObjSize(i) == 0 && off' == off + ObjSize(i) && a == PfnToPhys(p) + off
    ensures Carved([a] + l, i, p, off')
  {
    forall b: nat | b >= PHYS_MEM_BASE && Page(b) == p && Off(b) % ObjSize(i) == 0 && Off(b) < off'
      ensures b in [a] + l {
      if Off(b) >= off {
        SameSlot(ObjSize(i), off, Off(b), Off(b));
        SplitAddr(b);
      }
    }
  }

  lemma CarvedAll(h: Heap, lists': seq<seq<nat>>, i: nat, p: nat)
    requires NoneLost(h.slabs, h.lists, h.live) && i < CACHES && |lists'| == CACHES && p !in h.slabs
    requires Carved(lists'[i], i, p, PAGE_SIZE) && forall j, a :: 0 <= j < CACHES && a in h.lists[j] ==> a in lists'[j]
    ensures NoneLost(h.slabs[p := i], lists', h.live)
  {
  }

  lemma PopLosesNone(h: Heap, i: nat, size: nat)
    requires NoneLost(h.slabs, h.lists, h.live) && i < CACHES && h.lists[i] != []
    ensures NoneLost(h.slabs, h.lists[i := h.lists[i][1..]], h.live[h.lists[i][0] := size])
  {
    var l := h.lists[i];
    assert l == [l[0]] + l[1..];
  }

  lemma PushLosesNone(h: Heap, a: nat, i: nat)
    requires NoneLost(h.slabs, h.lists, h.live) && i < CACHES && IsSlot(h.slabs, a) && h.slabs[Page(a)] == i
    ensures NoneLost(h.slabs, h.lists[i := [a] + h.lists[i]], h.live - {a})
  {
  }

  // ---------- Where an object comes from ----------

  /** The first object of the list of cache i; nothing else changes. */
  ghost predicate FromList(h: Heap, h': Heap, i: nat, a: nat) {
    && i < |h.lists| && h.lists[i] != [] && a == h.lists[i][0] && h'.lists == h.lists[i := h.lists[i][1..]]
    && h'.slabs == h.slabs && h'.use == h.use
  }

  /** An object of one page that was free; the list of cache i was empty and holds the others now. */
  ghost predicate FromPage(h: Heap, h': Heap, i: nat, a: nat) {
    && i < |h.lists| == |h'.lists| && h.lists[i] == [] && Allocated(h.use, h'.use, Page(a), 0)
    && h'.slabs == h.slabs[Page(a) := i] && h'.lists == h.lists[i := h'.lists[i]] && |h'.lists[i]| + 1 == PerPage(i)
  }

  /** A block of the smallest order that holds size bytes. */
  ghost predicate FromBlock(h: Heap, h': Heap, size: nat, a: nat) {
    && h'.lists == h.lists && h'.slabs == h.slabs && Page(a) < |h'.use| && h'.use[Page(a)].Live?
    && var o := h'.use[Page(a)].order;
       Allocated(h.use, h'.use, Page(a), o) && size <= PAGE_SIZE * Pow2(o) &&
         forall k :: 0 <= k < o ==> PAGE_SIZE * Pow2(k) < size
  }

  // ---------- Steps ----------

  /** Descriptors of pages that were not free are as they were, and no slab flag is new. */
  ghost predicate DescsKept(u: seq<Use>, d: seq<PageDesc>, d': seq<PageDesc>) {
    |d'| == |d| == |u| && (forall q :: 0 <= q < |u| && !u[q].Free? ==> d'[q] == d[q]) && NoNewSlab(d, d')
  }

  /** The page allocator hands out a block: no object is on it. */
  lemma AllocKeeps(h: Heap, d: seq<PageDesc>, use': seq<Use>, d': seq<PageDesc>, p: nat, o: nat)
    requires HeapOk(h, d) && Partitioned(use') && Allocated(h.use, use', p, o) && DescsKept(h.use, d, d')
    ensures HeapOk(h.(use := use'), d') && p !in h.slabs && forall a :: a in h.live ==> Page(a) != p
  {
    assert h.use[p].Free?;
    forall a | a in h.live ensures LiveAt(use', h.slabs, a, h.live[a]) && Page(a) != p {
      assert LiveAt(h.use, h.slabs, a, h.live[a]);
    }
  }

  /** A block of pages becomes a live object. */
  lemma BigLive(h: Heap, d: seq<PageDesc>, p: nat, size: nat)
    requires HeapOk(h, d) && p < |h.use| && h.use[p].Live? && IsHead(p, h.use[p].order) && p !in h.slabs
    requires 0 < size <= PAGE_SIZE * Pow2(h.use[p].order)
    ensures HeapOk(h.(live := h.live[PfnToPhys(p) := size]), d)
  {
    JoinAddr(p, 0);
    var a, live' := PfnToPhys(p), h.live[PfnToPhys(p) := size];
    forall i | 0 <= i < CACHES ensures ListOk(h.slabs, live', h.lists[i], i) {
      assert ListOk(h.slabs, h.live, h.lists[i], i);
    }
  }

  /** A page becomes a slab page. */
  lemma SlabKeeps(h: Heap, d: seq<PageDesc>, d': seq<PageDesc>, p: nat, i: nat)
    requires HeapOk(h, d) && p < |h.use| && h.use[p] == Live(0) && p !in h.slabs && i < CACHES
    requires (forall a :: a in h.live ==> Page(a) != p)
    requires d' == d[p := d[p].(slab := true, cache := i)]
    ensures HeapOk(h.(slabs := h.slabs[p := i]), d')
  {
    var slabs' := h.slabs[p := i];
    forall j | 0 <= j < CACHES ensures ListOk(slabs', h.live, h.lists[j], j) {
      assert ListOk(h.slabs, h.live, h.lists[j], j);
    }
    forall a | a in h.live ensures LiveAt(h.use, slabs', a, h.live[a]) {
      assert LiveAt(h.use, h.slabs, a, h.live[a]);
    }
  }

  /** An object goes onto the free list of its cache. */
  lemma PushKeeps(h: Heap, d: seq<PageDesc>, i: nat, a: nat)
    requires HeapOk(h, d) && i < CACHES && IsSlot(h.slabs, a) && h.slabs[Page(a)] == i && a !in h.live
    requires a !in h.lists[i]
    ensures HeapOk(h.(lists := h.lists[i := [a] + h.lists[i]]), d)
  {
    assert ListOk(h.slabs, h.live, h.lists[i], i);
    var l := [a] + h.lists[i];
    assert ListOk(h.slabs, h.live, l, i);
  }

  /** The first object of a free list becomes live. */
  lemma PopKeeps(h: Heap, d: seq<PageDesc>, i: nat, size: nat)
    requires HeapOk(h, d) && i < CACHES && h.lists[i] != [] && 0 < size <= ObjSize(i)
    ensures h.lists[i][0] >= PHYS_MEM_BASE && h.lists[i][0] !in h.live
    ensures HeapOk(h.(lists := h.lists[i := h.lists[i][1..]], live := h.live[h.lists[i][0] := size]), d)
  {
    var a, l := h.lists[i][0], h.lists[i][1..];
    assert ListOk(h.slabs, h.live, h.lists[i], i);
    assert a in h.lists[i];
    var live' := h.live[a := size];
    assert ListOk(h.slabs, live', l, i) by {
      forall b | b in l ensures b != a { var k :| 0 <= k < |l| && l[k] == b; assert h.lists[i][k + 1] == b; }
      forall b | b in l ensures b in h.lists[i] { }
    }
    forall j | 0 <= j < CACHES && j != i ensures ListOk(h.slabs, live', h.lists[j], j) {
      assert ListOk(h.slabs, h.live, h.lists[j], j);
    }
  }

  /** A live object is dropped. */
  lemma DropKeeps(h: Heap, d: seq<PageDesc>, a: nat)
    requires HeapOk(h, d)
    ensures HeapOk(h.(live := h.live - {a}), d)
  {
    forall j | 0 <= j < CACHES ensures ListOk(h.slabs, h.live - {a}, h.lists[j], j) {
      assert ListOk(h.slabs, h.live, h.lists[j], j);
    }
  }

  /** A block that holds no object goes back to the page allocator. */
  lemma ReleaseKeeps(h: Heap, d: seq<PageDesc>, use': seq<Use>, d': seq<PageDesc>, p: nat, o: nat)
    requires HeapOk(h, d) && Partitioned(use') && Released(h.use, use', p, o) && IsHead(p, o) && p !in h.slabs
    requires NoNewSlab(d, d') && |d| == |h.use|
    requires h.use[p] == Live(o)
    requires (forall q :: 0 <= q < |d| && !h.use[q].Free? && Idx(q, o) != Idx(p, o) ==> d'[q] == d[q])
    requires forall a :: a in h.live ==> Page(a) != p
    ensures HeapOk(h.(use := use'), d')
  {
    assert Whole(h.use, Idx(p, o), h.use[p]);
    forall q | q in h.slabs ensures q < |h.use| && Idx(q, o) != Idx(p, o) {
    }
    forall a | a in h.live ensures LiveAt(use', h.slabs, a, h.live[a]) {
      assert LiveAt(h.use, h.slabs, a, h.live[a]);
      assert Page(a) !in h.slabs ==> Idx(Page(a), o) != Idx(p, o);
    }
  }
}
