/**
 Copy-on-write over the flat map: leaf entries, reference counts and page contents.
 Each step is total and follows the order of the kernel's own updates.
 */
module CowState {
  import opened Basics
  import opened PageWalk
  import opened PageFlat

  type Page = p: seq<bv8> | |p| == 4096 witness seq(4096, _ => 0)

  function ZeroPage(): Page {
    seq(4096, _ => 0)
  }

  /** Managed frames are those with a count; those in use as user pages have contents. */
  datatype Cow = Cow(leaf: Leaves, ref: map<nat, nat>, data: map<nat, Page>)

  /** Who names frame x. */
  ghost function Refs(leaf: Leaves, x: nat): set<Key> {
    set k | k in leaf && leaf[k].frame == x
  }

  /** Every leaf names a page in use, and every page in use counts at least its leaves. */
  ghost predicate Counted(c: Cow) {
    && (forall k :: k in c.leaf ==> c.leaf[k].present && c.leaf[k].frame in c.data)
    && (forall x :: x in c.data ==> x in c.ref && c.ref[x] >= 1 && c.ref[x] >= |Refs(c.leaf, x)|)
  }

  /** A writable page has one leaf. */
  ghost predicate Sole(leaf: Leaves) {
    forall k :: k in leaf && leaf[k].rw ==> Refs(leaf, leaf[k].frame) == {k}
  }

  /** What an address space reads at a page; pages not mapped read as zero on first touch. */
  ghost function View(c: Cow, k: Key): Page {
    if k in c.leaf && c.leaf[k].frame in c.data then c.data[c.leaf[k].frame] else ZeroPage()
  }

  // ---------- Counts ----------

  /** One reference to x less; the frame goes back to the pool with the last one. */
  function Release(c: Cow, x: nat): Cow {
    if x !in c.ref || c.ref[x] == 0 then c
    else c.(ref := c.ref[x := c.ref[x] - 1], data := if c.ref[x] == 1 then c.data - {x} else c.data)
  }

  function Retain(c: Cow, x: nat): Cow {
    if x in c.ref then c.(ref := c.ref[x := c.ref[x] + 1]) else c
  }

  lemma RefsPut(leaf: Leaves, k: Key, e: Pte, x: nat)
    ensures Refs(leaf[k := e], x) == if e.frame == x then Refs(leaf, x) + {k} else Refs(leaf, x) - {k}
    ensures Refs(leaf - {k}, x) == Refs(leaf, x) - {k}
  {
  }

  lemma CountPut(leaf: Leaves, k: Key, e: Pte, x: nat)
    ensures |Refs(leaf[k := e], x)| ==
      |Refs(leaf, x)| + (if e.frame == x then 1 else 0) - (if k in Refs(leaf, x) then 1 else 0)
    ensures |Refs(leaf - {k}, x)| == |Refs(leaf, x)| - (if k in Refs(leaf, x) then 1 else 0)
  {
    RefsPut(leaf, k, e, x);
  }

  /** A page whose count is 1 and that has a leaf k has no other leaf. */
  lemma LastRef(c: Cow, k: Key)
    requires Counted(c) && k in c.leaf && c.ref[c.leaf[k].frame] == 1
    ensures Refs(c.leaf, c.leaf[k].frame) == {k}
  {
    var R := Refs(c.leaf, c.leaf[k].frame);
    forall j | j in R ensures j == k {
      if j != k { SmallerSet({j, k}, R); }
    }
  }

  // ---------- Mapping a page ----------

  function Forget(c: Cow, k: Key): Cow {
    if k in c.leaf then Release(c, c.leaf[k].frame) else c
  }

  function MapStep(c: Cow, k: Key, e: Pte): Cow {
    var c1 := Forget(c, k);
    Retain(c1.(leaf := c1.leaf[k := e]), e.frame)
  }

  /** Mapping over the last reference to the very frame being mapped is the one case that fails. */
  predicate Rebinds(c: Cow, k: Key, x: nat) {
    k in c.leaf && c.leaf[k].frame == x && x in c.ref && c.ref[x] == 1
  }

  lemma MapCounts(c: Cow, k: Key, e: Pte, x: nat)
    requires Counted(c) && e.present && e.frame in c.data && !Rebinds(c, k, e.frame) && x in MapStep(c, k, e).data
    ensures var c' := MapStep(c, k, e); x in c'.ref && c'.ref[x] >= 1 && c'.ref[x] >= |Refs(c'.leaf, x)|
  {
    CountPut(c.leaf, k, e, x);
  }

  lemma MapBacked(c: Cow, k: Key, e: Pte, j: Key)
    requires Counted(c) && e.present && e.frame in c.data && !Rebinds(c, k, e.frame) && j in MapStep(c, k, e).leaf
    ensures var c' := MapStep(c, k, e); c'.leaf[j].present && c'.leaf[j].frame in c'.data
  {
    if k in c.leaf && c.ref[c.leaf[k].frame] == 1 {
      LastRef(c, k);
      assert j in Refs(c.leaf, c.leaf[k].frame) ==> j == k;
    }
  }

  lemma MapCounted(c: Cow, k: Key, e: Pte)
    requires Counted(c) && e.present && e.frame in c.data
    ensures Counted(MapStep(c, k, e)) <==> !Rebinds(c, k, e.frame)
  {
    var c' := MapStep(c, k, e);
    if Rebinds(c, k, e.frame) {
      assert k in c'.leaf && e.frame !in c'.data;
    } else {
      forall x | x in c'.data ensures x in c'.ref && c'.ref[x] >= 1 && c'.ref[x] >= |Refs(c'.leaf, x)| {
        MapCounts(c, k, e, x);
      }
      forall j | j in c'.leaf ensures c'.leaf[j].present && c'.leaf[j].frame in c'.data { MapBacked(c, k, e, j); }
    }
  }

  /** The failing case, on one page mapped once: the frame is mapped and back in the pool. */
  lemma RebindExample(e: Pte, k: Key)
    requires e.present
    ensures var c := Cow(map[k := e], map[e.frame := 1], map[e.frame := ZeroPage()]);
      Counted(c) && k in MapStep(c, k, e).leaf && MapStep(c, k, e).leaf[k].frame == e.frame &&
        e.frame !in MapStep(c, k, e).data
  {
    var c := Cow(map[k := e], map[e.frame := 1], map[e.frame := ZeroPage()]);
    assert Refs(c.leaf, e.frame) == {k};
    forall x | x in c.data ensures c.ref[x] >= |Refs(c.leaf, x)| { assert x == e.frame; }
  }

  lemma MapView(c: Cow, k: Key, e: Pte, j: Key)
    requires Counted(c) && e.present && e.frame in c.data && !Rebinds(c, k, e.frame)
    ensures View(MapStep(c, k, e), j) == if j == k then c.data[e.frame] else View(c, j)
  {
    if k in c.leaf && c.ref[c.leaf[k].frame] == 1 {
      LastRef(c, k);
      assert j in Refs(c.leaf, c.leaf[k].frame) ==> j == k;
    }
  }

  lemma PutSole(leaf: Leaves, k: Key, e: Pte)
    requires Sole(leaf)
    requires (Refs(leaf, e.frame) <= {k} || (!e.rw && forall j :: j in Refs(leaf, e.frame) ==> !leaf[j].rw))
    ensures Sole(leaf[k := e])
  {
    var leaf' := leaf[k := e];
    forall j | j in leaf' && leaf'[j].rw ensures Refs(leaf', leaf'[j].frame) == {j} {
      RefsPut(leaf, k, e, leaf'[j].frame);
    }
  }

  lemma DelSole(leaf: Leaves, k: Key)
    requires Sole(leaf)
    ensures Sole(leaf - {k})
  {
    var leaf' := leaf - {k};
    forall j | j in leaf' && leaf'[j].rw ensures Refs(leaf', leaf'[j].frame) == {j} {
      RefsPut(leaf, k, EMPTY, leaf'[j].frame);
    }
  }

  // ---------- Write faults ----------

  function Writable(e: Pte): Pte {
    e.(rw := true)
  }

  /** The page has this leaf only: allow writing. */
  function Unshare(c: Cow, k: Key): Cow {
    if k in c.leaf then c.(leaf := c.leaf[k := Writable(c.leaf[k])]) else c
  }

  lemma UnshareKeeps(c: Cow, k: Key)
    requires Counted(c) && Sole(c.leaf) && k in c.leaf && c.ref[c.leaf[k].frame] <= 1
    ensures Counted(Unshare(c, k)) && Sole(Unshare(c, k).leaf) && forall j :: View(Unshare(c, k), j) == View(c, j)
  {
    var e := Writable(c.leaf[k]);
    LastRef(c, k);
    PutSole(c.leaf, k, e);
    forall x | x in c.data ensures c.ref[x] >= |Refs(c.leaf[k := e], x)| { CountPut(c.leaf, k, e, x); }
  }

  /** A frame from the pool becomes a page. */
  function Fresh(c: Cow, g: nat, page: Page): Cow {
    c.(ref := c.ref[g := 1], data := c.data[g := page])
  }

  lemma FreshKeeps(c: Cow, g: nat, page: Page)
    requires Counted(c) && g !in c.data
    ensures Counted(Fresh(c, g, page)) && Refs(c.leaf, g) == {} && forall j :: View(Fresh(c, g, page), j) == View(c, j)
  {
  }

  /** An unmapped page goes back to the pool. */
  function Discard(c: Cow, g: nat): Cow {
    c.(data := c.data - {g})
  }

  lemma DiscardKeeps(c: Cow, g: nat)
    requires Counted(c) && Refs(c.leaf, g) == {}
    ensures Counted(Discard(c, g)) && forall j :: View(Discard(c, g), j) == View(c, j)
  {
    assert forall k :: k in c.leaf ==> k !in Refs(c.leaf, g);
  }

  /** The page is shared: copy it to frame g. */
  function CopyStep(c: Cow, k: Key, g: nat): Cow {
    if k in c.leaf && c.leaf[k].frame in c.data then
      var c1 := Release(Fresh(c, g, c.data[c.leaf[k].frame]), c.leaf[k].frame);
      c1.(leaf := c1.leaf[k := Writable(c.leaf[k]).(frame := g)])
    else c
  }

  lemma CopyKeeps(c: Cow, k: Key, g: nat)
    requires Counted(c) && Sole(c.leaf) && k in c.leaf && c.ref[c.leaf[k].frame] > 1 && g !in c.data
    ensures Counted(CopyStep(c, k, g)) && Sole(CopyStep(c, k, g).leaf)
    ensures forall j :: View(CopyStep(c, k, g), j) == View(c, j)
  {
    var e, c' := Writable(c.leaf[k]).(frame := g), CopyStep(c, k, g);
    assert Refs(c.leaf, g) == {};
    PutSole(c.leaf, k, e);
    CopyCounted(c, k, g);
    forall j ensures View(c', j) == View(c, j) { CopyView(c, k, g, j); }
  }

  lemma CopyView(c: Cow, k: Key, g: nat, j: Key)
    requires Counted(c) && k in c.leaf && c.ref[c.leaf[k].frame] > 1 && g !in c.data
    ensures View(CopyStep(c, k, g), j) == View(c, j)
  {
    assert j in c.leaf ==> c.leaf[j].frame in c.data;
  }

  lemma CopyCounted(c: Cow, k: Key, g: nat)
    requires Counted(c) && k in c.leaf && c.ref[c.leaf[k].frame] > 1 && g !in c.data
    ensures Counted(CopyStep(c, k, g))
  {
    var e, c' := Writable(c.leaf[k]).(frame := g), CopyStep(c, k, g);
    assert Refs(c.leaf, g) == {};
    forall x | x in c'.data ensures c'.ref[x] >= |Refs(c'.leaf, x)| { CountPut(c.leaf, k, e, x); }
  }

  // ---------- User stores ----------

  function PutByte(p: Page, off: nat, b: bv8): (q: Page) {
    if off < 4096 then p[off := b] else p
  }

  function Store(c: Cow, k: Key, page: Page): Cow {
    if k in c.leaf then c.(data := c.data[c.leaf[k].frame := page]) else c
  }

  /** A store through a writable entry is seen by one address space at one page. */
  lemma StoreKeeps(c: Cow, k: Key, page: Page)
    requires Counted(c) && Sole(c.leaf) && k in c.leaf && c.leaf[k].rw
    ensures Counted(Store(c, k, page)) && forall j :: View(Store(c, k, page), j) == if j == k then page else View(c, j)
  {
    forall j ensures View(Store(c, k, page), j) == if j == k then page else View(c, j) {
      assert j in Refs(c.leaf, c.leaf[k].frame) ==> j == k;
    }
  }

  // ---------- Fork and exit ----------

  function Guarded(e: Pte): Pte {
    e.(rw := false)
  }

  /** One leaf of clone_current_pml4: counted twice, writable in neither address space. */
  function ShareStep(c: Cow, k: Key, child: Key): Cow {
    if k in c.leaf then
      var e := Guarded(c.leaf[k]);
      Retain(c, e.frame).(leaf := c.leaf[k := e][child := e])
    else c
  }

  lemma ShareKeeps(c: Cow, k: Key, child: Key)
    requires Counted(c) && Sole(c.leaf) && k in c.leaf && child !in c.leaf
    ensures Counted(ShareStep(c, k, child)) && Sole(ShareStep(c, k, child).leaf)
    ensures forall j :: View(ShareStep(c, k, child), j) == if j == child then View(c, k) else View(c, j)
  {
    GuardSole(c.leaf, k);
    PutSole(c.leaf[k := Guarded(c.leaf[k])], child, Guarded(c.leaf[k]));
    ShareCounted(c, k, child);
  }

  lemma ShareCounted(c: Cow, k: Key, child: Key)
    requires Counted(c) && k in c.leaf && child !in c.leaf
    ensures Counted(ShareStep(c, k, child))
  {
    var e, c' := Guarded(c.leaf[k]), ShareStep(c, k, child);
    forall x | x in c.data ensures c'.ref[x] >= |Refs(c'.leaf, x)| {
      CountPut(c.leaf, k, e, x);
      CountPut(c.leaf[k := e], child, e, x);
    }
  }

  lemma GuardSole(leaf: Leaves, k: Key)
    requires Sole(leaf) && k in leaf
    ensures var mid := leaf[k := Guarded(leaf[k])];
      Sole(mid) && forall j :: j in Refs(mid, leaf[k].frame) ==> !mid[j].rw
  {
    var e := Guarded(leaf[k]);
    var mid := leaf[k := e];
    RefsPut(leaf, k, e, e.frame);
    assert k in Refs(leaf, e.frame);
    forall j | j in mid && mid[j].rw ensures Refs(mid, mid[j].frame) == {j} && mid[j].frame != e.frame {
      RefsPut(leaf, k, e, mid[j].frame);
    }
  }

  /** One leaf of free_pagetable. */
  function DropStep(c: Cow, k: Key): Cow {
    var c1 := Forget(c, k);
    c1.(leaf := c1.leaf - {k})
  }

  lemma DropKeeps(c: Cow, k: Key)
    requires Counted(c) && Sole(c.leaf) && k in c.leaf
    ensures Counted(DropStep(c, k)) && Sole(DropStep(c, k).leaf)
    ensures forall j :: j != k ==> View(DropStep(c, k), j) == View(c, j)
  {
    DelSole(c.leaf, k);
    DropCounted(c, k);
    forall j | j != k ensures View(DropStep(c, k), j) == View(c, j) {
      if c.ref[c.leaf[k].frame] == 1 {
        LastRef(c, k);
        assert j !in Refs(c.leaf, c.leaf[k].frame);
      }
    }
  }

  lemma DropCounted(c: Cow, k: Key)
    requires Counted(c) && k in c.leaf
    ensures Counted(DropStep(c, k))
  {
    var c' := DropStep(c, k);
    forall x | x in c'.data ensures c'.ref[x] >= 1 && c'.ref[x] >= |Refs(c'.leaf, x)| { CountPut(c.leaf, k, EMPTY, x); }
    forall j | j in c'.leaf ensures c'.leaf[j].frame in c'.data {
      if c.ref[c.leaf[k].frame] == 1 {
        LastRef(c, k);
        assert j !in Refs(c.leaf, c.leaf[k].frame);
      }
    }
  }

  /** unmap_page clears the leaf and leaves the count alone. */
  function ClearStep(c: Cow, k: Key): Cow {
    c.(leaf := c.leaf - {k})
  }

  lemma ClearKeeps(c: Cow, k: Key)
    requires Counted(c) && Sole(c.leaf)
    ensures Counted(ClearStep(c, k)) && Sole(ClearStep(c, k).leaf)
    ensures forall j :: View(ClearStep(c, k), j) == if j == k then ZeroPage() else View(c, j)
  {
    DelSole(c.leaf, k);
    forall x | x in c.data ensures c.ref[x] >= |Refs(c.leaf - {k}, x)| { CountPut(c.leaf, k, EMPTY, x); }
  }

  // ---------- Frames outside the pages in use ----------

  /** The same leaves and pages; only counts of frames that hold no page differ. */
  ghost predicate SameCow(c: Cow, d: Cow) {
    c.leaf == d.leaf && c.data == d.data && c.ref.Keys == d.ref.Keys && forall x ::
      x in c.data && x in c.ref ==> d.ref[x] == c.ref[x]
  }

  lemma SameCounted(c: Cow, d: Cow)
    requires SameCow(c, d) && Counted(c)
    ensures Counted(d)
  {
  }

  lemma MapSame(c: Cow, d: Cow, k: Key, e: Pte)
    requires SameCow(c, d) && Counted(c) && e.frame in c.data
    ensures SameCow(MapStep(c, k, e), MapStep(d, k, e))
  {
  }

  // ---------- The pool ----------

  /** A frame is in the pool, a table or a page, never two of these; and none of the frames that
      have a descriptor is lost. */
  ghost predicate FramesApart(tabs: set<nat>, c: Cow, free: set<nat>) {
    && tabs !! free && c.data.Keys !! free && tabs !! c.data.Keys && free <= c.ref.Keys
    && forall x {:trigger c.ref[x]} :: x in c.ref ==> x in tabs || x in c.data || x in free
  }

  /** The frame that dropping leaf k gives back, if it was the last reference. */
  function Freed(c: Cow, k: Key): set<nat> {
    if k in c.leaf && c.leaf[k].frame in c.ref && c.ref[c.leaf[k].frame] == 1 then {c.leaf[k].frame} else {}
  }

  lemma ForgetApart(tabs: set<nat>, c: Cow, k: Key, free: set<nat>)
    requires FramesApart(tabs, c, free) && Counted(c)
    ensures FramesApart(tabs, Forget(c, k), free + Freed(c, k)) && Forget(c, k).ref.Keys == c.ref.Keys
    ensures FramesApart(tabs, DropStep(c, k), free + Freed(c, k)) && DropStep(c, k).ref.Keys == c.ref.Keys
  {
  }

  lemma MapApart(tabs: set<nat>, c: Cow, k: Key, e: Pte, free: set<nat>)
    requires FramesApart(tabs, c, free) && Counted(c)
    ensures FramesApart(tabs, MapStep(c, k, e), free + Freed(c, k)) && MapStep(c, k, e).ref.Keys == c.ref.Keys
  {
    ForgetApart(tabs, c, k, free);
  }

  lemma CopyApart(tabs: set<nat>, c: Cow, k: Key, g: nat, free: set<nat>)
    requires FramesApart(tabs, c, free) && k in c.leaf && g in free
    requires c.leaf[k].frame in c.data && c.leaf[k].frame in c.ref && c.ref[c.leaf[k].frame] > 1
    ensures FramesApart(tabs, CopyStep(c, k, g), free - {g}) && CopyStep(c, k, g).ref.Keys == c.ref.Keys
  {
    var c' := CopyStep(c, k, g);
    assert c'.data.Keys == c.data.Keys + {g} && c.ref.Keys <= c'.ref.Keys;
  }

  /** A frame from the pool becomes a table. */
  function Tabled(c: Cow, g: nat): Cow {
    c.(ref := c.ref[g := 1])
  }

  lemma TabledKeeps(tabs: set<nat>, c: Cow, g: nat, free: set<nat>)
    requires FramesApart(tabs, c, free) && g in free
    ensures FramesApart(tabs + {g}, Tabled(c, g), free - {g}) && SameCow(c, Tabled(c, g))
  {
  }

  /** A table goes back to the pool, if its frame came from there. */
  function Pooled(c: Cow, h: nat, free: set<nat>): set<nat> {
    if h in c.ref then free + {h} else free
  }

  lemma PooledApart(tabs: set<nat>, c: Cow, h: nat, free: set<nat>)
    requires FramesApart(tabs, c, free) && h in tabs
    ensures FramesApart(tabs - {h}, c, Pooled(c, h, free))
  {
  }

  /** With nothing lost, tables and pages decide what is in the pool. */
  lemma PoolIs(tabs: set<nat>, c: Cow, free: set<nat>, c': Cow, free': set<nat>)
    requires FramesApart(tabs, c, free) && FramesApart(tabs, c', free') && c.data.Keys == c'.data.Keys
    requires c.ref.Keys == c'.ref.Keys
    ensures free == free'
  {
    forall x ensures x in free <==> x in free' {
      if x in c.ref { assert c.ref[x] == c.ref[x] && c'.ref[x] == c'.ref[x]; }
    }
  }
}
