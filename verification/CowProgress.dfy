/**
 How far a clone or a teardown has come, in page order, and the law that links counts to leaves
 throughout: a count moves exactly with the number of leaves.
 */
module CowProgress {
  import opened PageWalk
  import opened PageFlat
  import opened CowState

  // ---------- Conservation of counts ----------

  /** References to x that are not leaves. */
  ghost function Slack(c: Cow, x: nat): int
    requires x in c.ref
  {
    c.ref[x] - |Refs(c.leaf, x)|
  }

  /** From c0 to c page x kept its references that are not leaves, or went back to the pool because no reference
      was left. */
  ghost predicate CountKept(c0: Cow, c: Cow, x: nat)
    requires x in c0.ref && x in c.ref
  {
    && (x in c.data <==> Slack(c0, x) + |Refs(c.leaf, x)| > 0)
    && (x in c.data ==> Slack(c, x) == Slack(c0, x))
  }

  /** And its contents. */
  ghost predicate Kept(c0: Cow, c: Cow, x: nat)
    requires x in c0.data && x in c0.ref && x in c.ref
  {
    CountKept(c0, c, x) && (x in c.data ==> c.data[x] == c0.data[x])
  }

  ghost predicate Conserved(c0: Cow, c: Cow) {
    && c.data.Keys <= c0.data.Keys <= c0.ref.Keys == c.ref.Keys
    && forall x :: x in c0.data ==> Kept(c0, c, x)
  }

  lemma ConservedStart(c: Cow)
    requires Counted(c)
    ensures Conserved(c, c)
  {
  }

  lemma ConservedSame(c0: Cow, c: Cow, d: Cow)
    requires Conserved(c0, c) && SameCow(c, d)
    ensures Conserved(c0, d)
  {
  }

  lemma ShareConserves(c0: Cow, c: Cow, k: Key, child: Key)
    requires Conserved(c0, c) && Counted(c) && k in c.leaf && child !in c.leaf
    ensures Conserved(c0, ShareStep(c, k, child))
  {
    var e, c' := Guarded(c.leaf[k]), ShareStep(c, k, child);
    forall x | x in c0.data ensures Kept(c0, c', x) {
      assert Kept(c0, c, x);
      CountPut(c.leaf, k, e, x);
      CountPut(c.leaf[k := e], child, e, x);
    }
  }

  lemma DropConserves(c0: Cow, c: Cow, k: Key)
    requires Conserved(c0, c) && Counted(c) && k in c.leaf
    ensures Conserved(c0, DropStep(c, k))
  {
    var c' := DropStep(c, k);
    forall x | x in c0.data ensures Kept(c0, c', x) {
      assert Kept(c0, c, x);
      CountPut(c.leaf, k, EMPTY, x);
    }
  }

  lemma ConservedChain(c0: Cow, c1: Cow, c2: Cow)
    requires Conserved(c0, c1) && Conserved(c1, c2) && Counted(c0) && Counted(c1) && Counted(c2)
    ensures Conserved(c0, c2)
  {
    forall x | x in c0.data ensures Kept(c0, c2, x) {
      assert Kept(c0, c1, x);
      if x in c1.data { assert Kept(c1, c2, x); } else { assert Refs(c1.leaf, x) == {} && Refs(c2.leaf, x) == {}; }
    }
  }

  /** If every page is named by as many leaves as at the start, every count is what it was. */
  lemma Restored(c0: Cow, c: Cow)
    requires Conserved(c0, c) && Counted(c0) && forall x :: x in c0.data ==> |Refs(c.leaf, x)| == |Refs(c0.leaf, x)|
    ensures c.data == c0.data && forall x :: x in c0.data ==> c.ref[x] == c0.ref[x]
  {
    assert forall x :: x in c0.data ==> Kept(c0, c, x);
  }

  // ---------- The account of every operation ----------

  /** Counts moved exactly with the leaves from c0 to c, and a page that is new in memory has `extra` references that
      are not leaves. */
  ghost predicate Accounted(c0: Cow, c: Cow, extra: nat) {
    && c0.data.Keys <= c0.ref.Keys == c.ref.Keys && c.data.Keys <= c.ref.Keys
    && (forall x :: x in c0.data ==> CountKept(c0, c, x))
    && (forall x :: x in c.data && x !in c0.data ==> Slack(c, x) == extra)
  }

  /** The rights of a mapping other than writing. */
  predicate SameRights(a: Pte, b: Pte) {
    b.present == a.present && b.user == a.user && b.nx == a.nx && b.ps == a.ps
  }

  /** A page mapped on first touch: user, writable, executable. */
  predicate FirstRights(e: Pte) {
    e.present && e.user && e.rw && !e.nx && !e.ps
  }

  /** An access leaves the rights of page k alone, or gives it those of a first touch. */
  ghost predicate Granted(l0: Leaves, l: Leaves, k: Key) {
    k in l ==> if k in l0 then SameRights(l0[k], l[k]) else FirstRights(l[k])
  }

  /** An access to page k: it is mapped afterwards if the access succeeds, no other mapping changes. */
  ghost predicate Touched(c0: Cow, c: Cow, k: Key, ok: bool, extra: nat) {
    && c.leaf.Keys == c0.leaf.Keys + (if ok then {k} else {}) && Accounted(c0, c, extra)
    && forall j :: j in c0.leaf && j != k ==> c.leaf[j] == c0.leaf[j]
  }

  lemma ConservedAccounted(c0: Cow, c: Cow, extra: nat)
    requires Conserved(c0, c)
    ensures Accounted(c0, c, extra)
  {
    forall x | x in c0.data ensures CountKept(c0, c, x) { assert Kept(c0, c, x); }
  }

  lemma SameAccounted(c: Cow, d: Cow, extra: nat)
    requires SameCow(c, d) && Counted(c)
    ensures Accounted(c, d, extra)
  {
  }

  /** A private copy: the old page loses the leaf and its count, the new one has its one leaf. */
  lemma CopyAccounted(c: Cow, k: Key, g: nat)
    requires Counted(c) && k in c.leaf && c.ref[c.leaf[k].frame] > 1 && g in c.ref && g !in c.data
    ensures Accounted(c, CopyStep(c, k, g), 0) && CopyStep(c, k, g).leaf.Keys == c.leaf.Keys
  {
    var c' := CopyStep(c, k, g);
    forall x | x in c.data ensures CountKept(c, c', x) { CopyCount(c, k, g, x); }
    CopyCount(c, k, g, g);
    OneNew(c, c', g, 0);
  }

  lemma CopyCount(c: Cow, k: Key, g: nat, x: nat)
    requires Counted(c) && k in c.leaf && c.ref[c.leaf[k].frame] > 1 && g in c.ref && g !in c.data
    requires x in c.data || x == g
    ensures var c' := CopyStep(c, k, g); x in c'.data && x in c'.ref && if x == g then Slack(c', x) == 0
      else Slack(c', x) == Slack(c, x)
  {
    assert Refs(c.leaf, g) == {};
    assert k in Refs(c.leaf, x) <==> x == c.leaf[k].frame;
    CountPut(c.leaf, k, Writable(c.leaf[k]).(frame := g), x);
  }

  lemma UnshareAccounted(c: Cow, k: Key)
    requires Counted(c) && k in c.leaf
    ensures Accounted(c, Unshare(c, k), 0) && Unshare(c, k).leaf.Keys == c.leaf.Keys
  {
    forall x ensures |Refs(Unshare(c, k).leaf, x)| == |Refs(c.leaf, x)| { CountPut(c.leaf, k, Writable(c.leaf[k]), x); }
  }

  /** A new page g, mapped: one reference for its allocation, one for the leaf. */
  lemma MapAccounted(c: Cow, d: Cow, k: Key, g: nat, page: Page, e: Pte)
    requires Counted(c) && g in c.ref && g !in c.data && e.frame == g && SameCow(MapStep(Fresh(c, g, page), k, e), d)
    ensures Accounted(c, d, 1) && d.leaf == c.leaf[k := e]
  {
    MapKeys(c, d, k, g, page, e);
    forall x | x in c.data ensures CountKept(c, d, x) { MapCount(c, d, k, g, page, e, x); }
    MapCount(c, d, k, g, page, e, g);
    OneNew(c, d, g, 1);
  }

  lemma MapKeys(c: Cow, d: Cow, k: Key, g: nat, page: Page, e: Pte)
    requires Counted(c) && g in c.ref && g !in c.data && e.frame == g && SameCow(MapStep(Fresh(c, g, page), k, e), d)
    ensures c.data.Keys <= c.ref.Keys == d.ref.Keys && d.data.Keys <= c.data.Keys + {g}
    ensures d.leaf == c.leaf[k := e]
  {
    var c1 := Forget(Fresh(c, g, page), k);
    assert c1.ref.Keys == c.ref.Keys && c1.data.Keys <= c.data.Keys + {g} && c1.leaf == c.leaf;
  }

  /** One page more at most, with so many references that are not leaves. */
  lemma OneNew(c: Cow, d: Cow, g: nat, extra: nat)
    requires c.data.Keys <= c.ref.Keys == d.ref.Keys && d.data.Keys <= c.data.Keys + {g} && g in d.ref
    requires (forall x :: x in c.data ==> CountKept(c, d, x)) && Slack(d, g) == extra
    ensures Accounted(c, d, extra)
  {
  }

  lemma MapCount(c: Cow, d: Cow, k: Key, g: nat, page: Page, e: Pte, x: nat)
    requires Counted(c) && g in c.ref && g !in c.data && e.frame == g && SameCow(MapStep(Fresh(c, g, page), k, e), d)
    requires x in c.data || x == g
    ensures x in d.ref && if x == g then x in d.data && Slack(d, x) == 1 else CountKept(c, d, x)
  {
    assert Refs(c.leaf, g) == {};
    assert k in Refs(c.leaf, x) <==> k in c.leaf && x == c.leaf[k].frame;
    CountPut(c.leaf, k, e, x);
  }

  /** The same page, given back because it could not be mapped. */
  lemma DiscardAccounted(c: Cow, d: Cow, g: nat, page: Page, extra: nat)
    requires Counted(c) && g in c.ref && g !in c.data && SameCow(Fresh(c, g, page), d)
    ensures Accounted(c, Discard(d, g), extra) && Discard(d, g).leaf == c.leaf
  {
  }

  lemma StoreAccounted(c0: Cow, c: Cow, k: Key, page: Page, extra: nat)
    requires Accounted(c0, c, extra) && k in c.leaf && c.leaf[k].frame in c.data
    ensures Accounted(c0, Store(c, k, page), extra)
  {
    forall x | x in c0.data ensures CountKept(c0, Store(c, k, page), x) { assert CountKept(c0, c, x); }
  }

  lemma StoreTouched(c0: Cow, c: Cow, c': Cow, k: Key, page: Page, extra: nat)
    requires Touched(c0, c, k, true, extra) && k in c.leaf && c.leaf[k].frame in c.data && c' == Store(c, k, page)
    ensures Touched(c0, c', k, true, extra)
  {
    StoreAccounted(c0, c, k, page, extra);
  }

  // ---------- Write faults as a whole ----------

  /** Every address space reads the same everywhere. */
  ghost predicate SameViews(c: Cow, d: Cow) {
    forall k :: View(d, k) == View(c, k)
  }

  /** Tables, pages and pool are apart, and the counts are right. */
  ghost predicate Healthy(tabs: set<nat>, c: Cow, free: set<nat>) {
    FramesApart(tabs, c, free) && Counted(c) && Sole(c.leaf)
  }

  /** The three ways a write fault on a read-only page ends: a page counted once becomes writable where it is, a shared
      one is copied to frame g, or there is no frame. */
  ghost predicate FaultStep(c0: Cow, free0: set<nat>, c: Cow, free: set<nat>, k: Key, ok: bool, g: nat) {
    && k in c0.leaf && c0.leaf[k].frame in c0.ref
    && if c0.ref[c0.leaf[k].frame] <= 1 then ok && c == Unshare(c0, k) && free == free0
       else if free0 == {} then !ok && c == c0 && free == free0
       else ok && g in free0 && c == CopyStep(c0, k, g) && free == free0 - {g}
  }

  /** What each of them means. */
  ghost predicate Resolved(c0: Cow, free0: set<nat>, c: Cow, free: set<nat>, k: Key, ok: bool) {
    && SameViews(c0, c) && Touched(c0, c, k, ok, 0) && |free| + 1 >= |free0|
    && k in c0.leaf && k in c.leaf && c0.leaf[k].frame in c0.ref
    && (ok ==> c.leaf[k].rw) && Granted(c0.leaf, c.leaf, k)
    && var x := c0.leaf[k].frame;
       if c0.ref[x] <= 1 then ok && c.leaf[k].frame == x && free == free0
       else if free0 == {} then !ok && c == c0 && free == free0
       else ok && c.leaf[k].frame in free0 && free == free0 - {c.leaf[k].frame}
  }

  lemma UnshareResolved(tabs: set<nat>, c: Cow, free: set<nat>, k: Key)
    requires Healthy(tabs, c, free) && k in c.leaf && c.ref[c.leaf[k].frame] <= 1
    ensures Healthy(tabs, Unshare(c, k), free) && Resolved(c, free, Unshare(c, k), free, k, true)
  {
    UnshareKeeps(c, k);
    UnshareAccounted(c, k);
  }

  lemma CopyResolved(tabs: set<nat>, c: Cow, free: set<nat>, k: Key, g: nat)
    requires Healthy(tabs, c, free) && k in c.leaf && c.ref[c.leaf[k].frame] > 1 && g in free
    ensures Healthy(tabs, CopyStep(c, k, g), free - {g}) && Resolved(c, free, CopyStep(c, k, g), free - {g}, k, true)
  {
    CopyKeeps(c, k, g);
    CopyApart(tabs, c, k, g, free);
    CopyAccounted(c, k, g);
  }

  lemma FaultResolved(tabs: set<nat>, c0: Cow, free0: set<nat>, c: Cow, free: set<nat>, k: Key, ok: bool, g: nat)
    requires Healthy(tabs, c0, free0) && FaultStep(c0, free0, c, free, k, ok, g)
    ensures Healthy(tabs, c, free) && Resolved(c0, free0, c, free, k, ok) && c.ref.Keys == c0.ref.Keys
  {
    if c0.ref[c0.leaf[k].frame] <= 1 {
      UnshareResolved(tabs, c0, free0, k);
    } else if free0 == {} {
      SameAccounted(c0, c0, 0);
    } else {
      CopyResolved(tabs, c0, free0, k, g);
    }
  }

  /** Unmapping leaves the count: one more reference that is not a leaf. */
  lemma ClearAccount(c: Cow, k: Key, x: nat)
    requires Counted(c) && x in c.data
    ensures x in ClearStep(c, k).data
    ensures Slack(ClearStep(c, k), x) == Slack(c, x) + if k in c.leaf && c.leaf[k].frame == x then 1 else 0
  {
    CountPut(c.leaf, k, EMPTY, x);
  }

  // ---------- Clone ----------

  ghost function ClonedEntry(l0: Leaves, root: nat, child: nat, k: Key, done: bool): Pte
    requires if k.0 == child then (root, k.1) in l0 else k in l0
  {
    if k.0 == child then Guarded(l0[(root, k.1)]) else if k.0 == root && done then Guarded(l0[k]) else l0[k]
  }

  /** Pages before n, counted in units of a table of this level, are shared with the child; the
      others are not touched yet. */
  ghost predicate Cloned(l0: Leaves, l: Leaves, root: nat, child: nat, level: nat, n: nat) {
    forall k: Key ::
      && (k in l <==> if k.0 == child then (root, k.1) in l0 && Up(k.1, level) < n else k in l0)
      && (k in l ==> l[k] == ClonedEntry(l0, root, child, k, Up(k.1, level) < n))
  }

  /** Some pages of root are shared with the child; nothing else changed. */
  ghost predicate Sharing(l0: Leaves, l: Leaves, root: nat, child: nat) {
    && (forall k: Key ::
      k.0 != child ==> (k in l <==> k in l0) && (k in l ==> l[k] == l0[k] || (k.0 == root && l[k] == Guarded(l0[k]))))
    && (forall k: Key :: k.0 == child && k in l ==> (root, k.1) in l0 && l[k] == Guarded(l0[(root, k.1)]))
  }

  lemma ClonedStart(l: Leaves, root: nat, child: nat)
    requires forall k :: k in l ==> k.0 != child && UserPage(k.1)
    ensures Cloned(l, l, root, child, 3, 1)
  {
    forall k: Key | k in l ensures Up(k.1, 3) >= 1 { UserRange(k.1); }
  }

  lemma UserRange(v: nat)
    ensures UserPage(v) <==> 1 <= Up(v, 3) < 256
  {
    assert Up(v, 1) == v / 512 && Up(v, 2) == v / 512 / 512 && Up(v, 3) == v / 512 / 512 / 512;
  }

  /** Nothing is mapped under position n. */
  ghost predicate Vacant(l: Leaves, root: nat, level: nat, n: nat) {
    forall v: nat :: (root, v) in l ==> Up(v, level) != n
  }

  lemma ClonedSkip(l0: Leaves, l: Leaves, root: nat, child: nat, level: nat, n: nat)
    requires root != child && Cloned(l0, l, root, child, level, n) && Vacant(l, root, level, n)
    ensures Cloned(l0, l, root, child, level, n + 1)
  {
    forall k: Key | (root, k.1) in l0 ensures Up(k.1, level) != n { assert (root, k.1) in l; }
  }

  lemma ClonedShare(l0: Leaves, l: Leaves, root: nat, child: nat, v: nat)
    requires root != child && Cloned(l0, l, root, child, 0, v) && (root, v) in l
    ensures (child, v) !in l
    ensures Cloned(l0, l[(root, v) := Guarded(l[(root, v)])][(child, v) := Guarded(l[(root, v)])], root, child, 0,
      v + 1)
  {
  }

  /** Moving to the first entry of the table one level down, and back up after its last. */
  lemma ClonedDown(l0: Leaves, l: Leaves, root: nat, child: nat, level: nat, n: nat)
    requires level > 0
    ensures Cloned(l0, l, root, child, level, n) <==> Cloned(l0, l, root, child, level - 1, n * ENTRIES)
  {
    forall v: nat ensures Up(v, level) < n <==> Up(v, level - 1) < n * ENTRIES { }
  }

  ghost function ChildKeys(l0: Leaves, root: nat, child: nat): set<Key> {
    set k | k in l0 && k.0 == root :: (child, k.1)
  }

  /** The leaves of Cloned, as one map. */
  ghost function ClonedLeaves(l0: Leaves, root: nat, child: nat, level: nat, n: nat): Leaves {
    map k | k in l0.Keys + ChildKeys(l0, root, child) &&
      (if k.0 == child then (root, k.1) in l0 && Up(k.1, level) < n else k in l0) ::
      ClonedEntry(l0, root, child, k, Up(k.1, level) < n)
  }

  lemma ClonedIs(l0: Leaves, l: Leaves, root: nat, child: nat, level: nat, n: nat)
    ensures l == ClonedLeaves(l0, root, child, level, n) <==> Cloned(l0, l, root, child, level, n)
  {
    var m := ClonedLeaves(l0, root, child, level, n);
    forall k: Key ensures k in m <==> if k.0 == child then (root, k.1) in l0 && Up(k.1, level) < n else k in l0 {
      if k.0 == child && (root, k.1) in l0 { assert (child, k.1) in ChildKeys(l0, root, child); }
    }
  }

  /** A clone in progress: pages up to n are shared, counts and contents are in order. */
  ghost predicate Cloning(c0: Cow, c: Cow, root: nat, child: nat, level: nat, n: nat) {
    c.leaf == ClonedLeaves(c0.leaf, root, child, level, n) && Conserved(c0, c) && Counted(c) && Sole(c.leaf)
  }

  /** A clone that stopped for lack of memory. */
  ghost predicate Stopped(c0: Cow, c: Cow, root: nat, child: nat) {
    Sharing(c0.leaf, c.leaf, root, child) && Conserved(c0, c) && Counted(c) && Sole(c.leaf)
  }

  lemma CloningStopped(c0: Cow, c: Cow, root: nat, child: nat, level: nat, n: nat)
    requires Cloning(c0, c, root, child, level, n)
    ensures Stopped(c0, c, root, child)
  {
    ClonedIs(c0.leaf, c.leaf, root, child, level, n);
  }

  lemma CloningShare(c0: Cow, c: Cow, root: nat, child: nat, v: nat, w: nat)
    requires root != child && Cloning(c0, c, root, child, 0, v) && (root, v) in c.leaf && w == v + 1
    ensures Cloning(c0, ShareStep(c, (root, v), (child, v)), root, child, 0, w)
  {
    ClonedIs(c0.leaf, c.leaf, root, child, 0, v);
    ClonedShare(c0.leaf, c.leaf, root, child, v);
    ClonedIs(c0.leaf, ShareStep(c, (root, v), (child, v)).leaf, root, child, 0, v + 1);
    ShareKeeps(c, (root, v), (child, v));
    ShareConserves(c0, c, (root, v), (child, v));
  }

  lemma CloningSkip(c0: Cow, c: Cow, root: nat, child: nat, level: nat, n: nat, w: nat)
    requires root != child && Cloning(c0, c, root, child, level, n) && Vacant(c.leaf, root, level, n) && w == n + 1
    ensures Cloning(c0, c, root, child, level, w)
  {
    ClonedIs(c0.leaf, c.leaf, root, child, level, n);
    ClonedSkip(c0.leaf, c.leaf, root, child, level, n);
    ClonedIs(c0.leaf, c.leaf, root, child, level, n + 1);
  }

  lemma CloningSame(c0: Cow, c: Cow, d: Cow, root: nat, child: nat, level: nat, n: nat)
    requires Cloning(c0, c, root, child, level, n) && SameCow(c, d)
    ensures Cloning(c0, d, root, child, level, n)
  {
    ConservedSame(c0, c, d);
    SameCounted(c, d);
  }

  lemma CloningUp(c0: Cow, c: Cow, root: nat, child: nat, level: nat, n: nat, m: nat)
    requires level > 0 && m == n * ENTRIES && Cloning(c0, c, root, child, level - 1, m)
    ensures Cloning(c0, c, root, child, level, n)
  {
    ClonedIs(c0.leaf, c.leaf, root, child, level, n);
    ClonedIs(c0.leaf, c.leaf, root, child, level - 1, m);
    ClonedDown(c0.leaf, c.leaf, root, child, level, n);
  }

  lemma CloningDown(c0: Cow, c: Cow, root: nat, child: nat, level: nat, n: nat, m: nat)
    requires level > 0 && m == n * ENTRIES && Cloning(c0, c, root, child, level, n)
    ensures Cloning(c0, c, root, child, level - 1, m)
  {
    ClonedIs(c0.leaf, c.leaf, root, child, level, n);
    ClonedIs(c0.leaf, c.leaf, root, child, level - 1, m);
    ClonedDown(c0.leaf, c.leaf, root, child, level, n);
  }

  // ---------- Teardown ----------

  /** The leaves left once the pages of root before n are dropped. */
  ghost function Left(l0: Leaves, root: nat, level: nat, n: nat): Leaves {
    map k | k in l0 && !(k.0 == root && Up(k.1, level) < n) :: l0[k]
  }

  lemma LeftStart(l: Leaves, root: nat)
    requires forall k :: k in l ==> UserPage(k.1)
    ensures Left(l, root, 3, 1) == l
  {
    forall k: Key | k in l ensures Up(k.1, 3) >= 1 { UserRange(k.1); }
  }

  lemma LeftSkip(l0: Leaves, root: nat, level: nat, n: nat)
    requires Vacant(Left(l0, root, level, n), root, level, n)
    ensures Left(l0, root, level, n + 1) == Left(l0, root, level, n)
  {
    var l := Left(l0, root, level, n);
    forall k: Key | k in l0 && k.0 == root ensures Up(k.1, level) != n {
      assert Up(k.1, level) == n ==> (root, k.1) in l;
    }
  }

  lemma LeftDrop(l0: Leaves, root: nat, v: nat)
    ensures Left(l0, root, 0, v + 1) == Left(l0, root, 0, v) - {(root, v)}
  {
  }

  lemma LeftDown(l0: Leaves, root: nat, level: nat, n: nat)
    requires level > 0
    ensures Left(l0, root, level, n) == Left(l0, root, level - 1, n * ENTRIES)
  {
    forall v: nat ensures Up(v, level) < n <==> Up(v, level - 1) < n * ENTRIES { }
  }

  /** All pages of root are gone, and nothing else. */
  lemma LeftAll(l0: Leaves, root: nat)
    requires forall k :: k in l0 ==> UserPage(k.1)
    ensures Left(l0, root, 3, 256) == map k | k in l0 && k.0 != root :: l0[k]
  {
    forall k: Key | k in l0 ensures Up(k.1, 3) < 256 { UserRange(k.1); }
  }

  /** A teardown in progress. */
  ghost predicate Draining(c0: Cow, c: Cow, root: nat, level: nat, n: nat) {
    c.leaf == Left(c0.leaf, root, level, n) && Conserved(c0, c) && Counted(c) && Sole(c.leaf)
  }

  lemma DrainingDrop(c0: Cow, c: Cow, root: nat, v: nat, w: nat)
    requires Draining(c0, c, root, 0, v) && (root, v) in c.leaf && w == v + 1
    ensures Draining(c0, DropStep(c, (root, v)), root, 0, w)
  {
    LeftDrop(c0.leaf, root, v);
    DropKeeps(c, (root, v));
    DropConserves(c0, c, (root, v));
  }

  lemma DrainingSkip(c0: Cow, c: Cow, root: nat, level: nat, n: nat, w: nat)
    requires Draining(c0, c, root, level, n) && Vacant(c.leaf, root, level, n) && w == n + 1
    ensures Draining(c0, c, root, level, w)
  {
    LeftSkip(c0.leaf, root, level, n);
  }

  lemma DrainingDown(c0: Cow, c: Cow, root: nat, level: nat, n: nat, m: nat)
    requires level > 0 && m == n * ENTRIES && Draining(c0, c, root, level, n)
    ensures Draining(c0, c, root, level - 1, m)
  {
    LeftDown(c0.leaf, root, level, n);
  }

  lemma DrainingUp(c0: Cow, c: Cow, root: nat, level: nat, n: nat, m: nat)
    requires level > 0 && m == n * ENTRIES && Draining(c0, c, root, level - 1, m)
    ensures Draining(c0, c, root, level, n)
  {
    LeftDown(c0.leaf, root, level, n);
  }

  lemma DrainingAt(c0: Cow, c: Cow, root: nat, level: nat, n: nat, m: nat)
    requires Draining(c0, c, root, level, n) && n == m
    ensures Draining(c0, c, root, level, m)
  {
  }

  lemma CloningAt(c0: Cow, c: Cow, root: nat, child: nat, level: nat, n: nat, m: nat)
    requires Cloning(c0, c, root, child, level, n) && n == m
    ensures Cloning(c0, c, root, child, level, m)
  {
  }

  // ---------- Whole operations ----------

  ghost predicate UserKeys(l: Leaves) {
    forall k :: k in l ==> UserPage(k.1)
  }

  /** free_pagetable(root) from c0 to c: the leaves of root are gone, counts moved with them. */
  ghost predicate TornDown(c0: Cow, c: Cow, root: nat) {
    && c.leaf == (map k | k in c0.leaf && k.0 != root :: c0.leaf[k])
    && Conserved(c0, c) && Counted(c) && Sole(c.leaf)
  }

  lemma DrainingStart(c: Cow, root: nat)
    requires Counted(c) && Sole(c.leaf) && UserKeys(c.leaf)
    ensures Draining(c, c, root, 3, 1)
  {
    LeftStart(c.leaf, root);
    ConservedStart(c);
  }

  lemma DrainingEnd(c0: Cow, c: Cow, root: nat)
    requires Draining(c0, c, root, 3, 256) && UserKeys(c0.leaf)
    ensures TornDown(c0, c, root)
  {
    LeftAll(c0.leaf, root);
  }

  /** Teardown is not seen by any other address space. */
  lemma TornDownView(c0: Cow, c: Cow, root: nat, k: Key)
    requires TornDown(c0, c, root) && Counted(c0) && k.0 != root
    ensures View(c, k) == View(c0, k)
  {
    if k in c.leaf {
      assert Kept(c0, c, c.leaf[k].frame);
    }
  }

  /** A page leaves memory exactly when all its references were leaves of the address space. */
  lemma TornDownFrees(c0: Cow, c: Cow, root: nat, x: nat)
    requires TornDown(c0, c, root) && Counted(c0) && x in c0.data
    ensures x !in c.data <==> c0.ref[x] == |Refs(c0.leaf, x)| && (forall k :: k in Refs(c0.leaf, x) ==> k.0 == root)
    ensures x in c.data ==> c.ref[x] == c0.ref[x] - (|Refs(c0.leaf, x)| - |Refs(c.leaf, x)|)
  {
    assert Kept(c0, c, x);
    if forall k :: k in Refs(c0.leaf, x) ==> k.0 == root {
      assert Refs(c.leaf, x) == {};
    } else {
      var k :| k in Refs(c0.leaf, x) && k.0 != root;
      assert k in Refs(c.leaf, x);
    }
  }

  /** What fork promises from c0 to c: the child reads what root reads, everyone else what they did. */
  ghost predicate Forked(c0: Cow, c: Cow, root: nat, child: nat) {
    && Stopped(c0, c, root, child)
    && (forall v: nat :: (child, v) in c.leaf <==> (root, v) in c0.leaf)
  }

  /** What a fork does to mappings: the child has the parent's, with the parent's rights, and neither may write; every
      other mapping stays. */
  lemma ForkedRights(c0: Cow, c: Cow, root: nat, child: nat, k: Key)
    requires Forked(c0, c, root, child) && root != child && k in c0.leaf && k.0 != child
    ensures k in c.leaf && SameRights(c0.leaf[k], c.leaf[k]) && c.leaf[k].frame == c0.leaf[k].frame
    ensures k.0 != root ==> c.leaf[k] == c0.leaf[k]
    ensures k.0 == root ==> (child, k.1) in c.leaf && var e := c.leaf[(child, k.1)];
      SameRights(c0.leaf[k], e) && e.frame == c0.leaf[k].frame && !e.rw
    ensures k.0 == root ==> !c.leaf[k].rw
  {
    assert (child, k.1) in c.leaf <==> (root, k.1) in c0.leaf;
    if k.0 == root { assert (child, k.1) in Refs(c.leaf, c.leaf[k].frame); }
  }

  lemma CloningStart(c: Cow, root: nat, child: nat)
    requires Counted(c) && Sole(c.leaf) && UserKeys(c.leaf) && forall k :: k in c.leaf ==> k.0 != child
    ensures Cloning(c, c, root, child, 3, 1)
  {
    ClonedStart(c.leaf, root, child);
    ClonedIs(c.leaf, c.leaf, root, child, 3, 1);
    ConservedStart(c);
  }

  lemma CloningEnd(c0: Cow, c: Cow, root: nat, child: nat)
    requires Cloning(c0, c, root, child, 3, 256) && UserKeys(c0.leaf)
    ensures Forked(c0, c, root, child)
  {
    CloningStopped(c0, c, root, child, 3, 256);
    ClonedIs(c0.leaf, c.leaf, root, child, 3, 256);
    forall v: nat ensures (child, v) in c.leaf <==> (root, v) in c0.leaf {
      UserRange(v);
    }
  }

  /** Lazy fork reads like an eager copy of every page. */
  lemma ForkedView(c0: Cow, c: Cow, root: nat, child: nat, k: Key)
    requires Forked(c0, c, root, child) && Counted(c0)
    ensures View(c, k) == if k.0 == child then View(c0, (root, k.1)) else View(c0, k)
  {
    if k in c.leaf {
      assert Kept(c0, c, c.leaf[k].frame);
    }
  }

  /** The child maps what the parent mapped, everyone else what they did. */
  lemma ForkedKeys(c0: Cow, c: Cow, root: nat, child: nat, k: Key)
    requires Forked(c0, c, root, child)
    ensures k in c.leaf <==> if k.0 == child then (root, k.1) in c0.leaf else k in c0.leaf
  {
    if k.0 == child { assert k == (child, k.1); }
  }

  /** A clone that stopped is seen by nobody. */
  lemma StoppedView(c0: Cow, c: Cow, root: nat, child: nat, k: Key)
    requires Stopped(c0, c, root, child) && Counted(c0) && k.0 != child
    ensures View(c, k) == View(c0, k)
  {
    if k in c.leaf {
      assert Kept(c0, c, c.leaf[k].frame);
    }
  }

  /** Fork, finished or not, then teardown of the child: every page and every count is as before. */
  lemma ForkUndone(c0: Cow, c1: Cow, c2: Cow, root: nat, child: nat)
    requires Counted(c0) && root != child && Stopped(c0, c1, root, child) && TornDown(c1, c2, child)
    requires forall k :: k in c0.leaf ==> k.0 != child
    ensures c2.data == c0.data && forall x :: x in c0.data ==> c2.ref[x] == c0.ref[x]
  {
    ConservedChain(c0, c1, c2);
    forall x | x in c0.data ensures |Refs(c2.leaf, x)| == |Refs(c0.leaf, x)| {
      UndoneRefs(c0.leaf, c1.leaf, c2.leaf, root, child, x);
    }
    Restored(c0, c2);
  }

  lemma UndoneRefs(l0: Leaves, l1: Leaves, l2: Leaves, root: nat, child: nat, x: nat)
    requires Sharing(l0, l1, root, child) && l2 == (map k | k in l1 && k.0 != child :: l1[k])
    requires forall k :: k in l0 ==> k.0 != child
    ensures Refs(l2, x) == Refs(l0, x)
  {
    forall k: Key ensures k in Refs(l2, x) <==> k in Refs(l0, x) {
    }
  }

  /** Counts of frames outside the pages in use do not matter. */
  lemma StoppedSame(b: Cow, c0: Cow, c: Cow, root: nat, child: nat)
    requires SameCow(b, c0) && Counted(b) && Stopped(c0, c, root, child)
    ensures Stopped(b, c, root, child)
  {
    forall x | x in b.data ensures Kept(b, c, x) { assert Kept(c0, c, x); }
  }

  /** Every page in use and its count are the same. */
  ghost predicate SameCounts(c0: Cow, c: Cow) {
    c.data == c0.data && forall x :: x in c0.data ==> x in c0.ref && x in c.ref && c.ref[x] == c0.ref[x]
  }

  /** A fork that stopped, with the child torn down: nothing changed but that some pages are read-only. */
  lemma ForkFailed(b: Cow, c0: Cow, c1: Cow, c2: Cow, root: nat, child: nat)
    requires SameCow(b, c0) && Counted(b) && root != child && Stopped(c0, c1, root, child) && TornDown(c1, c2, child)
    requires forall k :: k in b.leaf ==> k.0 != child
    ensures SameCounts(b, c2) && forall k :: View(c2, k) == View(b, k)
    ensures Conserved(b, c2) && c2.leaf.Keys == b.leaf.Keys
  {
    StoppedSame(b, c0, c1, root, child);
    ForkUndone(b, c1, c2, root, child);
    ConservedChain(b, c1, c2);
    forall k ensures View(c2, k) == View(b, k) {
      if k.0 != child {
        StoppedView(b, c1, root, child, k);
        TornDownView(c1, c2, child, k);
      }
    }
  }

  lemma ForkDone(b: Cow, c0: Cow, c: Cow, root: nat, child: nat)
    requires SameCow(b, c0) && Counted(b) && Forked(c0, c, root, child)
    ensures Forked(b, c, root, child)
  {
    StoppedSame(b, c0, c, root, child);
  }
}
