/**
 map_page, unmap_page, user_page_present, fork, page faults and teardown on page tables in memory.
 */
module AddressSpace {
  import opened Basics
  import opened PageWalk
  import opened PageMap
  import opened PageFlat
  import opened PageClone
  import opened ForkCost
  import opened CowState
  import opened CowProgress

  /** t' maps page v of root to the target and changes nothing else, except that address spaces
      sharing the PML4 slot of v may see the same target there. */
  ghost predicate MappedOnly(t: Tables, t': Tables, pl: Places, root: nat, v: nat, target: Option<Target>) {
    && Mapping(t', root, v) == target
    && forall r: nat, w: nat {:trigger Mapping(t', r, w)} :: IsRoot(pl, r) && InSpace(w) && (r, w) != (root, v) ==>
         || Mapping(t', r, w) == Mapping(t, r, w)
         || (w == v && OwnerOf(root, Digit(v, 3)).Shared? && Mapping(t', r, w) == target)
  }

  lemma PutMappedOnly(t: Tables, pl: Places, f: nat, i: nat, e: Pte, root: nat, v: nat)
    requires WellPlaced(t, pl) && IsRoot(pl, root) && InSpace(v)
    requires f in pl && TablePlaced(t, pl, f) && pl[f].level == 0 && i < ENTRIES && Visits(t, pl, f, i, root, v)
    ensures MappedOnly(t, Put(t, f, i, e), pl, root, v, if e.present then Some(Target(e.frame, e.rw, e.user)) else None)
  {
    var t' := Put(t, f, i, e);
    var target := if e.present then Some(Target(e.frame, e.rw, e.user)) else None;
    PutLeaf(t, pl, f, i, e, root, v, root, v);
    forall r: nat, w: nat | IsRoot(pl, r) && InSpace(w) && (r, w) != (root, v) ensures
      || Mapping(t', r, w) == Mapping(t, r, w)
      || (w == v && OwnerOf(root, Digit(v, 3)).Shared? && Mapping(t', r, w) == target)
    {
      PutLeaf(t, pl, f, i, e, root, v, r, w);
    }
  }

  lemma MappedAfter(t: Tables, mid: Tables, t': Tables, pl: Places, pl': Places, root: nat, v: nat,
      target: Option<Target>)
    requires SameMappings(t, mid, pl) && (forall r :: IsRoot(pl', r) <==> IsRoot(pl, r))
    requires MappedOnly(mid, t', pl', root, v, target)
    ensures MappedOnly(t, t', pl, root, v, target)
  {
  }

  lemma GrowWalk(t: Tables, pl: Places, f: nat, i: nat, g: nat, user: bool, root: nat, v: nat)
    requires CanAttach(t, pl, f, i, g) && IsRoot(pl, root) && InSpace(v) && Visits(t, pl, f, i, root, v)
    ensures Walk(Grow(t, f, i, g, user), root, v, pl[f].level - 1) == Some(g)
  {
    AttachWalk(t, pl, f, i, g, NewTable(t[f][i]), TableEntry(g, user), root, v);
  }

  lemma FlatAt(t: Tables, pl: Places, f: nat, root: nat, v: nat)
    requires Sound(t, pl) && IsRoot(pl, root) && InSpace(v) && Walk(t, root, v, 0) == Some(f)
    ensures f in pl && TablePlaced(t, pl, f) && pl[f].level == 0
    ensures UserPage(v) ==> ((root, v) in Flat(t, pl) <==> t[f][Digit(v, 0)].present)
    ensures UserPage(v) && t[f][Digit(v, 0)].present ==> Flat(t, pl)[(root, v)] == t[f][Digit(v, 0)]
  {
    WalkPlace(t, pl, root, v, 0);
    assert UserPage(v) ==> (root, v) in Keys(pl);
  }

  lemma HugeShared(t: Tables, pl: Places, f: nat, root: nat, v: nat)
    requires Sound(t, pl) && IsRoot(pl, root) && InSpace(v) && Walk(t, root, v, 1) == Some(f)
    requires t[f][Digit(v, 1)].present && t[f][Digit(v, 1)].ps
    ensures !UserPage(v) && Walk(t, root, v, 0) == None
  {
    WalkPlace(t, pl, root, v, 1);
    UserOwner(root, v);
  }

  lemma Unmapped(t: Tables, pl: Places, root: nat, v: nat)
    requires Trans(t, root, v) == None
    ensures (root, v) !in Flat(t, pl)
    ensures Flat(t, pl) - {(root, v)} == Flat(t, pl)
    ensures Walk(t, root, v, 0).Some? ==> MappedOnly(t, t, pl, root, v, None)
  {
  }

  /** A zero page, writable, at k, if there were the frames for it. */
  ghost predicate FreshAt(c0: Cow, c: Cow, k: Key, ok: bool) {
    && Touched(c0, c, k, ok, 1) && (ok ==> k in c.leaf && FirstRights(c.leaf[k]))
    && forall j :: View(c, j) == if ok && j == k then ZeroPage() else View(c0, j)
  }

  /** Mapping a fresh zero page writable, over whatever was mapped there. */
  lemma FreshOver(c: Cow, d: Cow, k: Key, g: nat)
    requires Counted(c) && Sole(c.leaf) && g in c.data && c.data[g] == ZeroPage() && Refs(c.leaf, g) == {}
    requires SameCow(MapStep(c, k, Pte(true, true, true, false, false, g)), d)
    ensures Counted(d) && Sole(d.leaf) && k in d.leaf && FirstRights(d.leaf[k])
    ensures forall j :: View(d, j) == if j == k then ZeroPage() else View(c, j)
  {
    var e := Pte(true, true, true, false, false, g);
    assert !Rebinds(c, k, g) by { assert k !in Refs(c.leaf, g); }
    MapCounted(c, k, e);
    SameCounted(MapStep(c, k, e), d);
    PutSole(c.leaf, k, e);
    forall j ensures View(d, j) == if j == k then ZeroPage() else View(c, j) { MapView(c, k, e, j); }
  }

  lemma FreshTouched(c0: Cow, d: Cow, k: Key, g: nat)
    requires Counted(c0) && g in c0.ref && g !in c0.data
    requires SameCow(MapStep(Fresh(c0, g, ZeroPage()), k, Pte(true, true, true, false, false, g)), d)
    ensures Touched(c0, d, k, true, 1) && k in d.leaf && FirstRights(d.leaf[k])
  {
    MapAccounted(c0, d, k, g, ZeroPage(), Pte(true, true, true, false, false, g));
  }

  lemma FreshMapped(c0: Cow, d: Cow, k: Key, g: nat)
    requires Counted(c0) && Sole(c0.leaf) && g in c0.ref && g !in c0.data
    requires SameCow(MapStep(Fresh(c0, g, ZeroPage()), k, Pte(true, true, true, false, false, g)), d)
    ensures Counted(d) && Sole(d.leaf) && FreshAt(c0, d, k, true)
  {
    FreshKeeps(c0, g, ZeroPage());
    FreshOver(Fresh(c0, g, ZeroPage()), d, k, g);
    FreshTouched(c0, d, k, g);
  }

  lemma NotMapped(c0: Cow, d: Cow, k: Key, g: nat)
    requires Counted(c0) && Sole(c0.leaf) && g in c0.ref && g !in c0.data && SameCow(Fresh(c0, g, ZeroPage()), d)
    ensures Counted(d) && Sole(d.leaf) && g in d.data && Refs(d.leaf, g) == {} && FreshAt(c0, Discard(d, g), k, false)
  {
    FreshKeeps(c0, g, ZeroPage());
    SameCounted(Fresh(c0, g, ZeroPage()), d);
    DiscardKeeps(d, g);
    DiscardAccounted(c0, d, g, ZeroPage(), 1);
  }

  /** There are the same address spaces. */
  ghost predicate SameRoots(p0: Places, p: Places) {
    forall r :: IsRoot(p, r) <==> IsRoot(p0, r)
  }

  /** Why a store to page k may be refused: a page to be copied finds no frame, or one that is not mapped finds too few
      for itself and its tables. */
  ghost predicate Starved(c: Cow, free: set<nat>, k: Key) {
    if k in c.leaf then
      && !c.leaf[k].rw && free == {} && c.leaf[k].frame in c.ref && c.ref[c.leaf[k].frame] > 1
    else |free| < 4
  }

  /** The frames a store to page k may take. */
  ghost function StoreCost(c: Cow, k: Key): nat {
    if k in c.leaf then 1 else 4
  }

  /** References beside its leaf that a page new in memory has after a store: none for a copy, one for a first touch. */
  ghost function NewSlack(c: Cow, k: Key): nat {
    if k in c.leaf then 0 else 1
  }

  /** Page k is writable for its address space alone, or there was no frame for that; nobody reads anything else. */
  ghost predicate MadeWritable(c0: Cow, free0: set<nat>, c: Cow, free: set<nat>, k: Key, ok: bool) {
    && SameViews(c0, c) && Touched(c0, c, k, ok, NewSlack(c0, k))
    && (if ok then k in c.leaf && c.leaf[k].rw && Granted(c0.leaf, c.leaf, k) else Starved(c0, free0, k))
    && (k in c0.leaf && c0.leaf[k].rw ==> ok && c == c0 && free == free0)
  }

  /** A store that succeeds is seen by one address space at one byte, one that is refused by nobody. */
  ghost predicate StoredByte(c0: Cow, c: Cow, k: Key, off: nat, b: bv8, ok: bool) {
    && off < 4096 && Touched(c0, c, k, ok, NewSlack(c0, k)) && (ok ==> Granted(c0.leaf, c.leaf, k))
    && forall j :: View(c, j) == if ok && j == k then View(c0, j)[off := b] else View(c0, j)
  }

  lemma StoreDone(c0: Cow, c1: Cow, c2: Cow, k: Key, off: nat, b: bv8)
    requires off < 4096 && SameViews(c0, c1) && Touched(c0, c1, k, true, NewSlack(c0, k))
    requires Granted(c0.leaf, c1.leaf, k)
    requires Counted(c1) && Sole(c1.leaf) && k in c1.leaf && c1.leaf[k].rw
    requires c2 == Store(c1, k, PutByte(View(c1, k), off, b))
    ensures StoredByte(c0, c2, k, off, b, true)
  {
    StoreTouched(c0, c1, c2, k, PutByte(View(c1, k), off, b), NewSlack(c0, k));
    StoreKeeps(c1, k, PutByte(View(c1, k), off, b));
  }

  lemma MappedLeaf(t: Tables, pl: Places, root: nat, v: nat)
    requires IsRoot(pl, root) && UserPage(v)
    ensures Mapping(t, root, v).Some? <==> (root, v) in Flat(t, pl)
    ensures Digit(v, 3) < 256
  {
    UserOwner(root, v);
    assert (root, v) in Keys(pl);
  }

  /** The tables of an address space that is gone are back in the pool. */
  lemma TablesPooled(c0: Cow, p0: Places, free0: set<nat>, c: Cow, p: Places, free: set<nat>, root: nat)
    requires FramesApart(p0.Keys, c0, free0) && FramesApart(p.Keys, c, free) && c.ref.Keys == c0.ref.Keys
    requires TornDown(c0, c, root)
    requires Fewer(p0, p) && forall h :: h in p ==> p[h].owner != Private(root)
    ensures free0 <= free && forall h :: h in Owned(p0, root) && h in c0.ref ==> h in free
  {
    forall h | h in free0 ensures h in free {
      assert c.ref[h] == c.ref[h];
      assert h !in p && h !in c.data;
    }
    forall h | h in Owned(p0, root) && h in c0.ref ensures h in free {
      assert c.ref[h] == c.ref[h];
      assert h !in p;
      assert h !in c.data;
    }
  }

  class Memory {
    var tables: Tables
    var ref: map<nat, nat>
    var data: map<nat, Page>
    var free: set<nat>
    /** The frames the allocator manages: those that have a descriptor. */
    const frames: set<nat>
    ghost var places: Places
    /** The tables as walks of living address spaces see them; differs from tables only while an
        address space is being freed. */
    ghost var live: Tables

    /** One address space with nothing mapped, over a set of frames. */
    constructor (all: set<nat>, root: nat)
      requires root in all
      ensures Valid() && frames == all && free == all - {root} && places == map[root := Place(Private(root), 3, 0)]
      ensures forall r :: IsRoot(places, r) <==> r == root
      ensures C().leaf == map[] && forall k :: View(C(), k) == ZeroPage()
    {
      frames, free := all, all - {root};
      tables, live := map[root := NoEntries()], map[root := NoEntries()];
      ref := map x | x in all :: if x == root then 1 else 0;
      data := map[];
      places := map[root := Place(Private(root), 3, 0)];
      new;
      EmptyRoot(root);
    }

    ghost function C(): Cow
      reads this
    {
      Cow(Flat(live, places), ref, data)
    }

    ghost predicate Tree()
      reads this
    {
      tables == live && Sound(live, places) && FramesApart(live.Keys, C(), free) && ref.Keys == frames
    }

    method InstallTable(f: nat, i: nat, g: nat, user: bool)
      requires CanAttach(tables, places, f, i, g)
      modifies this
      ensures tables == Grow(old(tables), f, i, g, user) && live == tables
      ensures places == old(places)[g := Below(f, old(places)[f], i)]
      ensures ref == old(ref)[g := 1] && free == old(free) - {g} && data == old(data)
    {
      assert TablePlaced(tables, places, f);
      var e := tables[f][i];
      tables := tables[g := NewTable(e)];
      tables := Put(tables, f, i, TableEntry(g, user));
      ref, free := ref[g := 1], free - {g};
      live, places := tables, places[g := Below(f, places[f], i)];
    }

    /** A frame from the pool becomes a table in entry i of f. */
    method AddTable(f: nat, i: nat, user: bool) returns (g: nat)
      requires Tree() && free != {} && f in places && TablePlaced(live, places, f) && places[f].level > 0 && i < ENTRIES
      requires !Leads(live[f][i], places[f].level)
      modifies this
      ensures Tree() && SameRoots(old(places), places)
      ensures g in old(free) && tables == Grow(old(tables), f, i, g, user)
      ensures places == old(places)[g := Below(f, old(places)[f], i)]
      ensures SameMappings(old(tables), tables, old(places)) && SameCow(old(C()), C()) && free == old(free) - {g}
    {
      g :| g in free;
      GrowSound(tables, places, f, i, g, user);
      GrowMappings(tables, places, f, i, g, user);
      GrowFlat(tables, places, f, i, g, user);
      TabledKeeps(tables.Keys, C(), g, free);
      assert Grow(tables, f, i, g, user).Keys == tables.Keys + {g};
      InstallTable(f, i, g, user);
    }

    /** One table on the way to page v: follow it, add an empty one, or split a 2 MiB entry. */
    method EnsureTable(f: nat, level: nat, v: nat, user: bool, ghost root: nat) returns (ok: bool, g: nat)
      requires Tree() && IsRoot(places, root) && InSpace(v) && 0 < level <= 3
      requires Walk(tables, root, v, level) == Some(f)
      modifies this
      ensures Tree() && SameRoots(old(places), places)
      ensures SameMappings(old(tables), tables, old(places)) && SameCow(old(C()), C())
      ensures ok ==> Walk(tables, root, v, level - 1) == Some(g)
      ensures !ok ==> old(free) == {}
      ensures Spent(old(places), old(free), places, free, 1)
    {
      WalkPlace(tables, places, root, v, level);
      assert TablePlaced(tables, places, f);
      var i := Digit(v, level);
      var e := tables[f][i];
      g := e.frame;
      if Leads(e, level) {
        assert ChildPlaced(tables, places, f, i);
        assert TablePlaced(tables, places, g);
      } else {
        if free == {} { return false, 0; }
        g := AddTable(f, i, user);
        SpentTable(old(places), old(free), g, places[g]);
        GrowWalk(old(tables), old(places), f, i, g, user, root, v);
      }
      ok := true;
    }

    /** The page table for v, made if need be.  Whether or not it succeeds, every page stays mapped
        as it was. */
    method EnsurePath(root: nat, v: nat, user: bool) returns (ok: bool, f: nat)
      requires Tree() && IsRoot(places, root) && InSpace(v)
      modifies this
      ensures Tree() && SameRoots(old(places), places)
      ensures SameMappings(old(tables), tables, old(places)) && SameCow(old(C()), C())
      ensures ok ==> Walk(tables, root, v, 0) == Some(f)
      ensures !ok ==> |old(free)| < 3
      ensures Spent(old(places), old(free), places, free, 3)
    {
      assert TablePlaced(tables, places, root);
      f := root;
      var level := 3;
      ok := true;
      while level > 0
        invariant 0 <= level <= 3 && Tree() && SameRoots(old(places), places)
        invariant SameMappings(old(tables), tables, old(places)) && SameCow(old(C()), C())
        invariant Walk(tables, root, v, level) == Some(f) && Spent(old(places), old(free), places, free, 3 - level)
      {
        ghost var p1, f1 := places, free;
        ok, f := EnsureTable(f, level, v, user, root);
        SpentMore(old(places), old(free), p1, f1, places, free, 3 - level, 1, 4 - level);
        if !ok { return; }
        level := level - 1;
      }
    }

    /** One reference to frame x less; the last one gives the frame back. */
    method ReleaseFrame(x: nat)
      modifies this`ref, this`data, this`free
      ensures C() == Release(old(C()), x)
      ensures free == if x in old(ref) && old(ref)[x] == 1 then old(free) + {x} else old(free)
    {
      if x in ref && ref[x] != 0 {
        if ref[x] == 1 {
          data, free := data - {x}, free + {x};
        }
        ref := ref[x := ref[x] - 1];
      }
    }

    method RetainFrame(x: nat)
      modifies this`ref
      ensures C() == Retain(old(C()), x)
    {
      if x in ref {
        ref := ref[x := ref[x] + 1];
      }
    }

    /** Writes the leaf entry for page v, in the page table f. */
    method SetLeaf(f: nat, e: Pte, ghost root: nat, v: nat)
      requires tables == live && Sound(live, places) && IsRoot(places, root) && InSpace(v)
      requires Walk(live, root, v, 0) == Some(f)
      modifies this`tables, this`live
      ensures f in old(tables) && tables == Put(old(tables), f, Digit(v, 0), e)
      ensures tables == live && Sound(live, places) && tables.Keys == old(tables.Keys)
      ensures MappedOnly(old(tables), tables, places, root, v, if e.present then Some(Target(e.frame, e.rw, e.user))
        else None)
      ensures UserPage(v) ==>
        C().leaf == if e.present then old(C().leaf)[(root, v) := e] else old(C().leaf) - {(root, v)}
    {
      WalkPlace(tables, places, root, v, 0);
      var i := Digit(v, 0);
      assert TablePlaced(tables, places, f);
      PutSound(tables, places, f, i, e);
      PutMappedOnly(tables, places, f, i, e, root, v);
      if UserPage(v) { PutFlat(tables, places, f, i, e, root, v); }
      tables := Put(tables, f, i, e);
      live := tables;
    }

    /** Takes away the reference that the leaf entry for page v holds. */
    method ForgetLeaf(f: nat, ghost root: nat, v: nat)
      requires Sound(live, places) && IsRoot(places, root) && InSpace(v) && Walk(live, root, v, 0) == Some(f)
      requires HasTable(tables, f) && tables[f][Digit(v, 0)] == live[f][Digit(v, 0)]
      modifies this`ref, this`data, this`free
      ensures UserPage(v) ==> C() == Forget(old(C()), (root, v)) && free == old(free) + Freed(old(C()), (root, v))
    {
      FlatAt(live, places, f, root, v);
      var was := tables[f][Digit(v, 0)];
      if was.present {
        ReleaseFrame(was.frame);
      }
    }

    /** The leaf part of map_page: drop what was mapped, write the entry, count the new page. */
    method MapLeaf(f: nat, e: Pte, ghost root: nat, v: nat)
      requires Tree() && IsRoot(places, root) && InSpace(v) && e.present && Walk(live, root, v, 0) == Some(f)
      modifies this`tables, this`ref, this`data, this`free, this`live
      ensures tables == live && Sound(live, places) && tables.Keys == old(tables.Keys)
      ensures MappedOnly(old(tables), tables, places, root, v, Some(Target(e.frame, e.rw, e.user)))
      ensures UserPage(v) ==> C() == MapStep(old(C()), (root, v), e)
      ensures UserPage(v) ==> free == old(free) + Freed(old(C()), (root, v))
    {
      WalkPlace(tables, places, root, v, 0);
      ForgetLeaf(f, root, v);
      SetLeaf(f, e, root, v);
      RetainFrame(e.frame);
    }

    method MapPage(root: nat, v: nat, e: Pte) returns (ok: bool)
      requires Tree() && IsRoot(places, root) && InSpace(v) && e.present
      modifies this
      ensures tables == live && Sound(live, places) && SameRoots(old(places), places)
      ensures ok ==> MappedOnly(old(tables), tables, old(places), root, v, Some(Target(e.frame, e.rw, e.user)))
      ensures !ok ==>
        SameMappings(old(tables), tables, old(places)) && SameCow(old(C()), C()) && Tree() && |old(free)| < 3
      ensures ok && UserPage(v) && e.frame in old(data) && Counted(old(C())) ==>
        SameCow(MapStep(old(C()), (root, v), e), C()) && Tree()
      ensures UserPage(v) ==> Spent(old(places), old(free), places, free, 3)
    {
      var f;
      ok, f := EnsurePath(root, v, e.user);
      if !ok { return; }
      ghost var mid, c, fr := tables, C(), free;
      MapLeaf(f, e, root, v);
      if UserPage(v) { SpentBack(old(places), old(free), places, fr, free, 3); }
      MappedAfter(old(tables), mid, tables, old(places), places, root, v, Some(Target(e.frame, e.rw, e.user)));
      if UserPage(v) && e.frame in old(data) && Counted(old(C())) {
        MapSame(old(C()), c, (root, v), e);
        MapApart(mid.Keys, c, (root, v), e, fr);
      }
    }

    // ---------- Reading the tables ----------

    /** Walks down for page v: to its page table, or to a page directory with a 2 MiB entry. */
    method Descend(root: nat, v: nat) returns (found: bool, huge: bool, f: nat)
      requires tables == live && Sound(live, places) && IsRoot(places, root) && InSpace(v)
      ensures found ==> !huge && Walk(live, root, v, 0) == Some(f)
      ensures huge ==> Walk(live, root, v, 1) == Some(f) && live[f][Digit(v, 1)].present && live[f][Digit(v, 1)].ps
      ensures !found && !huge ==> Trans(live, root, v) == None
    {
      assert TablePlaced(live, places, root);
      f := root;
      var level := 3;
      while level > 0
        invariant 0 <= level <= 3 && Walk(live, root, v, level) == Some(f)
      {
        WalkPlace(live, places, root, v, level);
        assert TablePlaced(live, places, f);
        assert ChildPlaced(live, places, f, Digit(v, level));
        var e := tables[f][Digit(v, level)];
        if !Leads(e, level) {
          WalkEnded(live, root, v, level - 1, 0);
          if level > 1 { WalkEnded(live, root, v, level - 1, 1); }
          return false, e.present, f;
        }
        assert TablePlaced(live, places, e.frame);
        f, level := e.frame, level - 1;
      }
      found, huge := true, false;
    }

    method UserPagePresent(root: nat, v: nat) returns (b: bool)
      requires tables == live && Sound(live, places) && IsRoot(places, root) && InSpace(v)
      ensures b <==> Digit(v, 3) < 256 && Mapping(tables, root, v).Some?
    {
      if Digit(v, 3) >= 256 { return false; }
      var found, huge, f := Descend(root, v);
      if huge {
        WalkPlace(live, places, root, v, 1);
        assert Walk(live, root, v, 0) == None;
        return true;
      }
      if !found { return false; }
      WalkPlace(live, places, root, v, 0);
      assert TablePlaced(live, places, f);
      b := tables[f][Digit(v, 0)].present;
    }

    /** Clears the entry of a 4 KiB page; a page inside a 2 MiB entry stays mapped. */
    method UnmapPage(root: nat, v: nat)
      requires Tree() && IsRoot(places, root) && InSpace(v)
      modifies this`tables, this`live
      ensures Tree()
      ensures Walk(old(tables), root, v, 0).Some? ==> MappedOnly(old(tables), tables, places, root, v, None)
      ensures Walk(old(tables), root, v, 0).None? ==> tables == old(tables)
      ensures UserPage(v) ==> C() == ClearStep(old(C()), (root, v))
    {
      var found, huge, f := Descend(root, v);
      if found {
        FlatAt(live, places, f, root, v);
        if tables[f][Digit(v, 0)].present {
          SetLeaf(f, EMPTY, root, v);
        } else {
          Unmapped(live, places, root, v);
        }
      } else if huge {
        HugeShared(live, places, f, root, v);
      } else {
        Unmapped(live, places, root, v);
      }
    }

    // ---------- Page faults ----------

    /** Tables, counts and contents of all address spaces fit together. */
    ghost predicate Valid()
      reads this
    {
      Tree() && Counted(C()) && Sole(C().leaf)
    }

    method UseFrame(g: nat, page: Page)
      modifies this`ref, this`data, this`free
      ensures C() == Fresh(old(C()), g, page) && free == old(free) - {g}
    {
      ref, data, free := ref[g := 1], data[g := page], free - {g};
    }

    method AllocPage() returns (ok: bool, g: nat)
      requires Valid()
      modifies this`ref, this`data, this`free
      ensures Valid() && SameViews(old(C()), C())
      ensures ok == (old(free) != {})
      ensures ok ==>
        g in old(free) && C() == Fresh(old(C()), g, ZeroPage()) && Refs(C().leaf, g) == {} && free == old(free) - {g}
      ensures !ok ==> C() == old(C()) && free == old(free)
    {
      if free == {} { return false, 0; }
      g :| g in free;
      FreshKeeps(C(), g, ZeroPage());
      ok, ref, data, free := true, ref[g := 1], data[g := ZeroPage()], free - {g};
    }

    method FreePage(g: nat)
      requires Valid() && g in data && Refs(C().leaf, g) == {}
      modifies this`data, this`free
      ensures Valid() && SameViews(old(C()), C()) && C() == Discard(old(C()), g) && free == old(free) + {g}
    {
      DiscardKeeps(C(), g);
      data, free := data - {g}, free + {g};
    }

    /** map_user_page of a page g just allocated; if that fails the page goes back.  The memory was c0 before, with
        tables p0 and pool f0. */
    method MapNew(root: nat, v: nat, g: nat, ghost c0: Cow, ghost p0: Places, ghost f0: set<nat>) returns (ok: bool)
      requires Valid() && IsRoot(places, root) && UserPage(v) && places == p0 && g in f0 && free == f0 - {g}
      requires FramesApart(live.Keys, c0, f0) && Counted(c0) && Sole(c0.leaf) && C() == Fresh(c0, g, ZeroPage())
      modifies this
      ensures Valid() && SameRoots(p0, places) && FreshAt(c0, C(), (root, v), ok)
      ensures (!ok ==> |f0| < 4) && Spent(p0, f0, places, free, 4)
    {
      UserOwner(root, v);
      ghost var f1 := free;
      ok := MapPage(root, v, Pte(true, true, true, false, false, g));
      SpentMore(p0, f0, p0, f1, places, free, 1, 3, 4);
      if ok {
        FreshMapped(c0, C(), (root, v), g);
      } else {
        ghost var d, f2 := C(), free;
        NotMapped(c0, d, (root, v), g);
        FreePage(g);
        SpentBack(p0, f0, places, f2, free, 4);
      }
    }

    /** alloc_page and map_user_page: a zero page, writable, in place of what was mapped. */
    method MapFresh(root: nat, v: nat) returns (ok: bool)
      requires Valid() && IsRoot(places, root) && UserPage(v)
      modifies this
      ensures Valid() && SameRoots(old(places), places) && FreshAt(old(C()), C(), (root, v), ok)
      ensures (!ok ==> |old(free)| < 4) && Spent(old(places), old(free), places, free, 4)
    {
      var g;
      ok, g := AllocPage();
      if ok {
        ok := MapNew(root, v, g, old(C()), old(places), old(free));
      } else {
        SameAccounted(C(), C(), 1);
      }
    }

    /** A user access to a page that is not present: map a zero page, writable. */
    method LazyFault(root: nat, v: nat) returns (ok: bool)
      requires Valid() && IsRoot(places, root) && UserPage(v) && (root, v) !in C().leaf
      modifies this
      ensures Valid() && SameRoots(old(places), places) && SameViews(old(C()), C())
      ensures FreshAt(old(C()), C(), (root, v), ok)
      ensures (!ok ==> |old(free)| < 4) && Spent(old(places), old(free), places, free, 4)
    {
      ok := MapFresh(root, v);
    }

    /** The page table that holds the leaf entry of a mapped user page. */
    method FindLeaf(root: nat, v: nat) returns (f: nat)
      requires Tree() && IsRoot(places, root) && UserPage(v) && (root, v) in C().leaf
      ensures InSpace(v) && Walk(live, root, v, 0) == Some(f) && HasTable(tables, f)
      ensures tables[f][Digit(v, 0)].present && C().leaf[(root, v)] == tables[f][Digit(v, 0)]
    {
      UserOwner(root, v);
      var found, huge, f' := Descend(root, v);
      f := f';
      if huge { HugeShared(live, places, f, root, v); }
      FlatAt(live, places, f, root, v);
    }

    /** Frame g takes over the contents of x, which is counted once less. */
    method TakeOver(g: nat, x: nat)
      requires x in data && x in ref && ref[x] > 1 && x != g
      modifies this`ref, this`data, this`free
      ensures C() == Release(Fresh(old(C()), g, old(data)[x]), x) && free == old(free) - {g}
    {
      UseFrame(g, data[x]);
      ReleaseFrame(x);
    }

    /** The copy of a shared page: a frame g of its own, the old one counted once less. */
    method CopyPage(f: nat, e: Pte, ghost root: nat, v: nat, g: nat)
      requires tables == live && Sound(live, places) && IsRoot(places, root) && UserPage(v) && (root, v) in C().leaf
      requires C().leaf[(root, v)] == e
      requires InSpace(v) && Walk(live, root, v, 0) == Some(f) && e.present && e.frame in data && e.frame in ref
      requires ref[e.frame] > 1 && g !in data
      modifies this`tables, this`ref, this`data, this`free, this`live
      ensures C() == CopyStep(old(C()), (root, v), g)
      ensures tables == live && Sound(live, places) && tables.Keys == old(tables.Keys) && free == old(free) - {g}
    {
      TakeOver(g, e.frame);
      SetLeaf(f, e.(rw := true, frame := g), root, v);
    }

    /** The steps of a write fault. */
    method FaultPage(root: nat, v: nat) returns (ok: bool, ghost g: nat)
      requires Valid() && IsRoot(places, root) && UserPage(v) && (root, v) in C().leaf
      modifies this`tables, this`ref, this`data, this`free, this`live
      ensures FaultStep(old(C()), old(free), C(), free, (root, v), ok, g)
      ensures tables == live && Sound(live, places) && tables.Keys == old(tables.Keys)
    {
      g := 0;
      var f := FindLeaf(root, v);
      var e := tables[f][Digit(v, 0)];
      if ref[e.frame] <= 1 {
        SetLeaf(f, e.(rw := true), root, v);
        return true, g;
      }
      if free == {} { return false, g; }
      var h :| h in free;
      g := h;
      CopyPage(f, e, root, v, h);
      ok := true;
    }

    /** A user write to a page that is present and read-only.  A page counted once stays where it is; a shared one gives
        way to a copy in a frame from the pool, and is counted once less. */
    method WriteFault(root: nat, v: nat) returns (ok: bool)
      requires Valid() && IsRoot(places, root) && UserPage(v) && (root, v) in C().leaf
      modifies this`tables, this`ref, this`data, this`free, this`live
      ensures Valid() && Resolved(old(C()), old(free), C(), free, (root, v), ok)
      ensures Spent(old(places), old(free), places, free, 1)
    {
      ghost var g;
      ok, g := FaultPage(root, v);
      FaultResolved(live.Keys, old(C()), old(free), C(), free, (root, v), ok, g);
    }

    // ---------- Fork ----------

    /** SetLeaf for a user page. */
    method SetUserLeaf(f: nat, e: Pte, ghost root: nat, v: nat)
      requires tables == live && Sound(live, places) && IsRoot(places, root) && UserPage(v) && e.present
      requires f in places && places[f] == Place(Private(root), 0, Up(v, 1))
      modifies this`tables, this`live
      ensures tables == live && Sound(live, places) && tables.Keys == old(tables.Keys)
      ensures C() == old(C()).(leaf := old(C()).leaf[(root, v) := e]) && Above(old(live), places, live, places, 0)
    {
      UserOwner(root, v);
      Reached(live, places, root, f, 0, v);
      FlatAt(live, places, f, root, v);
      AbovePut(live, places, f, Digit(v, 0), e, root, v);
      SetLeaf(f, e, root, v);
    }

    /** One more reference to a page, and a read-only entry for it in both page tables. */
    method ShareEntry(f: nat, g: nat, e: Pte, v: nat, ghost root: nat, ghost child: nat)
      requires tables == live && Sound(live, places) && IsRoot(places, root) && IsRoot(places, child) && UserPage(v)
      requires f in places && places[f] == Place(Private(root), 0, Up(v, 1)) && g in places
      requires places[g] == Place(Private(child), 0, Up(v, 1))
      requires (root, v) in C().leaf && e == C().leaf[(root, v)] && e.present
      modifies this`tables, this`ref, this`live
      ensures tables == live && Sound(live, places) && tables.Keys == old(tables.Keys)
      ensures C() == ShareStep(old(C()), (root, v), (child, v)) && Above(old(live), places, live, places, 0)
    {
      RetainFrame(e.frame);
      SetUserLeaf(f, Guarded(e), root, v);
      ghost var mid := live;
      SetUserLeaf(g, Guarded(e), child, v);
      AboveChain(old(live), places, mid, places, live, places, 0, 0);
    }

    /** One leaf of clone_current_pml4. */
    method CloneLeaf(f: nat, g: nat, v: nat, w: nat, ghost c0: Cow, ghost root: nat, ghost child: nat)
      requires Tree() && IsRoot(places, root) && IsRoot(places, child) && root != child && UserPage(v)
      requires f in places && places[f] == Place(Private(root), 0, Up(v, 1)) && g in places
      requires places[g] == Place(Private(child), 0, Up(v, 1))
      requires Cloning(c0, C(), root, child, 0, v) && w == v + 1
      modifies this`tables, this`ref, this`live
      ensures Tree() && Cloning(c0, C(), root, child, 0, w) && Above(old(live), places, live, places, 0)
    {
      UserOwner(root, v);
      Reached(live, places, root, f, 0, v);
      FlatAt(live, places, f, root, v);
      var e := tables[f][Digit(v, 0)];
      if e.present {
        CloningShare(c0, C(), root, child, v, w);
        ShareEntry(f, g, e, v, root, child);
      } else {
        CloningSkip(c0, C(), root, child, 0, v, w);
      }
    }

    /** All leaves of a page table. */
    method ClonePageTable(f: nat, g: nat, first: nat, last: nat, ghost c0: Cow, ghost root: nat, ghost child: nat)
      requires Tree() && IsRoot(places, root) && IsRoot(places, child) && root != child
      requires first % ENTRIES == 0 && UserPrefix(first / ENTRIES, 0) && last == first + ENTRIES
      requires At(places, root, f, 0, first / ENTRIES) && At(places, child, g, 0, first / ENTRIES)
      requires Cloning(c0, C(), root, child, 0, first)
      modifies this`tables, this`ref, this`live
      ensures Tree() && Cloning(c0, C(), root, child, 0, last) && Above(old(live), places, live, places, 0)
    {
      var v := first;
      while v < last
        invariant first <= v <= last && Tree() && Cloning(c0, C(), root, child, 0, v)
        invariant Above(old(live), places, live, places, 0)
      {
        PageUnder(v, first);
        ghost var mid := live;
        var w := v + 1;
        CloneLeaf(f, g, v, w, c0, root, child);
        AboveChain(old(live), places, mid, places, live, places, 0, 0);
        v := w;
      }
      CloningAt(c0, C(), root, child, 0, v, last);
    }

    /** An empty table at position n of the child. */
    method AddChild(g: nat, level: nat, n: nat, ghost child: nat) returns (h: nat)
      requires Tree() && free != {} && 0 < level <= 3 && At(places, child, g, level, n / ENTRIES)
      requires (level == 3 ==> 1 <= n < 256)
      requires HasTable(live, g) && !live[g][n % ENTRIES].present
      modifies this
      ensures Tree() && SameCow(old(C()), C()) && Above(old(live), old(places), live, places, level) && Blank(live, h)
      ensures h in old(free) && free == old(free) - {h} && h !in old(places)
      ensures places == old(places)[h := Place(Private(child), level - 1, n)]
      ensures g in live && live[g] == old(live[g])[n % ENTRIES := live[g][n % ENTRIES]]
    {
      assert TablePlaced(live, places, g);
      BelowIs(child, g, level, n);
      h := AddTable(g, n % ENTRIES, false);
      AboveGrow(old(live), old(places), g, n % ENTRIES, h, false);
    }

    /** AddChild, with the frame accounted for. */
    method PayChild(g: nat, level: nat, n: nat, ghost f: nat, ghost root: nat, ghost child: nat, ghost had: nat,
        ghost base: Places)
      returns (h: nat)
      requires Tree() && free != {} && 0 < level <= 3 && At(places, child, g, level, n / ENTRIES)
      requires (level == 3 ==> 1 <= n < 256)
      requires HasTable(live, g) && !live[g][n % ENTRIES].present
      requires Paid(places, free, root, child, had, base) && root != child && At(places, root, f, level - 1, n)
      modifies this
      ensures Tree() && SameCow(old(C()), C()) && Above(old(live), old(places), live, places, level)
      ensures At(places, child, h, level - 1, n) && Blank(live, h) && Paid(places, free, root, child, had, base)
      ensures At(places, root, f, level - 1, n)
      ensures g in live && live[g] == old(live[g])[n % ENTRIES := live[g][n % ENTRIES]]
    {
      h := AddChild(g, level, n, child);
      PaidTable(old(places), old(free), root, child, had, base, h, f, level - 1, n);
    }

    /** Position n of a table above the page tables: make the child's table and clone into it. */
    method CloneEntry(f: nat, g: nat, level: nat, n: nat, w: nat, ghost c0: Cow, ghost root: nat, ghost child: nat,
        ghost had: nat, ghost base: Places)
      returns (ok: bool)
      requires Tree() && IsRoot(places, root) && IsRoot(places, child) && root != child && 0 < level <= 3
      requires UserPrefix(n, level - 1)
      requires At(places, root, f, level, n / ENTRIES) && At(places, child, g, level, n / ENTRIES)
      requires (level == 3 ==> 1 <= n < 256 && g == child)
      requires HasTable(live, g) && !live[g][n % ENTRIES].present
      requires Cloning(c0, C(), root, child, level, n) && w == n + 1
      requires Paid(places, free, root, child, had, base)
      modifies this
      ensures Tree() && Above(old(live), old(places), live, places, level)
      ensures g in live && live[g] == old(live[g])[n % ENTRIES := live[g][n % ENTRIES]]
      ensures Paid(places, free, root, child, had, base)
      ensures ok ==> Cloning(c0, C(), root, child, level, w)
      ensures !ok ==> Stopped(c0, C(), root, child) && had < |Owned(base, root)|
      decreases level, 0
    {
      ChildAt(live, places, root, f, level, n);
      SameEntryPut(live[g], n % ENTRIES);
      var e := tables[f][n % ENTRIES];
      if !e.present {
        VacantBelow(live, places, root, f, level, n);
        CloningSkip(c0, C(), root, child, level, n, w);
        ok := true;
      } else if free == {} {
        CloningStopped(c0, C(), root, child, level, n);
        Short(live, places, root, child, g, level, n, e.frame, had, base);
        ok := false;
      } else {
        ok := CloneInto(e.frame, g, level, n, w, c0, root, child, had, base);
      }
    }

    /** PayChild, ready to clone what lies under position n. */
    method OpenChild(g: nat, level: nat, n: nat, first: nat, ghost c0: Cow, ghost f: nat, ghost root: nat,
        ghost child: nat, ghost had: nat, ghost base: Places)
      returns (h: nat)
      requires Tree() && free != {} && 0 < level <= 3 && At(places, child, g, level, n / ENTRIES)
      requires (level == 3 ==> 1 <= n < 256)
      requires HasTable(live, g) && !live[g][n % ENTRIES].present && first == n * ENTRIES
      requires Cloning(c0, C(), root, child, level, n)
      requires Paid(places, free, root, child, had, base) && root != child && At(places, root, f, level - 1, n)
      modifies this
      ensures Paid(places, free, root, child, had, base)
      ensures Tree() && Cloning(c0, C(), root, child, level - 1, first)
      ensures Above(old(live), old(places), live, places, level)
      ensures At(places, child, h, level - 1, n) && Blank(live, h) && At(places, root, f, level - 1, n)
      ensures g in live && live[g] == old(live[g])[n % ENTRIES := live[g][n % ENTRIES]]
    {
      ghost var c := C();
      h := PayChild(g, level, n, f, root, child, had, base);
      CloningSame(c0, c, C(), root, child, level, n);
      CloningDown(c0, C(), root, child, level, n, first);
    }

    method CloneInto(f: nat, g: nat, level: nat, n: nat, w: nat, ghost c0: Cow, ghost root: nat, ghost child: nat,
        ghost had: nat, ghost base: Places)
      returns (ok: bool)
      requires Tree() && IsRoot(places, root) && IsRoot(places, child) && root != child && 0 < level <= 3
      requires UserPrefix(n, level - 1)
      requires At(places, root, f, level - 1, n) && At(places, child, g, level, n / ENTRIES)
      requires (level == 3 ==> 1 <= n < 256)
      requires HasTable(live, g) && !live[g][n % ENTRIES].present && free != {}
      requires Cloning(c0, C(), root, child, level, n) && w == n + 1
      requires Paid(places, free, root, child, had, base)
      modifies this
      ensures Tree() && Above(old(live), old(places), live, places, level)
      ensures g in live && live[g] == old(live[g])[n % ENTRIES := live[g][n % ENTRIES]]
      ensures Paid(places, free, root, child, had, base)
      ensures ok ==> Cloning(c0, C(), root, child, level, w)
      ensures !ok ==> Stopped(c0, C(), root, child) && had < |Owned(base, root)|
      decreases level - 1, 3
    {
      var first, last := n * ENTRIES, w * ENTRIES;
      FirstUnder(n, first);
      var h := OpenChild(g, level, n, first, c0, f, root, child, had, base);
      ghost var mid, midp := live, places;
      ok := CloneTable(f, h, level - 1, first, last, c0, root, child, had, base);
      AboveChain(old(live), old(places), mid, midp, live, places, level, level - 1);
      if ok { CloningUp(c0, C(), root, child, level, w, last); }
    }

    /** One turn of the loop over a table. */
    method CloneTurn(f: nat, g: nat, level: nat, first: nat, n: nat, w: nat, ghost c0: Cow, ghost l0: Tables,
        ghost p0: Places, ghost root: nat, ghost child: nat, ghost had: nat, ghost base: Places)
      returns (ok: bool)
      requires Tree() && IsRoot(places, root) && IsRoot(places, child) && root != child && 0 < level <= 2 && w == n + 1
      requires first % ENTRIES == 0 && UserPrefix(first / ENTRIES, level) && first <= n < first + ENTRIES
      requires At(places, root, f, level, first / ENTRIES) && At(places, child, g, level, first / ENTRIES)
      requires Cloning(c0, C(), root, child, level, n) && Above(l0, p0, live, places, level)
      requires BlankFrom(live, g, n - first)
      requires Paid(places, free, root, child, had, base)
      modifies this
      ensures Tree() && Above(l0, p0, live, places, level) && BlankFrom(live, g, w - first)
      ensures IsRoot(places, root) && IsRoot(places, child) && At(places, root, f, level, first / ENTRIES)
      ensures At(places, child, g, level, first / ENTRIES)
      ensures Paid(places, free, root, child, had, base)
      ensures ok ==> Cloning(c0, C(), root, child, level, w)
      ensures !ok ==> Stopped(c0, C(), root, child) && had < |Owned(base, root)|
      decreases level, 1
    {
      EntryUnder(n, first, level);
      ok := CloneEntry(f, g, level, n, w, c0, root, child, had, base);
      BlankNext(old(live), live, g, n - first, w - first);
      AboveChain(l0, p0, old(live), old(places), live, places, level, level);
    }

    /** The subtree of table f into the empty table g. */
    method CloneTable(f: nat, g: nat, level: nat, first: nat, last: nat, ghost c0: Cow, ghost root: nat,
        ghost child: nat, ghost had: nat, ghost base: Places)
      returns (ok: bool)
      requires Tree() && IsRoot(places, root) && IsRoot(places, child) && root != child && level <= 2
      requires first % ENTRIES == 0 && UserPrefix(first / ENTRIES, level) && last == first + ENTRIES
      requires At(places, root, f, level, first / ENTRIES) && At(places, child, g, level, first / ENTRIES)
      requires Blank(live, g)
      requires Cloning(c0, C(), root, child, level, first)
      requires Paid(places, free, root, child, had, base)
      modifies this
      ensures Tree() && Above(old(live), old(places), live, places, level)
      ensures Paid(places, free, root, child, had, base)
      ensures ok ==> Cloning(c0, C(), root, child, level, last)
      ensures !ok ==> Stopped(c0, C(), root, child) && had < |Owned(base, root)|
      decreases level, 2
    {
      ok := true;
      if level == 0 {
        ClonePageTable(f, g, first, last, c0, root, child);
        return;
      }
      var n := first;
      while n < last
        invariant first <= n <= last && Tree() && Above(old(live), old(places), live, places, level)
        invariant Cloning(c0, C(), root, child, level, n) && Paid(places, free, root, child, had, base)
        invariant BlankFrom(live, g, n - first) && IsRoot(places, root) && IsRoot(places, child)
        invariant At(places, root, f, level, first / ENTRIES) && At(places, child, g, level, first / ENTRIES)
      {
        var w := n + 1;
        ok := CloneTurn(f, g, level, first, n, w, c0, old(live), old(places), root, child, had, base);
        if !ok { return; }
        n := w;
      }
      CloningAt(c0, C(), root, child, level, n, last);
    }

    // ---------- Teardown ----------

    /** The state that holds throughout free_pagetable(root), with table f being emptied. */
    ghost predicate Emptying(root: nat, level: nat, f: nat)
      reads this
    {
      && Sound(live, places) && FramesApart(live.Keys, C(), free) && ref.Keys == frames && IsRoot(places, root)
      && Shadow(tables, live, places, root, level, f)
    }

    /** Seen by walks, the leaf entry for page v is gone. */
    ghost method ClearLive(f: nat, v: nat, root: nat)
      requires Sound(live, places) && IsRoot(places, root) && UserPage(v) && At(places, root, f, 0, Up(v, 1))
      modifies this`live
      ensures Sound(live, places) && live.Keys == old(live.Keys) && HasTable(old(live), f)
      ensures live == Put(old(live), f, Digit(v, 0), EMPTY)
      ensures C() == old(C()).(leaf := old(C()).leaf - {(root, v)}) && Above(old(live), places, live, places, 0)
    {
      UserOwner(root, v);
      Reached(live, places, root, f, 0, v);
      FlatAt(live, places, f, root, v);
      PutSound(live, places, f, Digit(v, 0), EMPTY);
      PutFlat(live, places, f, Digit(v, 0), EMPTY, root, v);
      AbovePut(live, places, f, Digit(v, 0), EMPTY, root, v);
      live := Put(live, f, Digit(v, 0), EMPTY);
    }

    /** One present leaf of free_pagetable: the entry itself is not cleared. */
    method DropLeaf(f: nat, v: nat, ghost root: nat)
      requires Emptying(root, 0, f) && UserPage(v) && At(places, root, f, 0, Up(v, 1)) && (root, v) in C().leaf
      requires Counted(C())
      requires HasTable(tables, f) && HasTable(live, f) && tables[f][Digit(v, 0)] == live[f][Digit(v, 0)]
      modifies this`ref, this`data, this`free, this`live
      ensures Emptying(root, 0, f) && f in live && Cleared(old(live)[f], live[f], Digit(v, 0))
      ensures C() == DropStep(old(C()), (root, v)) && Above(old(live), places, live, places, 0)
    {
      UserOwner(root, v);
      Reached(live, places, root, f, 0, v);
      ForgetApart(live.Keys, C(), (root, v), free);
      ClearShadow(tables, live, places, root, 0, f, Digit(v, 0));
      ForgetLeaf(f, root, v);
      ClearLive(f, v, root);
    }

    /** One leaf of free_pagetable. */
    method FreeLeaf(f: nat, v: nat, w: nat, ghost c0: Cow, ghost root: nat)
      requires Emptying(root, 0, f) && UserPage(v) && At(places, root, f, 0, Up(v, 1)) && HasTable(tables, f)
      requires HasTable(live, f)
      requires tables[f][Digit(v, 0)] == live[f][Digit(v, 0)] && Draining(c0, C(), root, 0, v) && w == v + 1
      modifies this`ref, this`data, this`free, this`live
      ensures Emptying(root, 0, f) && Draining(c0, C(), root, 0, w) && Above(old(live), places, live, places, 0)
      ensures f in live && Cleared(old(live)[f], live[f], Digit(v, 0))
    {
      UserOwner(root, v);
      Reached(live, places, root, f, 0, v);
      FlatAt(live, places, f, root, v);
      if tables[f][Digit(v, 0)].present {
        DrainingDrop(c0, C(), root, v, w);
        DropLeaf(f, v, root);
      } else {
        DrainingSkip(c0, C(), root, 0, v, w);
      }
    }

    /** How far emptying page table f has come: up to page v, entry j. */
    ghost predicate EmptyingLeaves(f: nat, j: nat, v: nat, c0: Cow, l0: Tables, root: nat)
      reads this
    {
      && Emptying(root, 0, f) && Draining(c0, C(), root, 0, v)
      && EmptiedTo(tables, live, f, 0, j) && Above(l0, places, live, places, 0)
    }

    method FreeLeafStep(f: nat, first: nat, j: nat, j': nat, v: nat, w: nat, ghost c0: Cow, ghost l0: Tables,
        ghost root: nat)
      requires first % ENTRIES == 0 && UserPrefix(first / ENTRIES, 0) && At(places, root, f, 0, first / ENTRIES)
      requires v == first + j && w == v + 1 && j' == j + 1 <= ENTRIES && EmptyingLeaves(f, j, v, c0, l0, root)
      modifies this`ref, this`data, this`free, this`live
      ensures EmptyingLeaves(f, j', w, c0, l0, root)
    {
      PageUnder(v, first);
      ghost var mid := live;
      FreeLeaf(f, v, w, c0, root);
      EmptiedStep(tables, mid, tables, live, f, 0, Digit(v, 0), j, j');
      AboveChain(l0, places, mid, places, live, places, 0, 0);
    }

    /** All leaves of a page table. */
    method FreeLeaves(f: nat, first: nat, last: nat, ghost c0: Cow, ghost l0: Tables, ghost root: nat)
      requires first % ENTRIES == 0 && UserPrefix(first / ENTRIES, 0) && At(places, root, f, 0, first / ENTRIES)
      requires last == first + ENTRIES
      requires EmptyingLeaves(f, 0, first, c0, l0, root)
      modifies this`ref, this`data, this`free, this`live
      ensures EmptyingLeaves(f, ENTRIES, last, c0, l0, root)
    {
      var j, v := 0, first;
      while j < ENTRIES
        invariant j <= ENTRIES && v == first + j && EmptyingLeaves(f, j, v, c0, l0, root)
      {
        var j', w := j + 1, v + 1;
        FreeLeafStep(f, first, j, j', v, w, c0, l0, root);
        j, v := j', w;
      }
      DrainingAt(c0, C(), root, 0, v, last);
    }

    method FreePageTable(f: nat, first: nat, last: nat, ghost c0: Cow, ghost root: nat)
      requires Emptying(root, 0, f) && EmptiedTo(tables, live, f, 0, 0) && first % ENTRIES == 0
      requires UserPrefix(first / ENTRIES, 0)
      requires At(places, root, f, 0, first / ENTRIES) && Draining(c0, C(), root, 0, first) && last == first + ENTRIES
      modifies this`ref, this`data, this`free, this`live
      ensures Emptying(root, 0, f) && Draining(c0, C(), root, 0, last) && Above(old(live), places, live, places, 0)
      ensures EmptiedTo(tables, live, f, 0, ENTRIES)
    {
      FreeLeaves(f, first, last, c0, live, root);
    }

    /** Since t0, l0, p0: what teardown at a level leaves alone. */
    ghost predicate Confined(t0: Tables, l0: Tables, p0: Places, root: nat, level: nat)
      reads this
    {
      Above(l0, p0, live, places, level) && Spared(t0, p0, tables, places, root, level) && Fewer(p0, places)
    }

    method PoolFrame(h: nat)
      modifies this`free
      ensures free == Pooled(C(), h, old(free))
    {
      if h in ref { free := free + {h}; }
    }

    /** Seen by walks, table h is gone. */
    ghost method ShrinkLive(f: nat, i: nat, h: nat)
      requires CanShrink(live, places, f, i, h)
      modifies this`live, this`places
      ensures Sound(live, places) && C() == old(C()) && f != h
      ensures live == Shrink(old(live), f, i, h) && places == old(places) - {h}
      ensures Above(old(live), old(places), live, places, old(places)[f].level)
    {
      ShrinkSound(live, places, f, i, h);
      ShrinkFlat(live, places, f, i, h);
      AboveShrink(live, places, f, i, h);
      live, places := Shrink(live, f, i, h), places - {h};
    }

    /** Table h, blank by now, goes back to the pool. */
    method RemoveTable(f: nat, i: nat, h: nat)
      requires CanShrink(live, places, f, i, h) && FramesApart(live.Keys, C(), free)
      modifies this`tables, this`live, this`places, this`free
      ensures Sound(live, places) && FramesApart(live.Keys, C(), free) && C() == old(C()) && f != h
      ensures tables == old(tables) - {h} && live == Shrink(old(live), f, i, h) && places == old(places) - {h}
      ensures Above(old(live), old(places), live, places, old(places)[f].level)
    {
      PooledApart(live.Keys, C(), h, free);
      PoolFrame(h);
      tables := tables - {h};
      ShrinkLive(f, i, h);
      assert live.Keys == old(live.Keys) - {h};
    }

    /** The table h at position n of table f: empty it and take it away. */
    method FreeChild(f: nat, h: nat, level: nat, n: nat, w: nat, ghost c0: Cow, ghost root: nat)
      requires 0 < level <= 3 && Emptying(root, level, f) && At(places, root, f, level, n / ENTRIES)
      requires (level == 3 ==> 1 <= n < 256)
      requires UserPrefix(n, level - 1) && At(places, root, h, level - 1, n) && w == n + 1
      requires HasTable(live, f) && live[f][n % ENTRIES].present && live[f][n % ENTRIES].frame == h
      requires Leads(live[f][n % ENTRIES], level)
      requires Draining(c0, C(), root, level, n)
      modifies this
      ensures Emptying(root, level, f) && Draining(c0, C(), root, level, w)
      ensures Confined(old(tables), old(live), old(places), root, level) && f in live
      ensures Cleared(old(live)[f], live[f], n % ENTRIES)
      decreases level - 1, 4
    {
      var first, last := n * ENTRIES, w * ENTRIES;
      FirstUnder(n, first);
      DrainingDown(c0, C(), root, level, n, first);
      assert TablePlaced(live, places, h);
      ShadowDown(tables, live, places, root, level, f, h);
      FreeTable(h, level - 1, first, last, c0, root);
      ghost var t1, l1, p1 := tables, live, places;
      BlankChild(tables, old(live), old(places), live, places, root, level, f, n, h);
      DrainingUp(c0, C(), root, level, w, last);
      RemoveTable(f, n % ENTRIES, h);
      ShadowUp(old(tables), old(live), old(places), t1, l1, p1, root, level, f, n % ENTRIES, h);
      ShrinkCleared(l1, f, n % ENTRIES, h);
      ShrinkSpared(old(tables), old(places), t1, p1, root, level, h);
      AboveChain(old(live), old(places), l1, p1, live, places, level, level);
    }

    /** Position n of table f, whether or not a table hangs there. */
    method FreeEntry(f: nat, level: nat, n: nat, w: nat, ghost c0: Cow, ghost root: nat)
      requires 0 < level <= 3 && Emptying(root, level, f) && At(places, root, f, level, n / ENTRIES)
      requires (level == 3 ==> 1 <= n < 256)
      requires UserPrefix(n, level - 1) && w == n + 1 && HasTable(tables, f) && HasTable(live, f)
      requires tables[f][n % ENTRIES] == live[f][n % ENTRIES] && Draining(c0, C(), root, level, n)
      modifies this
      ensures Emptying(root, level, f) && Draining(c0, C(), root, level, w)
      ensures Confined(old(tables), old(live), old(places), root, level) && f in live
      ensures Cleared(old(live)[f], live[f], n % ENTRIES)
      decreases level, 0
    {
      ChildAt(live, places, root, f, level, n);
      var e := tables[f][n % ENTRIES];
      if e.present {
        FreeChild(f, e.frame, level, n, w, c0, root);
      } else {
        VacantBelow(live, places, root, f, level, n);
        DrainingSkip(c0, C(), root, level, n, w);
      }
    }

    /** How far emptying table f has come: up to position n, entry j. */
    ghost predicate EmptyingTable(f: nat, level: nat, lo: nat, j: nat, n: nat, c0: Cow, t0: Tables, l0: Tables,
        p0: Places, root: nat)
      reads this
    {
      && Emptying(root, level, f) && Draining(c0, C(), root, level, n)
      && EmptiedTo(tables, live, f, lo, j) && Confined(t0, l0, p0, root, level)
    }

    method FreeStep(f: nat, level: nat, lo: nat, i: nat, j: nat, j': nat, n: nat, w: nat, ghost c0: Cow,
        ghost t0: Tables, ghost l0: Tables, ghost p0: Places, ghost root: nat)
      requires 0 < level <= 3 && At(places, root, f, level, n / ENTRIES) && (level == 3 ==> 1 <= n < 256)
      requires UserPrefix(n, level - 1)
      requires i == n % ENTRIES == j && w == n + 1 && j' == j + 1 <= ENTRIES
      requires EmptyingTable(f, level, lo, j, n, c0, t0, l0, p0, root)
      modifies this
      ensures EmptyingTable(f, level, lo, j', w, c0, t0, l0, p0, root) && At(places, root, f, level, n / ENTRIES)
      decreases level, 1
    {
      ghost var t1, l1, p1 := tables, live, places;
      FreeEntry(f, level, n, w, c0, root);
      SparedTable(t1, p1, tables, places, root, level, f, n / ENTRIES);
      EmptiedStep(t1, l1, tables, live, f, lo, i, j, j');
      AboveChain(l0, p0, l1, p1, live, places, level, level);
      SparedChain(t0, p0, t1, p1, tables, places, root, level, level);
    }

    /** All positions of a table above the page tables. */
    method FreeEntries(f: nat, level: nat, first: nat, last: nat, ghost c0: Cow, ghost t0: Tables, ghost l0: Tables,
        ghost p0: Places, ghost root: nat)
      requires 0 < level <= 2 && At(places, root, f, level, first / ENTRIES)
      requires first % ENTRIES == 0 && UserPrefix(first / ENTRIES, level) && last == first + ENTRIES
      requires EmptyingTable(f, level, 0, 0, first, c0, t0, l0, p0, root)
      modifies this
      ensures EmptyingTable(f, level, 0, ENTRIES, last, c0, t0, l0, p0, root)
      decreases level, 2
    {
      var j, n := 0, first;
      while j < ENTRIES
        invariant j <= ENTRIES && n == first + j && EmptyingTable(f, level, 0, j, n, c0, t0, l0, p0, root)
        invariant At(places, root, f, level, first / ENTRIES)
      {
        var j', w := j + 1, n + 1;
        EntryUnder(n, first, level);
        FreeStep(f, level, 0, n % ENTRIES, j, j', n, w, c0, t0, l0, p0, root);
        j, n := j', w;
      }
      DrainingAt(c0, C(), root, level, n, last);
    }

    /** The subtree of table f. */
    method FreeTable(f: nat, level: nat, first: nat, last: nat, ghost c0: Cow, ghost root: nat)
      requires level <= 2 && Emptying(root, level, f) && EmptiedTo(tables, live, f, 0, 0)
      requires At(places, root, f, level, first / ENTRIES)
      requires first % ENTRIES == 0 && UserPrefix(first / ENTRIES, level) && last == first + ENTRIES
      requires Draining(c0, C(), root, level, first)
      modifies this
      ensures Emptying(root, level, f) && Draining(c0, C(), root, level, last) && EmptiedTo(tables, live, f, 0, ENTRIES)
      ensures Confined(old(tables), old(live), old(places), root, level)
      decreases level, 3
    {
      if level == 0 {
        FreePageTable(f, first, last, c0, root);
      } else {
        FreeEntries(f, level, first, last, c0, tables, live, places, root);
      }
    }

    /** The user slots of a PML4. */
    method FreeUserSlots(ghost c0: Cow, ghost t0: Tables, ghost l0: Tables, ghost p0: Places, root: nat)
      requires At(places, root, root, 3, 0) && EmptyingTable(root, 3, 1, 1, 1, c0, t0, l0, p0, root)
      modifies this
      ensures EmptyingTable(root, 3, 1, 256, 256, c0, t0, l0, p0, root)
    {
      var n := 1;
      while n < 256
        invariant 1 <= n <= 256 && EmptyingTable(root, 3, 1, n, n, c0, t0, l0, p0, root)
        invariant At(places, root, root, 3, 0)
      {
        var w := n + 1;
        assert Up(n, 0) == n;
        FreeStep(root, 3, 1, n, n, w, n, w, c0, t0, l0, p0, root);
        n := w;
      }
    }

    /** The PML4 itself, once its user slots are clear. */
    method RemoveRoot(root: nat)
      requires Emptying(root, 3, root) && EmptiedTo(tables, live, root, 1, 256)
      modifies this`tables, this`live, this`places, this`free
      ensures Tree() && C() == old(C()) && places == old(places) - {root} && tables == old(tables) - {root}
      ensures SharedKept(old(live), live, places) && forall h :: h in places ==> places[h].owner != Private(root)
    {
      ShadowEnd(tables, live, places, root);
      DropSound(live, places, root);
      DropFlat(live, places, root);
      DropShared(live, places, root);
      PooledApart(live.Keys, C(), root, free);
      assert (live - {root}).Keys == live.Keys - {root};
      PoolFrame(root);
      tables := tables - {root};
      live, places := live - {root}, places - {root};
    }

    /** free_pagetable: the address space goes, with its tables and the pages only it referred to. */
    method FreeSpace(root: nat)
      requires Valid() && IsRoot(places, root)
      modifies this
      ensures Valid() && TornDown(old(C()), C(), root)
      ensures (forall r :: IsRoot(places, r) <==> r != root && IsRoot(old(places), r))
      ensures SharedKept(old(tables), tables, places)
      ensures Spared(old(tables), old(places), tables, places, root, 4) && Fewer(old(places), places)
      ensures forall h :: h in places ==> places[h].owner != Private(root)
      ensures old(free) <= free && forall h :: h in Owned(old(places), root) && h in frames ==> h in free
    {
      ghost var c0, t0, p0 := C(), tables, places;
      assert TablePlaced(live, places, root);
      FlatKeys(live, places);
      DrainingStart(c0, root);
      FreeUserSlots(c0, t0, t0, p0, root);
      DrainingEnd(c0, C(), root);
      ghost var l1, t1, p1 := live, tables, places;
      RemoveRoot(root);
      FreedFrame(t0, p0, t1, l1, p1, tables, places, root);
      TablesPooled(c0, p0, old(free), C(), places, free, root);
    }

    // ---------- New address spaces ----------

    method InstallRoot(src: nat, g: nat)
      requires HasTable(tables, src) && g !in tables
      modifies this
      ensures tables == old(tables)[g := FreshRoot(old(tables)[src])] && live == tables
      ensures places == old(places)[g := Place(Private(g), 3, 0)]
      ensures ref == old(ref)[g := 1] && free == old(free) - {g} && data == old(data)
    {
      tables := tables[g := FreshRoot(tables[src])];
      ref, free := ref[g := 1], free - {g};
      live, places := tables, places[g := Place(Private(g), 3, 0)];
    }

    /** A PML4 with the shared slots of src: clone_kernel_pml4, and the start of a fork. */
    method NewSpace(src: nat) returns (ok: bool, g: nat)
      requires Tree() && IsRoot(places, src)
      modifies this
      ensures Tree() && SameCow(old(C()), C())
      ensures ok == (old(free) != {})
      ensures (!ok ==> places == old(places) && tables == old(tables) && free == old(free) && C() == old(C()))
      ensures ok ==> g in old(free) && free == old(free) - {g} && places == old(places)[g := Place(Private(g), 3, 0)]
      ensures ok ==>
        && SharedKept(old(tables), tables, old(places)) && SharesSlots(old(tables), src, tables, g)
        && NoUserTables(tables, g)
    {
      if free == {} { return false, 0; }
      assert TablePlaced(live, places, src);
      ok, g :| ok && g in free;
      RootSound(live, places, src, g);
      RootFlat(live, places, src, g);
      RootMaps(live, places, src, g);
      TabledKeeps(live.Keys, C(), g, free);
      assert live[g := FreshRoot(live[src])].Keys == live.Keys + {g};
      InstallRoot(src, g);
    }

    method CloneSlot(root: nat, child: nat, n: nat, w: nat, ghost c0: Cow, ghost l0: Tables, ghost p0: Places,
        ghost had: nat, ghost base: Places)
      returns (ok: bool)
      requires Tree() && IsRoot(places, root) && IsRoot(places, child) && At(places, root, root, 3, 0)
      requires At(places, child, child, 3, 0) && root != child
      requires 1 <= n < 256 && w == n + 1 && OpenSlots(live, child, n) && Above(l0, p0, live, places, 3)
      requires Cloning(c0, C(), root, child, 3, n) && Paid(places, free, root, child, had, base)
      modifies this
      ensures Tree() && Above(l0, p0, live, places, 3) && OpenSlots(live, child, w)
      ensures IsRoot(places, root) && IsRoot(places, child) && At(places, root, root, 3, 0)
      ensures At(places, child, child, 3, 0)
      ensures Paid(places, free, root, child, had, base)
      ensures ok ==> Cloning(c0, C(), root, child, 3, w)
      ensures !ok ==> Stopped(c0, C(), root, child) && had < |Owned(base, root)|
    {
      assert Up(n, 0) == n;
      ok := CloneEntry(root, child, 3, n, w, c0, root, child, had, base);
      assert TablePlaced(live, places, child);
      OpenNext(old(live), live, child, n, w);
      AboveChain(l0, p0, old(live), old(places), live, places, 3, 3);
    }

    /** The user slots of root into those of the child, which are empty. */
    method CloneUserSlots(root: nat, child: nat, ghost c0: Cow, ghost had: nat, ghost base: Places) returns (ok: bool)
      requires Tree() && IsRoot(places, root) && At(places, root, root, 3, 0) && At(places, child, child, 3, 0)
      requires root != child
      requires NoUserTables(live, child) && Cloning(c0, C(), root, child, 3, 1)
      requires Paid(places, free, root, child, had, base)
      modifies this
      ensures Tree() && Above(old(live), old(places), live, places, 3)
      ensures Paid(places, free, root, child, had, base)
      ensures ok ==> Cloning(c0, C(), root, child, 3, 256)
      ensures !ok ==> Stopped(c0, C(), root, child) && had < |Owned(base, root)|
    {
      ok := true;
      var n := 1;
      while n < 256
        invariant 1 <= n <= 256 && Tree() && Above(old(live), old(places), live, places, 3) && OpenSlots(live, child, n)
        invariant IsRoot(places, root) && IsRoot(places, child) && At(places, root, root, 3, 0)
        invariant At(places, child, child, 3, 0)
        invariant Cloning(c0, C(), root, child, 3, n) && Paid(places, free, root, child, had, base)
      {
        var w := n + 1;
        ok := CloneSlot(root, child, n, w, c0, old(live), old(places), had, base);
        if !ok { return; }
        n := w;
      }
    }

    /** free_pagetable of a half-cloned child: everything is as it was before the fork. */
    method UndoFork(root: nat, child: nat, ghost b: Cow, ghost c0: Cow, ghost p0: Places)
      requires Valid() && IsRoot(places, child) && root != child && SameCow(b, c0) && Counted(b)
      requires Stopped(c0, C(), root, child)
      requires (forall k :: k in b.leaf ==> k.0 != child) && Others(places, child) == p0
      modifies this
      ensures Valid() && SameViews(b, C()) && SameCounts(b, C()) && places == p0 && SharedKept(old(tables), tables, p0)
      ensures Conserved(b, C()) && C().leaf.Keys == b.leaf.Keys
    {
      ghost var c1 := C();
      FreeSpace(child);
      Refunded(old(tables), old(places), tables, places, child, p0);
      ForkFailed(b, c0, c1, C(), root, child);
    }

    /** Fork from the point where the child has its empty PML4. */
    method FinishFork(root: nat, child: nat, ghost b: Cow, ghost t0: Tables, ghost p0: Places, ghost had: nat)
      returns (ok: bool)
      requires Tree() && IsRoot(places, root) && At(places, root, root, 3, 0) && At(places, child, child, 3, 0)
      requires root != child
      requires NoUserTables(live, child) && SameCow(b, C()) && Counted(b) && Sole(b.leaf) && UserKeys(b.leaf)
      requires child !in p0
      requires (forall k :: k in b.leaf ==> k.0 != child) && places == p0[child := Place(Private(child), 3, 0)]
      requires SharedKept(t0, live, p0) && SharesSlots(t0, root, live, child)
      requires Paid(places, free, root, child, had, p0)
      modifies this
      ensures Valid()
      ensures ok ==> (forall r :: IsRoot(places, r) <==> r == child || IsRoot(p0, r)) && Forked(b, C(), root, child)
      ensures ok ==> SharedKept(t0, tables, p0) && SharesSlots(t0, root, tables, child)
      ensures ok ==> Paid(places, free, root, child, had, p0)
      ensures !ok ==> (forall r :: IsRoot(places, r) <==> IsRoot(p0, r)) && SharedKept(t0, tables, p0)
      ensures !ok ==> SameViews(b, C()) && SameCounts(b, C()) && places == p0 && had < |Owned(p0, root)|
      ensures !ok ==> Conserved(b, C()) && C().leaf.Keys == b.leaf.Keys
    {
      ghost var c0 := C();
      SameCounted(b, c0);
      CloningStart(c0, root, child);
      ok := CloneUserSlots(root, child, c0, had, p0);
      ghost var c1, t1 := C(), tables;
      SharedChain(t0, p0, old(live), old(places), t1);
      if ok {
        CloningEnd(c0, c1, root, child);
        ForkDone(b, c0, c1, root, child);
        SharesAbove(t0, root, old(live), old(places), live, places, child, 3);
      } else {
        UndoFork(root, child, b, c0, p0);
        SharedChain(t0, p0, t1, p0, tables);
      }
    }

    /** clone_current_pml4: a child that shares every page of root, read-only in both; or nothing. */
    method Fork(root: nat) returns (ok: bool, child: nat)
      requires Valid() && IsRoot(places, root)
      modifies this
      ensures Valid()
      ensures ok ==>
        !IsRoot(old(places), child) && (forall r :: IsRoot(places, r) <==> r == child || IsRoot(old(places), r))
      ensures ok ==> Forked(old(C()), C(), root, child)
      ensures ok ==> SharedKept(old(tables), tables, old(places)) && SharesSlots(old(tables), root, tables, child)
      ensures !ok ==>
        SameRoots(old(places), places) && SharedKept(old(tables), tables, old(places))
      ensures !ok ==>
        SameViews(old(C()), C()) && SameCounts(old(C()), C()) && places == old(places) && free == old(free)
      ensures !ok ==> |old(free)| < |Owned(old(places), root)|
      ensures !ok ==> Conserved(old(C()), C()) && C().leaf.Keys == old(C()).leaf.Keys
      ensures ok ==> |free| + |Owned(old(places), root)| >= |old(free)|
      ensures ok ==> forall n :: Bounded(old(places), n) ==> Bounded(places, n)
    {
      assert TablePlaced(live, places, root);
      FlatKeys(live, places);
      ok, child := NewSpace(root);
      if ok {
        PaidRoot(old(live), old(places), old(free), root, child);
        ok := FinishFork(root, child, old(C()), old(tables), old(places), |old(free)|);
        if ok { ForkGrew(live, places, free, root, child, |old(free)|, old(places)); }
        if !ok { PoolIs(live.Keys, old(C()), old(free), C(), free); }
      } else {
        assert root in Owned(places, root);
      }
    }

    // ---------- User accesses ----------

    /** A user load, with first-touch zero fill.  A load from a mapped page changes nothing and is never refused. */
    method Load(root: nat, v: nat, off: nat) returns (ok: bool, b: bv8)
      requires Valid() && IsRoot(places, root) && UserPage(v) && off < 4096
      modifies this
      ensures Valid() && SameViews(old(C()), C()) && SameRoots(old(places), places)
      ensures if ok then b == View(old(C()), (root, v))[off] else |old(free)| < 4
      ensures if (root, v) in old(C()).leaf then ok && unchanged(this) else FreshAt(old(C()), C(), (root, v), ok)
      ensures Spent(old(places), old(free), places, free, 4) && Touched(old(C()), C(), (root, v), ok, 1)
    {
      b := 0;
      UserOwner(root, v);
      var present := UserPagePresent(root, v);
      MappedLeaf(live, places, root, v);
      if present {
        SameAccounted(C(), C(), 1);
      } else {
        ok := LazyFault(root, v);
        if !ok { return; }
      }
      var f := FindLeaf(root, v);
      ok, b := true, data[tables[f][Digit(v, 0)].frame][off];
    }

    /** Makes the page writable for this address space alone, as the faults of a store do. */
    method MakeWritable(root: nat, v: nat) returns (ok: bool)
      requires Valid() && IsRoot(places, root) && UserPage(v)
      modifies this
      ensures Valid() && SameRoots(old(places), places) && MadeWritable(old(C()), old(free), C(), free, (root, v), ok)
      ensures Spent(old(places), old(free), places, free, StoreCost(old(C()), (root, v)))
    {
      UserOwner(root, v);
      var present := UserPagePresent(root, v);
      MappedLeaf(live, places, root, v);
      if present {
        ok := MakeMappedWritable(root, v);
      } else {
        ok := LazyFault(root, v);
      }
    }

    method MakeMappedWritable(root: nat, v: nat) returns (ok: bool)
      requires Valid() && IsRoot(places, root) && UserPage(v) && (root, v) in C().leaf
      modifies this`tables, this`ref, this`data, this`free, this`live
      ensures Valid() && MadeWritable(old(C()), old(free), C(), free, (root, v), ok)
      ensures Spent(old(places), old(free), places, free, 1)
    {
      var f := FindLeaf(root, v);
      if tables[f][Digit(v, 0)].rw {
        SameAccounted(C(), C(), 0);
        ok := true;
      } else {
        ok := WriteFault(root, v);
      }
    }

    /** A store through a writable entry. */
    method WriteThrough(root: nat, v: nat, off: nat, b: bv8)
      requires Valid() && IsRoot(places, root) && UserPage(v) && off < 4096 && (root, v) in C().leaf
      requires C().leaf[(root, v)].rw
      modifies this`data
      ensures Valid() && C() == Store(old(C()), (root, v), PutByte(View(old(C()), (root, v)), off, b))
    {
      var f := FindLeaf(root, v);
      var x := tables[f][Digit(v, 0)].frame;
      StoreKeeps(C(), (root, v), PutByte(data[x], off, b));
      data := data[x := PutByte(data[x], off, b)];
      assert C() == Store(old(C()), (root, v), PutByte(old(data)[x], off, b));
    }

    /** The end of a store that began in state c0, with tables p0 and pool f0. */
    method FinishStore(root: nat, v: nat, off: nat, b: bv8, ghost c0: Cow, ghost p0: Places, ghost f0: set<nat>)
      requires Valid() && IsRoot(places, root) && UserPage(v) && off < 4096 && (root, v) in C().leaf
      requires C().leaf[(root, v)].rw && SameViews(c0, C())
      requires Touched(c0, C(), (root, v), true, NewSlack(c0, (root, v))) && Granted(c0.leaf, C().leaf, (root, v))
      requires SameRoots(p0, places) && Spent(p0, f0, places, free, StoreCost(c0, (root, v)))
      modifies this`data
      ensures Valid() && StoredByte(c0, C(), (root, v), off, b, true)
      ensures SameRoots(p0, places) && Spent(p0, f0, places, free, StoreCost(c0, (root, v)))
    {
      StoreDone(c0, C(), Store(C(), (root, v), PutByte(View(C(), (root, v)), off, b)), (root, v), off, b);
      WriteThrough(root, v, off, b);
    }

    /** A user store, with whatever fault it takes.  A mapped page is refused only if it is shared and read-only and no
        frame is free. */
    method StoreByte(root: nat, v: nat, off: nat, b: bv8) returns (ok: bool)
      requires Valid() && IsRoot(places, root) && UserPage(v) && off < 4096
      modifies this
      ensures Valid() && SameRoots(old(places), places) && StoredByte(old(C()), C(), (root, v), off, b, ok)
      ensures !ok ==> Starved(old(C()), old(free), (root, v))
      ensures Spent(old(places), old(free), places, free, StoreCost(old(C()), (root, v)))
    {
      ok := MakeWritable(root, v);
      if ok {
        FinishStore(root, v, off, b, old(C()), old(places), old(free));
      }
    }
  }
}
