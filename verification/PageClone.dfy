/**
 What clone_current_pml4 and free_pagetable do table by table: which walks survive, how a fresh
 root and the removal of tables look through the flat map, and how far a clone or a teardown has
 come in page order.
 */
module PageClone {
  import opened Basics
  import opened PageWalk
  import opened PageMap
  import opened PageFlat
  import opened CowState
  import opened CowProgress

  // ---------- Tables by place ----------

  /** A private table is on the walk of every page under its place. */
  lemma {:induction false} Reached(t: Tables, pl: Places, root: nat, f: nat, level: nat, v: nat)
    requires Sound(t, pl) && IsRoot(pl, root) && level <= 3 && UserPage(v) && f in pl
    requires pl[f] == Place(Private(root), level, Up(v, level + 1))
    ensures Walk(t, root, v, level) == Some(f)
    decreases 3 - level
  {
    assert TablePlaced(t, pl, f) && TablePlaced(t, pl, root);
    if level < 3 {
      var g :| HangsFrom(t, pl, f, g);
      ParentPlace(t, pl, f, g);
      assert TablePlaced(t, pl, g);
      UserOwner(root, v);
      Reached(t, pl, root, g, level + 1, v);
    }
  }

  /** Under an absent entry nothing is mapped. */
  lemma AbsentLeaf(t: Tables, pl: Places, root: nat, f: nat, level: nat, v: nat)
    requires level <= 3 && Walk(t, root, v, level) == Some(f) && !t[f][Digit(v, level)].present
    ensures (root, v) !in Flat(t, pl)
  {
    if level > 0 {
      WalkEnded(t, root, v, level - 1, 0);
      if level > 1 { WalkEnded(t, root, v, level - 1, 1); }
    }
  }

  // ---------- A new root ----------

  /** PML4 of a new address space: the shared slots of another one, nothing else. */
  function FreshRoot(src: Table): (tab: Table)
    requires |src| == ENTRIES
    ensures |tab| == ENTRIES
  {
    seq(ENTRIES, i requires 0 <= i < ENTRIES => if 1 <= i < 256 then EMPTY else src[i])
  }

  lemma RootSound(t: Tables, pl: Places, src: nat, g: nat)
    requires Sound(t, pl) && IsRoot(pl, src) && HasTable(t, src) && g !in t
    ensures Sound(t[g := FreshRoot(t[src])], pl[g := Place(Private(g), 3, 0)])
  {
    var t', pl' := t[g := FreshRoot(t[src])], pl[g := Place(Private(g), 3, 0)];
    assert TablePlaced(t, pl, src);
    forall f | f in pl' ensures TablePlaced(t', pl', f) {
      if f != g { assert TablePlaced(t, pl, f); }
      forall i | 0 <= i < ENTRIES ensures ChildPlaced(t', pl', f, i) {
        assert ChildPlaced(t, pl, if f == g then src else f, i);
      }
    }
    forall h | h in pl' && pl'[h].level < 3 && pl'[h].owner.Private? ensures exists p :: HangsFrom(t', pl', h, p) {
      var p :| HangsFrom(t, pl, h, p);
      assert HangsFrom(t', pl', h, p);
    }
  }

  lemma {:induction false} RootWalk(t: Tables, pl: Places, src: nat, g: nat, v: nat, level: nat)
    requires WellPlaced(t, pl) && IsRoot(pl, src) && HasTable(t, src) && g !in t && InSpace(v) && level < 3
    ensures Walk(t[g := FreshRoot(t[src])], g, v, level) ==
      if 1 <= Digit(v, 3) < 256 then None else Walk(t, src, v, level)
    decreases 3 - level
  {
    var t' := t[g := FreshRoot(t[src])];
    assert Walk(t', g, v, 3) == Some(g) && Walk(t, src, v, 3) == Some(src);
    WalkPlace(t, pl, src, v, level + 1);
    if level < 2 { RootWalk(t, pl, src, g, v, level + 1); }
    match Walk(t, src, v, level + 1)
    case None =>
    case Some(f) =>
      assert TablePlaced(t, pl, f);
      assert ChildPlaced(t, pl, f, Digit(v, level + 1));
  }

  /** A new address space maps what the shared slots map and nothing in the user half. */
  lemma RootTrans(t: Tables, pl: Places, src: nat, g: nat, v: nat)
    requires WellPlaced(t, pl) && IsRoot(pl, src) && HasTable(t, src) && g !in t && InSpace(v)
    ensures Trans(t[g := FreshRoot(t[src])], g, v) == if UserPage(v) then None else Trans(t, src, v)
  {
    UserOwner(src, v);
    RootWalk(t, pl, src, g, v, 0);
    RootWalk(t, pl, src, g, v, 1);
    WalkPlace(t, pl, src, v, 0);
    WalkPlace(t, pl, src, v, 1);
  }

  function NoEntries(): (tab: Table)
    ensures |tab| == ENTRIES && forall i :: 0 <= i < ENTRIES ==> tab[i] == EMPTY
  {
    seq(ENTRIES, _ => EMPTY)
  }

  /** A PML4 without entries maps nothing. */
  lemma EmptyRoot(root: nat)
    ensures var t, pl := map[root := NoEntries()], map[root := Place(Private(root), 3, 0)];
      Sound(t, pl) && Flat(t, pl) == map[]
  {
    var t, pl := map[root := NoEntries()], map[root := Place(Private(root), 3, 0)];
    assert TablePlaced(t, pl, root);
    forall k | k in Keys(pl) ensures Trans(t, k.0, k.1) == None {
      UserOwner(k.0, k.1);
      assert Walk(t, root, k.1, 3) == Some(root) && Walk(t, root, k.1, 2) == None;
      assert Walk(t, root, k.1, 1) == None && Walk(t, root, k.1, 0) == None;
    }
  }

  lemma RootFlat(t: Tables, pl: Places, src: nat, g: nat)
    requires Sound(t, pl) && IsRoot(pl, src) && HasTable(t, src) && g !in t
    ensures Flat(t[g := FreshRoot(t[src])], pl[g := Place(Private(g), 3, 0)]) == Flat(t, pl)
  {
    var t', pl' := t[g := FreshRoot(t[src])], pl[g := Place(Private(g), 3, 0)];
    forall k | k in Keys(pl') ensures Trans(t', k.0, k.1) == if k in Keys(pl) then Trans(t, k.0, k.1) else None {
      UserOwner(k.0, k.1);
      if k.0 == g { RootTrans(t, pl, src, g, k.1); } else { AddTrans(t, pl, g, FreshRoot(t[src]), k.0, k.1); }
    }
    assert forall k :: k in Keys(pl) ==> k in Keys(pl');
  }

  // ---------- Removing tables ----------

  ghost predicate Blank(t: Tables, g: nat) {
    HasTable(t, g) && forall j :: 0 <= j < ENTRIES ==> !t[g][j].present
  }

  ghost predicate BlankFrom(t: Tables, g: nat, lo: nat) {
    HasTable(t, g) && forall j :: lo <= j < ENTRIES ==> !t[g][j].present
  }

  /** The user slots of PML4 g from n on are empty. */
  ghost predicate OpenSlots(t: Tables, g: nat, n: nat) {
    HasTable(t, g) && forall j :: n <= j < 256 ==> !t[g][j].present
  }

  lemma OpenNext(t: Tables, t': Tables, g: nat, n: nat, w: nat)
    requires OpenSlots(t, g, n) && n < 256 && w == n + 1 && HasTable(t', g)
    requires t'[g] == t[g][n % ENTRIES := t'[g][n % ENTRIES]]
    ensures OpenSlots(t', g, w)
  {
    assert n % ENTRIES == n;
  }

  lemma SameEntryPut(tab: Table, i: nat)
    requires i < |tab|
    ensures tab[i := tab[i]] == tab
  {
  }

  lemma BlankNext(t: Tables, t': Tables, g: nat, lo: nat, lo': nat)
    requires BlankFrom(t, g, lo) && lo' == lo + 1 <= ENTRIES && HasTable(t', g) && t'[g] == t[g][lo := t'[g][lo]]
    ensures BlankFrom(t', g, lo')
  {
  }

  /** Entry i of f no longer leads to table g, which is gone. */
  ghost function Shrink(t: Tables, f: nat, i: nat, g: nat): Tables
    requires HasTable(t, f) && i < ENTRIES && f != g
  {
    Put(t, f, i, EMPTY) - {g}
  }

  ghost predicate CanShrink(t: Tables, pl: Places, f: nat, i: nat, g: nat) {
    && Sound(t, pl) && f in pl && TablePlaced(t, pl, f) && pl[f].level > 0 && i < ENTRIES &&
      Below(f, pl[f], i).owner.Private?
    && Leads(t[f][i], pl[f].level) && t[f][i].frame == g && Blank(t, g)
  }

  lemma ShrinkSound(t: Tables, pl: Places, f: nat, i: nat, g: nat)
    requires CanShrink(t, pl, f, i, g)
    ensures g != f && g in pl && pl[g] == Below(f, pl[f], i) && Sound(Shrink(t, f, i, g), pl - {g})
  {
    assert ChildPlaced(t, pl, f, i);
    var t', pl' := Shrink(t, f, i, g), pl - {g};
    forall h | h in pl' ensures TablePlaced(t', pl', h) {
      assert TablePlaced(t, pl, h);
      forall j | 0 <= j < ENTRIES ensures ChildPlaced(t', pl', h, j) {
        assert ChildPlaced(t, pl, h, j);
        if pl[h].level > 0 && Leads(t[h][j], pl[h].level) && t[h][j].frame == g { OneParent(t, pl, f, i, h, j); }
      }
    }
    forall h | h in pl' && pl'[h].level < 3 && pl'[h].owner.Private? ensures exists p :: HangsFrom(t', pl', h, p) {
      var p :| HangsFrom(t, pl, h, p);
      assert HangsFrom(t', pl', h, p);
    }
  }

  /** Only one entry leads to a private table. */
  lemma OneParent(t: Tables, pl: Places, f: nat, i: nat, h: nat, j: nat)
    requires Sound(t, pl) && f in pl && h in pl && 0 < pl[f].level <= 3 && 0 < pl[h].level <= 3 && i < ENTRIES
    requires j < ENTRIES
    requires Below(f, pl[f], i) == Below(h, pl[h], j) && Below(f, pl[f], i).owner.Private?
    ensures f == h && i == j
  {
    assert TablePlaced(t, pl, f) && TablePlaced(t, pl, h);
    if pl[f].level < 3 { SamePlace(t, pl, f, h); }
  }

  /** Taking away an empty table maps nothing elsewhere. */
  lemma ShrinkTrans(t: Tables, pl: Places, f: nat, i: nat, g: nat, r: nat, v: nat)
    requires CanShrink(t, pl, f, i, g) && IsRoot(pl, r) && InSpace(v)
    ensures g != f && Trans(Shrink(t, f, i, g), r, v) == Trans(t, r, v)
  {
    ShrinkSound(t, pl, f, i, g);
    var t', pl' := Shrink(t, f, i, g), pl - {g};
    assert TablePlaced(t', pl', f);
    AttachEmpty(t', pl', f, i, g, t[g], t[f][i], r, v);
    assert Attach(t', f, i, g, t[g], t[f][i])[f] == t[f];
    assert Attach(t', f, i, g, t[g], t[f][i]) == t;
  }

  lemma ShrinkFlat(t: Tables, pl: Places, f: nat, i: nat, g: nat)
    requires CanShrink(t, pl, f, i, g)
    ensures g != f && Flat(Shrink(t, f, i, g), pl - {g}) == Flat(t, pl) && SameMappings(t, Shrink(t, f, i, g), pl)
  {
    ShrinkSound(t, pl, f, i, g);
    forall r: nat, v: nat | IsRoot(pl, r) && InSpace(v) ensures Trans(Shrink(t, f, i, g), r, v) == Trans(t, r, v) {
      ShrinkTrans(t, pl, f, i, g, r, v);
    }
    forall r: nat, v: nat | IsRoot(pl, r) && UserPage(v) ensures Trans(Shrink(t, f, i, g), r, v) == Trans(t, r, v) {
      UserOwner(r, v);
    }
    FlatSame(t, pl, Shrink(t, f, i, g), pl - {g});
  }

  // ---------- Removing a root ----------

  ghost predicate NoUserTables(t: Tables, root: nat) {
    HasTable(t, root) && forall i :: 1 <= i < 256 ==> !t[root][i].present
  }

  lemma DropSound(t: Tables, pl: Places, root: nat)
    requires Sound(t, pl) && IsRoot(pl, root) && NoUserTables(t, root)
    ensures Sound(t - {root}, pl - {root})
  {
    var t', pl' := t - {root}, pl - {root};
    forall h | h in pl' ensures TablePlaced(t', pl', h) {
      assert TablePlaced(t, pl, h);
      forall j | 0 <= j < ENTRIES ensures ChildPlaced(t', pl', h, j) {
        assert ChildPlaced(t, pl, h, j);
      }
    }
    assert TablePlaced(t, pl, root);
    forall h | h in pl' && pl'[h].level < 3 && pl'[h].owner.Private? ensures exists p :: HangsFrom(t', pl', h, p) {
      var p :| HangsFrom(t, pl, h, p);
      ParentPlace(t, pl, h, p);
      assert HangsFrom(t', pl', h, p);
    }
  }

  lemma DropTrans(t: Tables, pl: Places, root: nat, r: nat, v: nat)
    requires Sound(t, pl) && IsRoot(pl, root) && NoUserTables(t, root) && IsRoot(pl, r) && InSpace(v)
    ensures if r == root then (UserPage(v) ==> Trans(t, r, v) == None) else Trans(t - {root}, r, v) == Trans(t, r, v)
  {
    if r == root {
      UserOwner(root, v);
      if UserPage(v) {
        WalkEnded(t, root, v, 2, 0);
        WalkEnded(t, root, v, 2, 1);
      }
    } else {
      DropSound(t, pl, root);
      AddTrans(t - {root}, pl - {root}, root, t[root], r, v);
      assert (t - {root})[root := t[root]] == t;
    }
  }

  lemma DropFlat(t: Tables, pl: Places, root: nat)
    requires Sound(t, pl) && IsRoot(pl, root) && NoUserTables(t, root)
    ensures Flat(t - {root}, pl - {root}) == Flat(t, pl)
  {
    var t', pl' := t - {root}, pl - {root};
    forall k | k in Keys(pl)
      ensures if k in Keys(pl') then Trans(t', k.0, k.1) == Trans(t, k.0, k.1) else Trans(t, k.0, k.1) == None
    {
      UserOwner(k.0, k.1);
      DropTrans(t, pl, root, k.0, k.1);
    }
    assert forall k :: k in Keys(pl') ==> k in Keys(pl);
  }

  /** Once the user slots of a root are clear, none of its tables is left. */
  lemma {:induction false} NoneLeft(t: Tables, pl: Places, root: nat, f: nat)
    requires Sound(t, pl) && IsRoot(pl, root) && NoUserTables(t, root) && f in pl && pl[f].owner == Private(root)
    ensures f == root
    decreases 3 - pl[f].level
  {
    assert TablePlaced(t, pl, f);
    if pl[f].level < 3 {
      var p :| HangsFrom(t, pl, f, p);
      ParentPlace(t, pl, f, p);
      assert TablePlaced(t, pl, p);
      if pl[p].level < 3 { NoneLeft(t, pl, root, p); }
    }
  }

  // ---------- Work on tables of one level and below ----------

  /** Shared pages are mapped as before. */
  ghost predicate SharedKept(t: Tables, t': Tables, pl: Places) {
    forall r: nat, v: nat {:trigger Mapping(t', r, v)} ::
      IsRoot(pl, r) && InSpace(v) && !UserPage(v) ==> Mapping(t', r, v) == Mapping(t, r, v)
  }

  /** Tables above this level are the same, tables of it are where they were, and shared pages are
      mapped as before. */
  ghost predicate Above(t: Tables, pl: Places, t': Tables, pl': Places, level: nat) {
    && (forall h :: h in pl && pl[h].level >= level ==> h in pl' && pl'[h] == pl[h])
    && (forall h :: h in pl && h in t && pl[h].level > level ==> h in t' && t'[h] == t[h])
    && SharedKept(t, t', pl) && (forall r :: IsRoot(pl', r) <==> IsRoot(pl, r))
  }

  lemma AboveChain(t: Tables, pl: Places, t1: Tables, pl1: Places, t2: Tables, pl2: Places, level: nat, level2: nat)
    requires Above(t, pl, t1, pl1, level) && Above(t1, pl1, t2, pl2, level2) && level2 <= level
    ensures Above(t, pl, t2, pl2, level)
  {
  }

  lemma AbovePut(t: Tables, pl: Places, f: nat, i: nat, e: Pte, root: nat, v: nat)
    requires WellPlaced(t, pl) && IsRoot(pl, root) && UserPage(v) && InSpace(v)
    requires f in pl && TablePlaced(t, pl, f) && pl[f].level == 0 && i < ENTRIES && Visits(t, pl, f, i, root, v)
    ensures Above(t, pl, Put(t, f, i, e), pl, 0)
  {
    forall r: nat, w: nat | IsRoot(pl, r) && InSpace(w) && !UserPage(w)
      ensures Mapping(Put(t, f, i, e), r, w) == Mapping(t, r, w)
    {
      PutLeaf(t, pl, f, i, e, root, v, r, w);
    }
  }

  lemma AboveGrow(t: Tables, pl: Places, f: nat, i: nat, g: nat, user: bool)
    requires CanAttach(t, pl, f, i, g)
    ensures Above(t, pl, Grow(t, f, i, g, user), pl[g := Below(f, pl[f], i)], pl[f].level)
  {
    GrowMappings(t, pl, f, i, g, user);
  }

  lemma AboveShrink(t: Tables, pl: Places, f: nat, i: nat, g: nat)
    requires CanShrink(t, pl, f, i, g)
    ensures g != f && Above(t, pl, Shrink(t, f, i, g), pl - {g}, pl[f].level)
  {
    ShrinkSound(t, pl, f, i, g);
    ShrinkFlat(t, pl, f, i, g);
  }

  /** The pages under a prefix are user pages. */
  predicate UserPrefix(prefix: nat, level: nat)
    requires level <= 2
  {
    1 <= Up(prefix, 2 - level) < 256
  }

  lemma PrefixUser(v: nat, level: nat)
    requires level <= 2 && UserPrefix(Up(v, level + 1), level)
    ensures UserPage(v)
  {
    var w := Up(v, level + 1);
    assert Up(w, 0) == w && Up(w, 1) == w / 512 && Up(w, 2) == w / 512 / 512;
    assert Up(v, 1) == v / 512 && Up(v, 2) == v / 512 / 512 && Up(v, 3) == v / 512 / 512 / 512;
  }

  lemma FirstUnder(n: nat, first: nat)
    requires first == n * ENTRIES
    ensures first % ENTRIES == 0 && first / ENTRIES == n && first + ENTRIES == (n + 1) * ENTRIES
  {
  }

  lemma PageUnder(v: nat, first: nat)
    requires first % ENTRIES == 0 && first <= v < first + ENTRIES && UserPrefix(first / ENTRIES, 0)
    ensures Up(v, 1) == first / ENTRIES && UserPage(v) && Digit(v, 0) == v - first
  {
    assert Up(v, 1) == v / ENTRIES;
    PrefixUser(v, 0);
  }

  lemma EntryUnder(n: nat, first: nat, level: nat)
    requires first % ENTRIES == 0 && first <= n < first + ENTRIES && 0 < level <= 2
    requires UserPrefix(first / ENTRIES, level)
    ensures n / ENTRIES == first / ENTRIES && n % ENTRIES == n - first && UserPrefix(n, level - 1)
  {
    PrefixBelow(n, level);
  }

  lemma PrefixBelow(w: nat, level: nat)
    requires 0 < level <= 2 && UserPrefix(w / ENTRIES, level)
    ensures UserPrefix(w, level - 1)
  {
    var prefix := w / ENTRIES;
    assert Up(w, 0) == w && Up(w, 1) == w / 512 && Up(w, 2) == w / 512 / 512;
    assert Up(prefix, 0) == prefix && Up(prefix, 1) == prefix / 512;
  }

  /** Table f of root for pages under prefix. */
  predicate At(pl: Places, root: nat, f: nat, level: nat, prefix: nat) {
    f in pl && pl[f] == Place(Private(root), level, prefix)
  }

  lemma BelowIs(child: nat, g: nat, level: nat, n: nat)
    requires 0 < level <= 3 && (level == 3 ==> g == child && 1 <= n < 256)
    ensures Below(g, Place(Private(child), level, n / ENTRIES), n % ENTRIES) == Place(Private(child), level - 1, n)
  {
  }

  /** An absent entry at position n: no page is mapped there. */
  lemma VacantBelow(t: Tables, pl: Places, root: nat, f: nat, level: nat, n: nat)
    requires Sound(t, pl) && IsRoot(pl, root) && level <= 3 && At(pl, root, f, level, n / ENTRIES)
    requires HasTable(t, f) && !t[f][n % ENTRIES].present
    ensures Vacant(Flat(t, pl), root, level, n)
  {
    forall v: nat | (root, v) in Flat(t, pl) ensures Up(v, level) != n {
      if Up(v, level) == n {
        Reached(t, pl, root, f, level, v);
        AbsentLeaf(t, pl, root, f, level, v);
        assert false;
      }
    }
  }

  /** A present entry of a user table leads to the table of its position. */
  lemma ChildAt(t: Tables, pl: Places, root: nat, f: nat, level: nat, n: nat)
    requires Sound(t, pl) && 0 < level <= 3 && At(pl, root, f, level, n / ENTRIES) && (level == 3 ==> 1 <= n < 256)
    ensures HasTable(t, f)
    ensures (t[f][n % ENTRIES].present ==>
      Leads(t[f][n % ENTRIES], level) && At(pl, root, t[f][n % ENTRIES].frame, level - 1, n))
  {
    assert TablePlaced(t, pl, f);
    assert ChildPlaced(t, pl, f, n % ENTRIES);
  }

  // ---------- Tables and their live view during a teardown ----------

  /** Tables and their live view differ at most in f and in tables of root above this level. */
  ghost predicate Shadow(t: Tables, live: Tables, pl: Places, root: nat, level: nat, f: nat) {
    t.Keys == live.Keys && forall h ::
      h in live && h in pl && h != f && !(pl[h].owner == Private(root) && pl[h].level > level) ==> t[h] == live[h]
  }

  /** Tables of other owners, and of root from this level up, are untouched. */
  ghost predicate Spared(t: Tables, pl: Places, t': Tables, pl': Places, root: nat, level: nat) {
    forall h :: h in pl && h in t && (pl[h].owner != Private(root) || pl[h].level >= level) ==>
      h in pl' && pl'[h] == pl[h] && h in t' && t'[h] == t[h]
  }

  lemma SparedTable(t: Tables, pl: Places, t': Tables, pl': Places, root: nat, level: nat, f: nat, prefix: nat)
    requires Spared(t, pl, t', pl', root, level) && At(pl, root, f, level, prefix) && f in t
    ensures At(pl', root, f, level, prefix) && f in t' && t'[f] == t[f]
  {
  }

  lemma SparedChain(t: Tables, pl: Places, t1: Tables, pl1: Places, t2: Tables, pl2: Places, root: nat, level: nat,
      level2: nat)
    requires Spared(t, pl, t1, pl1, root, level) && Spared(t1, pl1, t2, pl2, root, level2) && level2 <= level
    ensures Spared(t, pl, t2, pl2, root, level)
  {
  }

  /** Tables a and b differ at most in entry i, and there b has nothing. */
  ghost predicate Cleared(a: Table, b: Table, i: nat) {
    |a| == |b| == ENTRIES && i < ENTRIES && !b[i].present && forall j :: 0 <= j < ENTRIES && j != i ==> b[j] == a[j]
  }

  lemma ClearShadow(t: Tables, live: Tables, pl: Places, root: nat, level: nat, f: nat, i: nat)
    requires Shadow(t, live, pl, root, level, f) && HasTable(live, f) && i < ENTRIES
    ensures Shadow(t, Put(live, f, i, EMPTY), pl, root, level, f) && Cleared(live[f], Put(live, f, i, EMPTY)[f], i)
  {
  }

  /** Entries of table f from j on are still as stored; from lo to there, walks see nothing. */
  ghost predicate EmptiedTo(t: Tables, live: Tables, f: nat, lo: nat, j: nat) {
    && HasTable(t, f) && HasTable(live, f)
    && (forall i :: lo <= i < ENTRIES && i < j ==> !live[f][i].present)
    && (forall i :: j <= i < ENTRIES ==> live[f][i] == t[f][i])
  }

  lemma EmptiedStep(t: Tables, live: Tables, t': Tables, live': Tables, f: nat, lo: nat, i: nat, j: nat, j': nat)
    requires EmptiedTo(t, live, f, lo, j) && i == j < ENTRIES && j' == j + 1 && f in live'
    requires Cleared(live[f], live'[f], i)
    requires f in t' && t'[f] == t[f]
    ensures EmptiedTo(t', live', f, lo, j')
  {
  }

  /** Tables are only taken away. */
  ghost predicate Fewer(pl: Places, pl': Places) {
    forall x :: x in pl' ==> x in pl && pl'[x] == pl[x]
  }

  /** Going down to child table h of f. */
  lemma ShadowDown(t: Tables, live: Tables, pl: Places, root: nat, level: nat, f: nat, h: nat)
    requires 0 < level && Shadow(t, live, pl, root, level, f) && f in pl && pl[f].owner == Private(root)
    requires pl[f].level == level
    requires h in pl && pl[h].level < level && HasTable(live, h)
    ensures Shadow(t, live, pl, root, level - 1, h) && EmptiedTo(t, live, h, 0, 0)
  {
  }

  /** Coming back from child table h, which is now blank, and taking it away. */
  lemma ShadowUp(t0: Tables, live0: Tables, pl0: Places, t: Tables, live: Tables, pl: Places, root: nat, level: nat,
      f: nat, i: nat, h: nat)
    requires 0 < level && Shadow(t0, live0, pl0, root, level, f) && Shadow(t, live, pl, root, level - 1, h)
    requires Spared(t0, pl0, t, pl, root, level - 1) && Above(live0, pl0, live, pl, level - 1)
    requires HasTable(live, f) && i < ENTRIES && f != h && live.Keys == pl.Keys && live0.Keys == pl0.Keys
    requires Fewer(pl0, pl)
    ensures Shadow(t - {h}, Shrink(live, f, i, h), pl - {h}, root, level, f)
  {
  }

  /** The blank child table h of f at position n, ready to be taken away. */
  lemma BlankChild(t: Tables, live0: Tables, pl0: Places, live: Tables, pl: Places, root: nat, level: nat, f: nat,
      n: nat, h: nat)
    requires 0 < level <= 3 && Sound(live, pl) && At(pl0, root, f, level, n / ENTRIES) && (level == 3 ==> 1 <= n < 256)
    requires HasTable(live0, f) && live0[f][n % ENTRIES].present && live0[f][n % ENTRIES].frame == h
    requires Leads(live0[f][n % ENTRIES], level)
    requires Above(live0, pl0, live, pl, level - 1) && EmptiedTo(t, live, h, 0, ENTRIES)
    ensures CanShrink(live, pl, f, n % ENTRIES, h) && live[f] == live0[f] && pl[f] == pl0[f]
  {
    assert f in pl;
    assert TablePlaced(live, pl, f);
  }

  lemma ShrinkCleared(live: Tables, f: nat, i: nat, h: nat)
    requires HasTable(live, f) && i < ENTRIES && f != h
    ensures Cleared(live[f], Shrink(live, f, i, h)[f], i)
  {
  }

  lemma ShrinkSpared(t0: Tables, pl0: Places, t: Tables, pl: Places, root: nat, level: nat, h: nat)
    requires 0 < level && Spared(t0, pl0, t, pl, root, level - 1) && Fewer(pl0, pl) && h in pl
    requires pl[h] .owner == Private(root) && pl[h].level < level
    ensures Spared(t0, pl0, t - {h}, pl - {h}, root, level) && Fewer(pl0, pl - {h})
  {
  }

  /** With the user slots of root clear, stored and live tables differ at most in the root itself. */
  lemma ShadowEnd(t: Tables, live: Tables, pl: Places, root: nat)
    requires Sound(live, pl) && IsRoot(pl, root) && Shadow(t, live, pl, root, 3, root)
    requires EmptiedTo(t, live, root, 1, 256)
    ensures NoUserTables(live, root) && t - {root} == live - {root}
    ensures forall h :: h in pl && h != root ==> pl[h].owner != Private(root)
  {
    forall h | h in pl && h != root ensures pl[h].owner != Private(root) {
      if pl[h].owner == Private(root) { NoneLeft(live, pl, root, h); }
    }
  }

  lemma DropShared(t: Tables, pl: Places, root: nat)
    requires Sound(t, pl) && IsRoot(pl, root) && NoUserTables(t, root)
    ensures SharedKept(t, t - {root}, pl - {root})
  {
    forall r: nat, v: nat | IsRoot(pl - {root}, r) && InSpace(v) && !UserPage(v)
      ensures Mapping(t - {root}, r, v) == Mapping(t, r, v)
    {
      DropTrans(t, pl, root, r, v);
    }
  }

  lemma FlatKeys(t: Tables, pl: Places)
    ensures UserKeys(Flat(t, pl)) && forall k :: k in Flat(t, pl) ==> IsRoot(pl, k.0)
  {
  }

  /** What a whole teardown leaves alone. */
  lemma FreedFrame(t0: Tables, pl0: Places, t1: Tables, l1: Tables, pl1: Places, t: Tables, pl: Places, root: nat)
    requires Above(t0, pl0, l1, pl1, 3) && Spared(t0, pl0, t1, pl1, root, 3) && Fewer(pl0, pl1) && IsRoot(pl0, root)
    requires pl0[root].owner == Private(root) && t0.Keys == pl0.Keys
    requires t == t1 - {root} && pl == pl1 - {root} && SharedKept(l1, t, pl) && forall h :: h in pl ==> pl[h].level <= 3
    ensures (forall r :: IsRoot(pl, r) <==> r != root && IsRoot(pl0, r)) && SharedKept(t0, t, pl)
    ensures Spared(t0, pl0, t, pl, root, 4) && Fewer(pl0, pl)
  {
    forall r ensures IsRoot(pl, r) <==> r != root && IsRoot(pl0, r) {
    }
    forall r: nat, v: nat | IsRoot(pl, r) && InSpace(v) && !UserPage(v) ensures Mapping(t, r, v) == Mapping(t0, r, v) {
      assert Mapping(l1, r, v) == Mapping(t0, r, v);
    }
    forall h | h in pl0 && h in t0 && (pl0[h].owner != Private(root) || pl0[h].level >= 4) ensures
      h in pl && pl[h] == pl0[h] && h in t && t[h] == t0[h]
    {
    }
  }

  /** What a fresh root g maps, and that nothing else changes. */
  lemma RootMaps(t: Tables, pl: Places, src: nat, g: nat)
    requires Sound(t, pl) && IsRoot(pl, src) && HasTable(t, src) && g !in t
    ensures SharedKept(t, t[g := FreshRoot(t[src])], pl) && SharesSlots(t, src, t[g := FreshRoot(t[src])], g)
  {
    var t' := t[g := FreshRoot(t[src])];
    forall r: nat, v: nat | IsRoot(pl, r) && InSpace(v) && !UserPage(v) ensures Mapping(t', r, v) == Mapping(t, r, v) {
      AddTrans(t, pl, g, FreshRoot(t[src]), r, v);
    }
    forall v: nat | InSpace(v) && !UserPage(v) ensures Mapping(t', g, v) == Mapping(t, src, v) {
      RootTrans(t, pl, src, g, v);
    }
  }

  /** Address space g maps the shared slots as src did. */
  ghost predicate SharesSlots(t: Tables, src: nat, t': Tables, g: nat) {
    forall v: nat {:trigger Mapping(t', g, v)} :: InSpace(v) && !UserPage(v) ==> Mapping(t', g, v) == Mapping(t, src, v)
  }

  lemma SharedChain(t0: Tables, p0: Places, t1: Tables, p1: Places, t2: Tables)
    requires SharedKept(t0, t1, p0) && SharedKept(t1, t2, p1) && forall r :: IsRoot(p0, r) ==> IsRoot(p1, r)
    ensures SharedKept(t0, t2, p0)
  {
  }

  lemma SharesAbove(t: Tables, src: nat, t1: Tables, pl1: Places, t2: Tables, pl2: Places, g: nat, level: nat)
    requires SharesSlots(t, src, t1, g) && Above(t1, pl1, t2, pl2, level) && IsRoot(pl1, g)
    ensures SharesSlots(t, src, t2, g)
  {
    forall v: nat | InSpace(v) && !UserPage(v) ensures Mapping(t2, g, v) == Mapping(t, src, v) {
      assert Mapping(t2, g, v) == Mapping(t1, g, v);
    }
  }
}
