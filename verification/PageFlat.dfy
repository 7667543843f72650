/**
 The private half of every address space, PML4 slots 1 to 255, as one flat map from
 (address space, page) to leaf entry; and the tree updates seen through it.
 */
module PageFlat {
  import opened Basics
  import opened PageWalk
  import opened PageMap

  /** Pages of PML4 slots 1 to 255. */
  const USER_FIRST: nat := 0x800_0000
  const USER_LIMIT: nat := 0x8_0000_0000

  predicate UserPage(v: nat) {
    USER_FIRST <= v < USER_LIMIT
  }

  lemma UserOwner(root: nat, v: nat)
    ensures UserPage(v) <==> InSpace(v) && OwnerOf(root, Digit(v, 3)) == Private(root)
  {
    assert Up(v, 1) == v / 512 && Up(v, 2) == v / 512 / 512 && Up(v, 3) == v / 512 / 512 / 512;
    assert Up(v, 4) == Up(v, 3) / 512;
  }

  type Key = (nat, nat)
  type Leaves = map<Key, Pte>

  ghost function Keys(pl: Places): set<Key> {
    set r, v | r in pl && USER_FIRST <= v < USER_LIMIT && IsRoot(pl, r) :: (r, v)
  }

  /** Every present leaf entry, under the one address space and page whose walk reads it. */
  ghost function Flat(t: Tables, pl: Places): Leaves {
    map k | k in Keys(pl) && Trans(t, k.0, k.1).Some? :: Trans(t, k.0, k.1).value
  }

  /** Private tables hold no 2 MiB entries. */
  ghost predicate NoHuge(t: Tables, pl: Places) {
    forall f, i ::
      f in pl && pl[f].level == 1 && pl[f].owner.Private? && HasTable(t, f) && 0 <= i < ENTRIES && t[f][i].present ==>
      !t[f][i].ps
  }

  /** The entry of g at the position of f leads to f. */
  ghost predicate HangsFrom(t: Tables, pl: Places, f: nat, g: nat) {
    && f in pl && g in pl && HasTable(t, g) && pl[g].level > 0
    && var e := t[g][pl[f].prefix % ENTRIES]; Leads(e, pl[g].level) && e.frame == f
  }

  /** Every private table is in use. */
  ghost predicate Attached(t: Tables, pl: Places) {
    forall f :: f in pl && pl[f].level < 3 && pl[f].owner.Private? ==> exists g :: HangsFrom(t, pl, f, g)
  }

  ghost predicate Sound(t: Tables, pl: Places) {
    WellPlaced(t, pl) && NoHuge(t, pl) && Attached(t, pl)
  }

  /** Where a table hangs follows from its place. */
  lemma ParentPlace(t: Tables, pl: Places, f: nat, g: nat)
    requires WellPlaced(t, pl) && HangsFrom(t, pl, f, g)
    ensures g in pl && pl[g].level > 0 && pl[f] == Below(g, pl[g], pl[f].prefix % ENTRIES)
  {
    assert TablePlaced(t, pl, g);
    assert ChildPlaced(t, pl, g, pl[f].prefix % ENTRIES);
  }

  /** No two private tables share a place. */
  lemma {:induction false} SamePlace(t: Tables, pl: Places, f: nat, h: nat)
    requires Sound(t, pl) && f in pl && h in pl && pl[f] == pl[h] && pl[f].owner.Private?
    ensures f == h
    decreases 3 - pl[f].level
  {
    assert TablePlaced(t, pl, f) && TablePlaced(t, pl, h);
    if pl[f].level < 3 {
      var g :| HangsFrom(t, pl, f, g);
      var g' :| HangsFrom(t, pl, h, g');
      ParentPlace(t, pl, f, g);
      ParentPlace(t, pl, h, g');
      assert TablePlaced(t, pl, g) && TablePlaced(t, pl, g');
      if pl[g].level < 3 { SamePlace(t, pl, g, g'); }
    }
  }

  lemma FlatSame(t: Tables, pl: Places, t': Tables, pl': Places)
    requires forall r :: IsRoot(pl', r) <==> IsRoot(pl, r)
    requires forall r, v :: IsRoot(pl, r) && UserPage(v) ==> Trans(t', r, v) == Trans(t, r, v)
    ensures Flat(t', pl') == Flat(t, pl)
  {
    assert Keys(pl') == Keys(pl);
    forall k | k in Keys(pl) ensures Trans(t', k.0, k.1) == Trans(t, k.0, k.1) {
      assert IsRoot(pl, k.0) && UserPage(k.1);
    }
  }

  // ---------- Tables ----------

  /** A new table g in entry i of f: what both users of Attach share. */
  ghost predicate CanAttach(t: Tables, pl: Places, f: nat, i: nat, g: nat) {
    Sound(t, pl) && f in pl && TablePlaced(t, pl, f) && pl[f].level > 0 && i < ENTRIES && g !in t &&
      !Leads(t[f][i], pl[f].level)
  }

  function NewTable(e: Pte): (tab: Table)
    ensures |tab| == ENTRIES
  {
    if e.present then SplitTable(e) else EmptyTable()
  }

  ghost function Grow(t: Tables, f: nat, i: nat, g: nat, user: bool): Tables
    requires HasTable(t, f) && i < ENTRIES && g != f
  {
    Attach(t, f, i, g, NewTable(t[f][i]), TableEntry(g, user))
  }

  /** Hanging an empty table or splitting a 2 MiB entry keeps the tree sound, and no page of any
      address space is mapped elsewhere than before. */
  lemma GrowSound(t: Tables, pl: Places, f: nat, i: nat, g: nat, user: bool)
    requires CanAttach(t, pl, f, i, g)
    ensures Sound(Grow(t, f, i, g, user), pl[g := Below(f, pl[f], i)])
  {
    assert t[f][i].present ==> pl[f].owner.Shared?;
    AttachPlaced(t, pl, f, i, g, NewTable(t[f][i]), TableEntry(g, user));
    GrowAttached(t, pl, f, i, g, user);
  }

  lemma GrowAttached(t: Tables, pl: Places, f: nat, i: nat, g: nat, user: bool)
    requires CanAttach(t, pl, f, i, g)
    ensures Attached(Grow(t, f, i, g, user), pl[g := Below(f, pl[f], i)])
  {
    var t', pl' := Grow(t, f, i, g, user), pl[g := Below(f, pl[f], i)];
    forall h | h in pl' && pl'[h].level < 3 && pl'[h].owner.Private? ensures exists p :: HangsFrom(t', pl', h, p) {
      if h == g {
        assert HangsFrom(t', pl', g, f);
      } else {
        var p :| HangsFrom(t, pl, h, p);
        assert HangsFrom(t', pl', h, p);
      }
    }
  }

  lemma GrowMappings(t: Tables, pl: Places, f: nat, i: nat, g: nat, user: bool)
    requires CanAttach(t, pl, f, i, g)
    ensures SameMappings(t, Grow(t, f, i, g, user), pl)
  {
    forall r, v | IsRoot(pl, r) && InSpace(v) ensures Mapping(Grow(t, f, i, g, user), r, v) == Mapping(t, r, v) {
      if t[f][i].present {
        AttachSplit(t, pl, f, i, g, user, r, v);
      } else {
        AttachEmpty(t, pl, f, i, g, EmptyTable(), TableEntry(g, user), r, v);
      }
    }
  }

  lemma GrowFlat(t: Tables, pl: Places, f: nat, i: nat, g: nat, user: bool)
    requires CanAttach(t, pl, f, i, g)
    ensures Flat(Grow(t, f, i, g, user), pl[g := Below(f, pl[f], i)]) == Flat(t, pl)
  {
    forall r, v | IsRoot(pl, r) && UserPage(v) ensures Trans(Grow(t, f, i, g, user), r, v) == Trans(t, r, v) {
      UserOwner(r, v);
      if t[f][i].present {
        WalkPlace(t, pl, r, v, 1);
        AttachWalk(t, pl, f, i, g, NewTable(t[f][i]), TableEntry(g, user), r, v);
      } else {
        AttachEmpty(t, pl, f, i, g, EmptyTable(), TableEntry(g, user), r, v);
      }
    }
    FlatSame(t, pl, Grow(t, f, i, g, user), pl[g := Below(f, pl[f], i)]);
  }

  // ---------- Leaf entries ----------

  /** Writing a leaf entry changes the translation of exactly one page, in one address space or,
      through a shared slot, in all that share it. */
  lemma PutLeaf(t: Tables, pl: Places, f: nat, i: nat, e: Pte, root: nat, v: nat, root': nat, v': nat)
    requires WellPlaced(t, pl) && IsRoot(pl, root) && IsRoot(pl, root') && InSpace(v) && InSpace(v')
    requires f in pl && TablePlaced(t, pl, f) && pl[f].level == 0 && i < ENTRIES && Visits(t, pl, f, i, root, v)
    ensures Trans(Put(t, f, i, e), root', v') ==
      if Visits(t, pl, f, i, root', v') then (if e.present then Some(e) else None) else Trans(t, root', v')
    ensures (root', v') == (root, v) ==> Visits(t, pl, f, i, root', v')
    ensures Visits(t, pl, f, i, root', v') ==> v' == v && (root' == root || OwnerOf(root, Digit(v, 3)).Shared?)
  {
    if Visits(t, pl, f, i, root', v') {
      SameEntry(t, pl, f, i, root, v, root', v');
      WalkFrame(t, pl, f, i, e, root', v', 0);
    } else {
      TransFrame(t, pl, f, i, e, root', v');
    }
  }

  lemma PutSound(t: Tables, pl: Places, f: nat, i: nat, e: Pte)
    requires Sound(t, pl) && f in pl && HasTable(t, f) && i < ENTRIES && pl[f].level == 0
    ensures Sound(Put(t, f, i, e), pl)
  {
    PutPlaced(t, pl, f, i, e);
    forall h | h in pl && pl[h].level < 3 && pl[h].owner.Private?
      ensures exists p :: HangsFrom(Put(t, f, i, e), pl, h, p)
    {
      var p :| HangsFrom(t, pl, h, p);
      assert HangsFrom(Put(t, f, i, e), pl, h, p);
    }
  }

  ghost function Collect(keys: set<Key>, f: Key -> Option<Pte>): Leaves {
    map k | k in keys && f(k).Some? :: f(k).value
  }

  lemma CollectPut(keys: set<Key>, f: Key -> Option<Pte>, g: Key -> Option<Pte>, key: Key, o: Option<Pte>)
    requires key in keys && forall k {:trigger g(k)} :: k in keys ==> g(k) == if k == key then o else f(k)
    ensures Collect(keys, g) == if o.Some? then Collect(keys, f)[key := o.value] else Collect(keys, f) - {key}
  {
  }

  lemma FlatPut(t: Tables, pl: Places, t': Tables, key: Key, o: Option<Pte>)
    requires key in Keys(pl)
    requires forall k :: k in Keys(pl) ==> Trans(t', k.0, k.1) == if k == key then o else Trans(t, k.0, k.1)
    ensures Flat(t', pl) == if o.Some? then Flat(t, pl)[key := o.value] else Flat(t, pl) - {key}
  {
    var f, g := (k: Key) => Trans(t, k.0, k.1), (k: Key) => Trans(t', k.0, k.1);
    assert Flat(t, pl) == Collect(Keys(pl), f) && Flat(t', pl) == Collect(Keys(pl), g);
    CollectPut(Keys(pl), f, g, key, o);
  }

  lemma PutFlat(t: Tables, pl: Places, f: nat, i: nat, e: Pte, root: nat, v: nat)
    requires WellPlaced(t, pl) && IsRoot(pl, root) && UserPage(v) && InSpace(v)
    requires f in pl && TablePlaced(t, pl, f) && pl[f].level == 0 && i < ENTRIES && Visits(t, pl, f, i, root, v)
    ensures Flat(Put(t, f, i, e), pl) == if e.present then Flat(t, pl)[(root, v) := e] else Flat(t, pl) - {(root, v)}
  {
    var o := if e.present then Some(e) else None;
    UserOwner(root, v);
    forall k | k in Keys(pl)
      ensures Trans(Put(t, f, i, e), k.0, k.1) == if k == (root, v) then o else Trans(t, k.0, k.1)
    {
      UserOwner(k.0, k.1);
      PutLeaf(t, pl, f, i, e, root, v, k.0, k.1);
    }
    FlatPut(t, pl, Put(t, f, i, e), (root, v), o);
  }
}
