/**
 The flat map that the four-level tree stands for, and the tree updates seen through it.
 */
module PageMap {
  import opened Basics
  import opened PageWalk

  /** Where a page is mapped and with which low permission bits. */
  datatype Target = Target(frame: nat, rw: bool, user: bool)

  /** The flat map: page v of an address space to its target, if it has one. */
  ghost function Mapping(t: Tables, root: nat, v: nat): Option<Target> {
    match Trans(t, root, v)
    case None => None
    case Some(e) => Some(Target(e.frame, e.rw, e.user))
  }

  ghost predicate SameMappings(t: Tables, t': Tables, pl: Places) {
    forall root: nat, v: nat {:trigger Mapping(t', root, v)} ::
      IsRoot(pl, root) && InSpace(v) ==> Mapping(t', root, v) == Mapping(t, root, v)
  }

  function EmptyTable(): (tab: Table)
    ensures |tab| == ENTRIES
  {
    seq(ENTRIES, _ => EMPTY)
  }

  /** An entry that leads to table g; struct_flags. */
  function TableEntry(g: nat, user: bool): Pte {
    Pte(true, true, user, false, false, g)
  }

  /** Page j of a 2 MiB entry, as split_huge_page writes it: the low flag bits survive, bit 63 does not. */
  function SplitEntry(h: Pte, j: nat): Pte {
    Pte(true, h.rw, h.user, false, false, h.frame + j)
  }

  function SplitTable(h: Pte): (tab: Table)
    ensures |tab| == ENTRIES && forall j :: 0 <= j < ENTRIES ==> tab[j] == SplitEntry(h, j)
  {
    seq(ENTRIES, j requires 0 <= j < ENTRIES => SplitEntry(h, j))
  }

  /** A new table g filled with tab, and entry i of table f led to it. */
  ghost function Attach(t: Tables, f: nat, i: nat, g: nat, tab: Table, e: Pte): Tables
    requires HasTable(t, f) && i < ENTRIES && g != f
  {
    Put(t[g := tab], f, i, e)
  }

  lemma AttachPlaced(t: Tables, pl: Places, f: nat, i: nat, g: nat, tab: Table, e: Pte)
    requires WellPlaced(t, pl) && f in pl && TablePlaced(t, pl, f) && i < ENTRIES && g !in t && pl[f].level > 0
    requires NoLeads(tab, pl[f].level - 1) && e.frame == g
    ensures WellPlaced(t[g := tab], pl[g := Below(f, pl[f], i)])
    ensures WellPlaced(Attach(t, f, i, g, tab, e), pl[g := Below(f, pl[f], i)])
  {
    var t1, pl' := t[g := tab], pl[g := Below(f, pl[f], i)];
    AddPlaced(t, pl, g, tab, Below(f, pl[f], i));
    assert TablePlaced(t1, pl', f);
    PutPlaced(t1, pl', f, i, e);
  }

  /** What walks see once the new table hangs in its place. */
  lemma AttachWalk(t: Tables, pl: Places, f: nat, i: nat, g: nat, tab: Table, e: Pte, root: nat, v: nat)
    requires WellPlaced(t, pl) && f in pl && TablePlaced(t, pl, f) && i < ENTRIES && g !in t && pl[f].level > 0
    requires NoLeads(tab, pl[f].level - 1) && Leads(e, pl[f].level) && e.frame == g
    requires !Leads(t[f][i], pl[f].level) && IsRoot(pl, root) && InSpace(v)
    ensures var t', L := Attach(t, f, i, g, tab, e), pl[f].level;
      && (Visits(t, pl, f, i, root, v) ==>
            && Walk(t', root, v, L) == Some(f) && Walk(t', root, v, L - 1) == Some(g) && t'[g] == tab
            && Walk(t, root, v, L - 1) == None
            && (L > 1 ==> Walk(t', root, v, L - 2) == None))
      && (!Visits(t, pl, f, i, root, v) ==> Trans(t', root, v) == Trans(t, root, v))
  {
    var t1, pl' := t[g := tab], pl[g := Below(f, pl[f], i)];
    AttachPlaced(t, pl, f, i, g, tab, e);
    assert TablePlaced(t1, pl', f);
    AddWalk(t, pl, g, tab, root, v, pl[f].level);
    if Visits(t, pl, f, i, root, v) {
      WalkFrame(t1, pl', f, i, e, root, v, pl[f].level);
    } else {
      AddTrans(t, pl, g, tab, root, v);
      TransFrame(t1, pl', f, i, e, root, v);
    }
  }

  /** Hanging an empty table in an absent entry maps nothing and unmaps nothing. */
  lemma AttachEmpty(t: Tables, pl: Places, f: nat, i: nat, g: nat, tab: Table, e: Pte, root: nat, v: nat)
    requires WellPlaced(t, pl) && f in pl && TablePlaced(t, pl, f) && i < ENTRIES && g !in t && pl[f].level > 0
    requires !t[f][i].present && Leads(e, pl[f].level) && e.frame == g && IsRoot(pl, root) && InSpace(v)
    requires |tab| == ENTRIES && forall j :: 0 <= j < ENTRIES ==> !tab[j].present
    ensures Trans(Attach(t, f, i, g, tab, e), root, v) == Trans(t, root, v)
  {
    var L := pl[f].level;
    var t' := Attach(t, f, i, g, tab, e);
    AttachWalk(t, pl, f, i, g, tab, e, root, v);
    if Visits(t, pl, f, i, root, v) {
      WalkEnded(t, root, v, L - 1, 0);
      if L > 1 {
        WalkEnded(t, root, v, L - 1, 1);
        WalkEnded(t', root, v, L - 2, 0);
        if L == 3 { WalkEnded(t', root, v, 1, 1); }
      }
    }
  }

  /** Splitting a 2 MiB entry maps every page where it was mapped before, with the same permissions.  Exactly the pages
      of a no-execute entry change: they become executable. */
  lemma AttachSplit(t: Tables, pl: Places, f: nat, i: nat, g: nat, user: bool, root: nat, v: nat)
    requires WellPlaced(t, pl) && f in pl && TablePlaced(t, pl, f) && i < ENTRIES && g !in t && pl[f].level == 1
    requires t[f][i].present && t[f][i].ps && IsRoot(pl, root) && InSpace(v)
    ensures var t', under := Attach(t, f, i, g, SplitTable(t[f][i]), TableEntry(g, user)), Visits(t, pl, f, i, root, v);
      && Mapping(t', root, v) == Mapping(t, root, v)
      && (Trans(t', root, v) == Trans(t, root, v) <==> !(under && t[f][i].nx))
      && (under ==> Trans(t, root, v).Some? && Trans(t', root, v) == Some(Trans(t, root, v).value.(nx := false)))
  {
    var e, tab := TableEntry(g, user), SplitTable(t[f][i]);
    AttachWalk(t, pl, f, i, g, tab, e, root, v);
  }
}
