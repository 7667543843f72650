/**
 Four-level page tables as a radix tree over page numbers, and when two walks can meet.
 Addresses are counted in pages: a virtual page number has four 9-bit digits, and a frame
 number is a physical address divided by the page size.
 */
module PageWalk {
  import opened Basics

  /** One 64-bit entry; frame is its address field. */
  datatype Pte = Pte(present: bool, rw: bool, user: bool, ps: bool, nx: bool, frame: nat)

  const EMPTY: Pte := Pte(false, false, false, false, false, 0)
  const ENTRIES: nat := 512

  type Table = seq<Pte>
  type Tables = map<nat, Table>

  /** v with its n lowest digits dropped. */
  function Up(v: nat, n: nat): nat {
    if n == 0 then v else Up(v, n - 1) / ENTRIES
  }

  /** The index into the table of a level: 3 is the PML4, 0 the page table. */
  function Digit(v: nat, level: nat): (i: nat)
    ensures i < ENTRIES
  {
    Up(v, level) % ENTRIES
  }

  /** Page numbers of 48-bit addresses. */
  ghost predicate InSpace(v: nat) {
    Up(v, 4) == 0
  }

  ghost predicate HasTable(t: Tables, f: nat) {
    f in t && |t[f]| == ENTRIES
  }

  /** Whether an entry of a table of this level leads to a table one level down. */
  predicate Leads(e: Pte, level: nat) {
    e.present && !(level == 1 && e.ps)
  }

  /** The frame of the table a walk for v uses at a level, if the walk gets that far. */
  ghost function Walk(t: Tables, root: nat, v: nat, level: nat): Option<nat>
    requires level <= 3
    decreases 3 - level
  {
    if level == 3 then
      if HasTable(t, root) then Some(root) else None
    else
      match Walk(t, root, v, level + 1)
      case None => None
      case Some(f) =>
        var e := t[f][Digit(v, level + 1)];
        if Leads(e, level + 1) && HasTable(t, e.frame) then Some(e.frame) else None
  }

  /** The 4 KiB mapping of page v: an entry of a page table, or its share of a 2 MiB entry. */
  ghost function Trans(t: Tables, root: nat, v: nat): Option<Pte> {
    match Walk(t, root, v, 0)
    case Some(f) =>
      var e := t[f][Digit(v, 0)];
      if e.present then Some(e) else None
    case None =>
      match Walk(t, root, v, 1)
      case Some(f) =>
        var e := t[f][Digit(v, 1)];
        if e.present && e.ps then Some(SmallPage(e, Digit(v, 0))) else None
      case None => None
  }

  /** Page i of a 2 MiB page. */
  function SmallPage(e: Pte, i: nat): Pte {
    e.(ps := false, frame := e.frame + i)
  }

  // ---------- Where tables sit ----------

  /** PML4 slots 1 to 255 belong to one address space; slot 0 and the kernel half are shared. */
  datatype Owner = Shared | Private(root: nat)

  function OwnerOf(root: nat, i: nat): Owner {
    if 1 <= i < 256 then Private(root) else Shared
  }

  /** The one position at which a table is used: whose, at which level, for which leading digits. */
  datatype Place = Place(owner: Owner, level: nat, prefix: nat)

  type Places = map<nat, Place>

  /** The place of the table that entry i of the table f at place p leads to. */
  function Below(f: nat, p: Place, i: nat): Place
    requires p.level > 0
  {
    Place(if p.level == 3 then OwnerOf(f, i) else p.owner, p.level - 1, p.prefix * ENTRIES + i)
  }

  /** The place a walk for v from root expects at a level. */
  function Home(root: nat, v: nat, level: nat): Place {
    Place(if level >= 3 then Private(root) else OwnerOf(root, Digit(v, 3)), level, Up(v, level + 1))
  }

  ghost predicate ChildPlaced(t: Tables, pl: Places, f: nat, i: nat)
    requires f in pl && HasTable(t, f) && i < ENTRIES
  {
    pl[f].level > 0 && Leads(t[f][i], pl[f].level) ==>
      t[f][i].frame in t && t[f][i].frame in pl && pl[t[f][i].frame] == Below(f, pl[f], i)
  }

  ghost predicate TablePlaced(t: Tables, pl: Places, f: nat)
    requires f in pl
  {
    && HasTable(t, f) && pl[f].level <= 3
    && (pl[f].level == 3 ==> pl[f] == Place(Private(f), 3, 0))
    && forall i :: 0 <= i < ENTRIES ==> ChildPlaced(t, pl, f, i)
  }

  /** Every entry that leads to a table leads to the table placed there: no table is shared
      between two positions. */
  ghost predicate WellPlaced(t: Tables, pl: Places) {
    t.Keys == pl.Keys && forall f :: f in pl ==> TablePlaced(t, pl, f)
  }

  ghost predicate IsRoot(pl: Places, root: nat) {
    root in pl && pl[root].level == 3
  }

  lemma {:induction false} WalkPlace(t: Tables, pl: Places, root: nat, v: nat, level: nat)
    requires WellPlaced(t, pl) && IsRoot(pl, root) && InSpace(v) && level <= 3
    ensures Walk(t, root, v, level).Some? ==>
      var f := Walk(t, root, v, level).value; f in t && f in pl && HasTable(t, f) && pl[f] == Home(root, v, level)
    decreases 3 - level
  {
    assert TablePlaced(t, pl, root);
    if level < 3 {
      WalkPlace(t, pl, root, v, level + 1);
      match Walk(t, root, v, level + 1)
      case None =>
      case Some(f) =>
        assert TablePlaced(t, pl, f);
        assert ChildPlaced(t, pl, f, Digit(v, level + 1));
    }
  }

  // ---------- Changing one entry ----------

  function Put(t: Tables, f: nat, i: nat, e: Pte): Tables
    requires f in t && i < |t[f]|
  {
    t[f := t[f][i := e]]
  }

  /** The walk for v from root gets to the table f and reads its entry i there. */
  ghost predicate Visits(t: Tables, pl: Places, f: nat, i: nat, root: nat, v: nat)
    requires f in pl && pl[f].level <= 3
  {
    Walk(t, root, v, pl[f].level) == Some(f) && Digit(v, pl[f].level) == i
  }

  /** A walk that does not read the changed entry gets as far as before and to the same tables. */
  lemma {:induction false} WalkFrame(t: Tables, pl: Places, f: nat, i: nat, e: Pte, root: nat, v: nat, level: nat)
    requires WellPlaced(t, pl) && IsRoot(pl, root) && InSpace(v) && level <= 3
    requires f in pl && TablePlaced(t, pl, f) && i < ENTRIES
    requires pl[f].level <= level || !Visits(t, pl, f, i, root, v)
    ensures Walk(Put(t, f, i, e), root, v, level) == Walk(t, root, v, level)
    decreases 3 - level
  {
    assert TablePlaced(t, pl, root);
    if level < 3 {
      var up := level + 1;
      WalkFrame(t, pl, f, i, e, root, v, up);
      WalkPlace(t, pl, root, v, up);
      if Walk(t, root, v, up).Some? {
        var g := Walk(t, root, v, up).value;
        assert g == f ==> pl[f].level == up;
        PutElsewhere(t, f, i, e, g, Digit(v, up));
      }
      SameRead(t, Put(t, f, i, e), root, v, level, up);
    }
  }

  /** Walks that agree down to a level and read the same entry there agree one level further. */
  lemma SameRead(t: Tables, t': Tables, root: nat, v: nat, level: nat, up: nat)
    requires up == level + 1 <= 3 && Walk(t', root, v, up) == Walk(t, root, v, up)
    requires Walk(t, root, v, up).Some? ==> var g := Walk(t, root, v, up).value;
      HasTable(t, g) && HasTable(t', g) && t'[g][Digit(v, up)] == t[g][Digit(v, up)]
    requires t'.Keys == t.Keys && forall g :: g in t ==> (HasTable(t', g) <==> HasTable(t, g))
    ensures Walk(t', root, v, level) == Walk(t, root, v, level)
  {
  }

  lemma PutElsewhere(t: Tables, f: nat, i: nat, e: Pte, g: nat, j: nat)
    requires HasTable(t, f) && HasTable(t, g) && i < ENTRIES && j < ENTRIES && !(g == f && j == i)
    ensures HasTable(Put(t, f, i, e), g) && Put(t, f, i, e)[g][j] == t[g][j]
  {
  }

  lemma TransFrame(t: Tables, pl: Places, f: nat, i: nat, e: Pte, root: nat, v: nat)
    requires WellPlaced(t, pl) && IsRoot(pl, root) && InSpace(v)
    requires f in pl && TablePlaced(t, pl, f) && i < ENTRIES && !Visits(t, pl, f, i, root, v)
    ensures Trans(Put(t, f, i, e), root, v) == Trans(t, root, v)
  {
    WalkFrame(t, pl, f, i, e, root, v, 0);
    WalkFrame(t, pl, f, i, e, root, v, 1);
    WalkPlace(t, pl, root, v, 0);
    WalkPlace(t, pl, root, v, 1);
  }

  /** Two walks read the same entry of a page table only for the same page, and only from the
      same address space or through a shared PML4 slot. */
  lemma SameEntry(t: Tables, pl: Places, f: nat, i: nat, root: nat, v: nat, root': nat, v': nat)
    requires WellPlaced(t, pl) && IsRoot(pl, root) && IsRoot(pl, root') && InSpace(v) && InSpace(v')
    requires f in pl && pl[f].level == 0 && Visits(t, pl, f, i, root, v) && Visits(t, pl, f, i, root', v')
    ensures v == v' && (root == root' || OwnerOf(root, Digit(v, 3)).Shared?)
  {
    WalkPlace(t, pl, root, v, 0);
    WalkPlace(t, pl, root', v', 0);
  }

  lemma PutPlaced(t: Tables, pl: Places, f: nat, i: nat, e: Pte)
    requires WellPlaced(t, pl) && f in pl && HasTable(t, f) && i < ENTRIES
    requires pl[f].level > 0 && Leads(e, pl[f].level) ==> e.frame in pl && pl[e.frame] == Below(f, pl[f], i)
    ensures WellPlaced(Put(t, f, i, e), pl)
  {
    var t' := Put(t, f, i, e);
    forall g | g in pl ensures TablePlaced(t', pl, g) {
      assert TablePlaced(t, pl, g);
      forall j | 0 <= j < ENTRIES ensures ChildPlaced(t', pl, g, j) {
        assert ChildPlaced(t, pl, g, j);
      }
    }
  }

  // ---------- Adding a table ----------

  ghost predicate NoLeads(tab: Table, level: nat) {
    |tab| == ENTRIES && (level > 0 ==> forall i :: 0 <= i < ENTRIES ==> !Leads(tab[i], level))
  }

  lemma AddPlaced(t: Tables, pl: Places, g: nat, tab: Table, p: Place)
    requires WellPlaced(t, pl) && g !in t && NoLeads(tab, p.level) && p.level < 3
    ensures WellPlaced(t[g := tab], pl[g := p])
  {
    var t', pl' := t[g := tab], pl[g := p];
    forall f | f in pl' ensures TablePlaced(t', pl', f) {
      if f != g {
        assert TablePlaced(t, pl, f);
        forall j | 0 <= j < ENTRIES ensures ChildPlaced(t', pl', f, j) {
          assert ChildPlaced(t, pl, f, j);
        }
      }
    }
  }

  lemma {:induction false} AddWalk(t: Tables, pl: Places, g: nat, tab: Table, root: nat, v: nat, level: nat)
    requires WellPlaced(t, pl) && IsRoot(pl, root) && InSpace(v) && g !in t && level <= 3
    ensures Walk(t[g := tab], root, v, level) == Walk(t, root, v, level)
    decreases 3 - level
  {
    assert TablePlaced(t, pl, root);
    if level < 3 {
      AddWalk(t, pl, g, tab, root, v, level + 1);
      WalkPlace(t, pl, root, v, level + 1);
      match Walk(t, root, v, level + 1)
      case None =>
      case Some(f) =>
        assert TablePlaced(t, pl, f);
        assert ChildPlaced(t, pl, f, Digit(v, level + 1));
    }
  }

  lemma AddTrans(t: Tables, pl: Places, g: nat, tab: Table, root: nat, v: nat)
    requires WellPlaced(t, pl) && IsRoot(pl, root) && InSpace(v) && g !in t
    ensures Trans(t[g := tab], root, v) == Trans(t, root, v)
  {
    AddWalk(t, pl, g, tab, root, v, 0);
    AddWalk(t, pl, g, tab, root, v, 1);
    WalkPlace(t, pl, root, v, 0);
    WalkPlace(t, pl, root, v, 1);
  }

  /** A walk that has ended stays ended further down. */
  lemma {:induction false} WalkEnded(t: Tables, root: nat, v: nat, level: nat, lower: nat)
    requires lower <= level <= 3 && Walk(t, root, v, level) == None
    ensures Walk(t, root, v, lower) == None
    decreases level - lower
  {
    if lower < level {
      WalkEnded(t, root, v, level, lower + 1);
    }
  }
}
