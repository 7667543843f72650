/**
 The walk behind /proc/self/maps: it jumps over absent tables and takes 2 MiB entries at once, and
 still reports exactly the maximal runs that a page-by-page scan of the lower half would find.
 */
module ProcMaps {
  import opened Basics
  import opened PageWalk

  /** Pages of the lower half. */
  const LIMIT: nat := 0x8_0000_0000

  /** Pages from start up to last, all mapped with the same flags. */
  datatype Region = Region(start: nat, last: nat, flags: nat)

  /** Readable, and maybe writable or executable. */
  function Flags(e: Pte): nat {
    4 + (if e.rw then 2 else 0) + (if e.nx then 0 else 1)
  }

  ghost function Perm(t: Tables, root: nat, v: nat): Option<nat> {
    match Trans(t, root, v)
    case None => None
    case Some(e) => Some(Flags(e))
  }

  // ---------- The page-by-page scan ----------

  /** What each page is mapped with, if at all. */
  type Perms = nat -> Option<nat>

  /** Regions reported so far, and the one being collected. */
  datatype Scan = Scan(out: seq<Region>, cur: Option<Region>)

  function All(s: Scan): seq<Region> {
    s.out + (if s.cur.Some? then [s.cur.value] else [])
  }

  /** size pages from v with the same permission. */
  function Take(s: Scan, v: nat, size: nat, p: Option<nat>): Scan {
    if p.None? then s
    else if s.cur.Some? && s.cur.value.flags == p.value && s.cur.value.last == v then
      Scan(s.out, Some(Region(s.cur.value.start, v + size, p.value)))
    else Scan(All(s), Some(Region(v, v + size, p.value)))
  }

  /** The scan of pages 0 to n, one at a time. */
  function PageByPage(perms: Perms, n: nat): Scan {
    if n == 0 then Scan([], None) else Take(PageByPage(perms, n - 1), n - 1, 1, perms(n - 1))
  }

  /** A block of equal permission may be taken at once. */
  lemma {:induction false} TakeBlock(perms: Perms, n: nat, size: nat, m: nat, p: Option<nat>)
    requires size > 0 && m == n + size && forall u {:trigger perms(u)} :: n <= u < m ==> perms(u) == p
    ensures PageByPage(perms, m) == Take(PageByPage(perms, n), n, size, p)
  {
    assert perms(m - 1) == p;
    if size > 1 {
      TakeBlock(perms, n, size - 1, m - 1, p);
      TakeTwice(PageByPage(perms, n), n, size - 1, p);
    }
  }

  lemma TakeTwice(s: Scan, v: nat, size: nat, p: Option<nat>)
    requires size > 0
    ensures Take(Take(s, v, size, p), v + size, 1, p) == Take(s, v, size + 1, p)
  {
  }

  // ---------- What the scan finds ----------

  /** Each region is a run of pages below n with its flags. */
  ghost predicate Runs(perms: Perms, n: nat, rs: seq<Region>) {
    && (forall i :: 0 <= i < |rs| ==> rs[i].start < rs[i].last <= n)
    && (forall i: nat, u: nat {:trigger rs[i], perms(u)} ::
      i < |rs| && rs[i].start <= u < rs[i].last ==> perms(u) == Some(rs[i].flags))
  }

  ghost predicate InSome(rs: seq<Region>, u: nat) {
    exists i :: 0 <= i < |rs| && rs[i].start <= u < rs[i].last
  }

  /** Every mapped page below n is in a region. */
  ghost predicate Covers(perms: Perms, n: nat, rs: seq<Region>) {
    forall u: nat {:trigger perms(u)} :: u < n && perms(u).Some? ==> InSome(rs, u)
  }

  /** Regions come in address order, and neighbours that touch differ in flags. */
  ghost predicate Apart(rs: seq<Region>) {
    forall i: nat, j: nat {:trigger rs[i], rs[j]} :: i + 1 == j < |rs| ==>
      rs[i].last <= rs[j].start && (rs[i].last == rs[j].start ==> rs[i].flags != rs[j].flags)
  }

  /** The regions are exactly the maximal runs of mapped pages below n, in address order. */
  ghost predicate MaximalRuns(perms: Perms, n: nat, rs: seq<Region>) {
    Runs(perms, n, rs) && Covers(perms, n, rs) && Apart(rs)
  }

  lemma {:induction false} ScanFindsRuns(perms: Perms, n: nat)
    ensures MaximalRuns(perms, n, All(PageByPage(perms, n)))
    ensures PageByPage(perms, n).cur == None ==> PageByPage(perms, n).out == []
  {
    if n > 0 {
      ScanFindsRuns(perms, n - 1);
      TakeRuns(perms, n - 1, n, PageByPage(perms, n - 1), PageByPage(perms, n));
    } else {
      assert All(PageByPage(perms, 0)) == [];
    }
  }

  lemma TakeRuns(perms: Perms, v: nat, n: nat, s: Scan, s': Scan)
    requires MaximalRuns(perms, v, All(s)) && (s.cur == None ==> s.out == []) && n == v + 1
    requires s' == Take(s, v, 1, perms(v))
    ensures MaximalRuns(perms, n, All(s'))
  {
    var p, rs := perms(v), All(s);
    if p.Some? {
      if s.cur.Some? && s.cur.value.flags == p.value && s.cur.value.last == v {
        GrowLast(perms, v, rs);
        AllGrown(s, s', v, p.value);
      } else {
        AddRun(perms, v, rs);
        AllAdded(s, s', v, p.value);
      }
    }
  }

  lemma AllGrown(s: Scan, s': Scan, v: nat, f: nat)
    requires s.cur.Some? && s.cur.value.flags == f && s.cur.value.last == v && s' == Take(s, v, 1, Some(f))
    ensures var rs := All(s); |rs| > 0 && All(s') == rs[..|rs| - 1] + [Region(rs[|rs| - 1].start, v + 1, f)]
  {
  }

  lemma AllAdded(s: Scan, s': Scan, v: nat, f: nat)
    requires !(s.cur.Some? && s.cur.value.flags == f && s.cur.value.last == v) && (s.cur == None ==> s.out == [])
    requires s' == Take(s, v, 1, Some(f))
    ensures All(s') == All(s) + [Region(v, v + 1, f)]
  {
  }

  lemma GrowLast(perms: Perms, v: nat, rs: seq<Region>)
    requires MaximalRuns(perms, v, rs) && |rs| > 0 && rs[|rs| - 1].last == v && perms(v) == Some(rs[|rs| - 1].flags)
    ensures MaximalRuns(perms, v + 1, rs[..|rs| - 1] + [Region(rs[|rs| - 1].start, v + 1, perms(v).value)])
  {
    var k := |rs| - 1;
    var rs' := rs[..k] + [Region(rs[k].start, v + 1, perms(v).value)];
    forall u: nat | u < v + 1 && perms(u).Some? ensures InSome(rs', u) {
      if u < v {
        var i :| 0 <= i < |rs| && rs[i].start <= u < rs[i].last;
        assert rs'[i].start <= u < rs'[i].last;
      } else {
        assert rs'[k].start <= u < rs'[k].last;
      }
    }
  }

  lemma AddRun(perms: Perms, v: nat, rs: seq<Region>)
    requires MaximalRuns(perms, v, rs) && perms(v).Some?
    requires |rs| > 0 ==> !(rs[|rs| - 1].last == v && rs[|rs| - 1].flags == perms(v).value)
    ensures MaximalRuns(perms, v + 1, rs + [Region(v, v + 1, perms(v).value)])
  {
    var rs' := rs + [Region(v, v + 1, perms(v).value)];
    forall u: nat | u < v + 1 && perms(u).Some? ensures InSome(rs', u) {
      if u < v {
        var i :| 0 <= i < |rs| && rs[i].start <= u < rs[i].last;
        assert rs'[i].start <= u < rs'[i].last;
      } else {
        assert rs'[|rs|].start <= u < rs'[|rs|].last;
      }
    }
  }

  // ---------- Blocks of pages under one entry ----------

  /** Pages under one entry of a table of this level. */
  function Size(level: nat): (n: nat)
    requires level <= 3
    ensures n > 0
  {
    if level == 0 then 1 else if level == 1 then 0x200 else if level == 2 then 0x4_0000 else 0x800_0000
  }

  lemma UpIs(v: nat)
    ensures Up(v, 0) == v && Up(v, 1) == v / Size(1) && Up(v, 2) == v / Size(2) && Up(v, 3) == v / Size(3)
  {
    assert Up(v, 1) == Up(v, 0) / 512;
    assert Up(v, 2) == Up(v, 1) / 512;
    assert Up(v, 3) == Up(v, 2) / 512;
  }

  lemma SameBlock(v: nat, u: nat, level: nat)
    requires level <= 3 && v % Size(level) == 0 && v <= u < v + Size(level)
    ensures Up(u, level) == Up(v, level)
  {
    UpIs(u);
    UpIs(v);
  }

  /** Stepping over a block stays under the same entry of every higher level, or starts a new one. */
  lemma NextBlock(v: nat, k: nat, level: nat)
    requires k < level <= 3 && v % Size(k) == 0 && (v + Size(k)) % Size(level) != 0
    ensures Up(v + Size(k), level) == Up(v, level)
  {
    UpIs(v);
    UpIs(v + Size(k));
  }

  lemma AlignedDown(w: nat)
    ensures w % 0x800_0000 == 0 ==> w % 0x4_0000 == 0
    ensures w % 0x4_0000 == 0 ==> w % 0x200 == 0
  {
    if w % 0x800_0000 == 0 {
      var q := w / 0x800_0000;
      assert w == 0x4_0000 * (0x200 * q);
    }
    if w % 0x4_0000 == 0 {
      var q := w / 0x4_0000;
      assert w == 0x200 * (0x200 * q);
    }
  }

  lemma AlignedNext(v: nat)
    ensures v % 0x800_0000 == 0 ==> (v + 0x800_0000) % 0x800_0000 == 0
    ensures v % 0x4_0000 == 0 ==> (v + 0x4_0000) % 0x4_0000 == 0
    ensures v % 0x200 == 0 ==> (v + 0x200) % 0x200 == 0
  {
    if v % 0x800_0000 == 0 { assert v + 0x800_0000 == 0x800_0000 * (v / 0x800_0000 + 1); }
    if v % 0x4_0000 == 0 { assert v + 0x4_0000 == 0x4_0000 * (v / 0x4_0000 + 1); }
    if v % 0x200 == 0 { assert v + 0x200 == 0x200 * (v / 0x200 + 1); }
  }

  lemma AlignedBelow(v: nat, k: nat, level: nat)
    requires level <= k <= 3 && v % Size(k) == 0
    ensures (v + Size(k)) % Size(level) == 0
  {
    AlignedNext(v);
    AlignedDown(v + Size(k));
  }

  lemma {:induction false} SameWalk(t: Tables, root: nat, u: nat, v: nat, level: nat)
    requires level <= 3 && Up(u, level + 1) == Up(v, level + 1)
    ensures Walk(t, root, u, level) == Walk(t, root, v, level)
    decreases 3 - level
  {
    if level < 3 {
      SameWalk(t, root, u, v, level + 1);
    }
  }

  /** The walk has been where v is: each level whose entry v shares with v - 1 has its table. */
  ghost predicate Ready(t: Tables, root: nat, v: nat) {
    forall l: nat {:trigger Size(l)} :: 1 <= l <= 3 ==> v % Size(l) == 0 || Walk(t, root, v, l - 1).Some?
  }

  lemma StillReady(t: Tables, root: nat, v: nat, k: nat)
    requires k <= 3 && v % Size(k) == 0 && (forall l: nat :: k <= l < 3 ==> Walk(t, root, v, l).Some?)
    ensures Ready(t, root, v + Size(k))
  {
    var w := v + Size(k);
    forall l: nat | 1 <= l <= 3 ensures w % Size(l) == 0 || Walk(t, root, w, l - 1).Some? {
      if l <= k {
        AlignedBelow(v, k, l);
      } else if w % Size(l) != 0 {
        NextBlock(v, k, l);
        SameWalk(t, root, w, v, l - 1);
      }
    }
  }

  /** Under an absent entry no page is mapped. */
  lemma AbsentBlock(t: Tables, root: nat, v: nat, k: nat, f: nat, u: nat)
    requires 1 <= k <= 3 && v % Size(k) == 0 && v <= u < v + Size(k)
    requires Walk(t, root, v, k) == Some(f) && !t[f][Digit(v, k)].present
    ensures Perm(t, root, u) == None
  {
    SameBlock(v, u, k);
    SameWalk(t, root, u, v, k);
    assert Digit(u, k) == Digit(v, k);
    WalkEnded(t, root, u, k - 1, 0);
    if k > 1 { WalkEnded(t, root, u, k - 1, 1); }
  }

  /** A 2 MiB entry gives all its pages the same permission. */
  lemma HugeBlock(t: Tables, root: nat, v: nat, f: nat, u: nat)
    requires v % Size(1) == 0 && v <= u < v + Size(1)
    requires Walk(t, root, v, 1) == Some(f) && t[f][Digit(v, 1)].present && t[f][Digit(v, 1)].ps
    ensures Perm(t, root, u) == Some(Flags(t[f][Digit(v, 1)]))
  {
    SameBlock(v, u, 1);
    SameWalk(t, root, u, v, 1);
    assert Digit(u, 1) == Digit(v, 1);
  }

  /** The entry at the end of the walk for v decides a block of pages. */
  lemma EntryDecides(t: Tables, root: nat, v: nat, level: nat, f: nat)
    requires 0 < level <= 3 && v % Size(level) == 0 && Walk(t, root, v, level) == Some(f)
    requires !Leads(t[f][Digit(v, level)], level)
    ensures var e := t[f][Digit(v, level)];
      forall u: nat :: v <= u < v + Size(level) ==> Perm(t, root, u) == if e.present then Some(Flags(e)) else None
  {
    var e := t[f][Digit(v, level)];
    forall u: nat | v <= u < v + Size(level) ensures Perm(t, root, u) == if e.present then Some(Flags(e)) else None {
      if e.present { HugeBlock(t, root, v, f, u); } else { AbsentBlock(t, root, v, level, f, u); }
    }
  }

  /** The walk for v reaches this level. */
  ghost predicate Reached(t: Tables, root: nat, v: nat, level: nat) {
    forall l: nat :: level <= l <= 3 ==> Walk(t, root, v, l).Some?
  }

  /** The block of size pages at v has permission p. */
  ghost predicate Decided(t: Tables, root: nat, v: nat, size: nat, p: Option<nat>) {
    forall u: nat :: v <= u < v + size ==> Perm(t, root, u) == p
  }

  /** What an entry says of the pages under it. */
  function Said(e: Pte): Option<nat> {
    if e.present then Some(Flags(e)) else None
  }

  /** The walk for v ends at an entry of this level, in table f: it decides the block, and the walk can resume after. */
  lemma EntryFound(t: Tables, root: nat, v: nat, level: nat, f: nat)
    requires 0 < level <= 3 && Ready(t, root, v) && Walk(t, root, v, level) == Some(f)
    requires !Leads(t[f][Digit(v, level)], level)
    requires Reached(t, root, v, level)
    ensures v % Size(level) == 0 && Ready(t, root, v + Size(level))
    ensures Decided(t, root, v, Size(level), Said(t[f][Digit(v, level)]))
  {
    assert v % Size(level) == 0;
    EntryDecides(t, root, v, level, f);
    StillReady(t, root, v, level);
  }

  /** It ends in a page table. */
  lemma PageFound(t: Tables, root: nat, v: nat, f: nat)
    requires Walk(t, root, v, 0) == Some(f) && Reached(t, root, v, 0)
    ensures v % Size(0) == 0 && Ready(t, root, v + Size(0)) && Decided(t, root, v, Size(0), Said(t[f][Digit(v, 0)]))
  {
    StillReady(t, root, v, 0);
  }

  /** Where the walk is there is a table, and an entry that leads on leads to the next one. */
  lemma WalkOn(t: Tables, pl: Places, root: nat, v: nat, level: nat, f: nat)
    requires WellPlaced(t, pl) && IsRoot(pl, root) && InSpace(v) && level <= 3 && Walk(t, root, v, level) == Some(f)
    ensures HasTable(t, f)
    ensures level > 0 && Leads(t[f][Digit(v, level)], level) ==>
      Walk(t, root, v, level - 1) == Some(t[f][Digit(v, level)].frame)
    ensures level > 0 && Leads(t[f][Digit(v, level)], level) && Reached(t, root, v, level) ==>
      Reached(t, root, v, level - 1)
  {
    WalkPlace(t, pl, root, v, level);
    assert TablePlaced(t, pl, f);
    assert ChildPlaced(t, pl, f, Digit(v, level));
    if level > 0 && Leads(t[f][Digit(v, level)], level) { assert TablePlaced(t, pl, t[f][Digit(v, level)].frame); }
  }

  /** Looks at the entry that decides page v: of which level it is, and what it says. */
  method Probe(t: Tables, root: nat, v: nat, ghost pl: Places) returns (level: nat, p: Option<nat>)
    requires WellPlaced(t, pl) && IsRoot(pl, root) && InSpace(v) && Ready(t, root, v)
    ensures level <= 3 && v % Size(level) == 0 && Ready(t, root, v + Size(level))
    ensures Decided(t, root, v, Size(level), p)
  {
    assert TablePlaced(t, pl, root);
    var f := root;
    level := 3;
    while level > 0
      invariant 0 <= level <= 3 && Walk(t, root, v, level) == Some(f) && Reached(t, root, v, level)
    {
      WalkOn(t, pl, root, v, level, f);
      var e := t[f][Digit(v, level)];
      if !Leads(e, level) {
        EntryFound(t, root, v, level, f);
        return level, Said(e);
      }
      f, level := e.frame, level - 1;
    }
    WalkOn(t, pl, root, v, 0, f);
    PageFound(t, root, v, f);
    p := Said(t[f][Digit(v, 0)]);
  }

  lemma LowerHalf(v: nat)
    requires v < LIMIT
    ensures InSpace(v)
  {
    UpIs(v);
    assert Up(v, 4) == Up(v, 3) / 512;
  }

  lemma BlockFits(v: nat, level: nat)
    requires v < LIMIT && level <= 3 && v % Size(level) == 0
    ensures v + Size(level) <= LIMIT
  {
  }

  ghost function PermsOf(t: Tables, root: nat): Perms {
    v => Perm(t, root, v)
  }

  lemma BlockTaken(t: Tables, root: nat, v: nat, size: nat, w: nat, p: Option<nat>)
    requires size > 0 && w == v + size && Decided(t, root, v, size, p)
    ensures PageByPage(PermsOf(t, root), w) == Take(PageByPage(PermsOf(t, root), v), v, size, p)
  {
    var perms := PermsOf(t, root);
    forall u | v <= u < w ensures perms(u) == p {
      assert Perm(t, root, u) == p;
    }
    TakeBlock(perms, v, size, w, p);
  }

  lemma TakeGrows(s: Scan, v: nat, size: nat, p: Option<nat>)
    ensures s.out <= Take(s, v, size, p).out && |Take(s, v, size, p).out| <= |s.out| + 1
  {
  }

  /** One turn of the loop: the block at v, and on to the next. */
  method TakeNext(t: Tables, root: nat, v: nat, s: Scan, ghost pl: Places) returns (w: nat, s': Scan)
    requires WellPlaced(t, pl) && IsRoot(pl, root) && v < LIMIT && Ready(t, root, v)
    requires s == PageByPage(PermsOf(t, root), v)
    ensures v < w <= LIMIT && Ready(t, root, w) && s' == PageByPage(PermsOf(t, root), w)
    ensures s.out <= s'.out && |s'.out| <= |s.out| + 1
  {
    LowerHalf(v);
    var level, p := Probe(t, root, v, pl);
    BlockFits(v, level);
    w := v + Size(level);
    BlockTaken(t, root, v, Size(level), w, p);
    s' := Take(s, v, Size(level), p);
    TakeGrows(s, v, Size(level), p);
  }

  /** What has been reported stays. */
  lemma {:induction false} OutGrows(perms: Perms, v: nat, n: nat)
    requires v <= n
    ensures PageByPage(perms, v).out <= PageByPage(perms, n).out
  {
    if v < n { OutGrows(perms, v, n - 1); }
  }

  /** The buffer was not full after any of the regions written before. */
  ghost predicate HadRoom(full: seq<Region> -> bool, rs: seq<Region>, n: nat) {
    n <= |rs| && forall k :: 0 < k < n ==> !full(rs[..k])
  }

  lemma RoomBefore(full: seq<Region> -> bool, rs: seq<Region>, more: seq<Region>)
    requires HadRoom(full, rs, |rs|) && (rs != [] ==> !full(rs)) && rs <= more && |more| <= |rs| + 1
    ensures HadRoom(full, more, |more|) && (|more| == |rs| ==> more == rs)
  {
    forall k | 0 < k < |more| ensures !full(more[..k]) {
      assert more[..k] == if k == |rs| then rs else rs[..k];
    }
  }

  /** The scan of pages 0 to limit, with the stop on a full buffer. */
  method ScanPages(t: Tables, root: nat, limit: nat, full: seq<Region> -> bool, ghost pl: Places)
    returns (regions: seq<Region>, ghost all: seq<Region>)
    requires WellPlaced(t, pl) && IsRoot(pl, root) && limit == LIMIT
    ensures MaximalRuns(PermsOf(t, root), limit, all) && regions <= all
    ensures HadRoom(full, regions, |regions|) && (regions != all ==> regions != [] && full(regions))
  {
    ghost var perms := PermsOf(t, root);
    all := All(PageByPage(perms, limit));
    ScanFindsRuns(perms, limit);
    var v := 0;
    var s := Scan([], None);
    assert forall l: nat :: 1 <= l <= 3 ==> 0 % Size(l) == 0;
    while v < limit
      invariant 0 <= v <= limit && s == PageByPage(perms, v) && Ready(t, root, v)
      invariant HadRoom(full, s.out, |s.out|) && (s.out != [] ==> !full(s.out))
      decreases limit - v
    {
      var before := s.out;
      v, s := TakeNext(t, root, v, s, pl);
      RoomBefore(full, before, s.out);
      if |s.out| > |before| && full(s.out) {
        OutGrows(perms, v, limit);
        return s.out, all;
      }
    }
    regions := All(s);
    RoomBefore(full, s.out, regions);
  }

  // ---------- The regions in terms of translations ----------

  /** The flags of a region: readable, the second bit for writable and the lowest for executable. */
  predicate Shows(flags: nat, e: Pte) {
    flags / 4 == 1 && (flags / 2 % 2 == 1 <==> e.rw) && (flags % 2 == 1 <==> !e.nx)
  }

  /** Exactly the mapped pages below n are in regions, each in one with its permissions; regions are not empty and come
      in address order, and where two touch the permissions differ. */
  ghost predicate MapOf(t: Tables, root: nat, n: nat, rs: seq<Region>) {
    && (forall i: nat, u: nat {:trigger rs[i], Trans(t, root, u)} :: i < |rs| && rs[i].start <= u < rs[i].last ==>
          u < n && Trans(t, root, u).Some? && Shows(rs[i].flags, Trans(t, root, u).value))
    && (forall u: nat {:trigger Trans(t, root, u)} :: u < n && Trans(t, root, u).Some? ==> InSome(rs, u))
    && (forall i :: 0 <= i < |rs| ==> rs[i].start < rs[i].last)
    && (forall i: nat, j: nat {:trigger rs[i], rs[j]} :: i + 1 == j < |rs| ==> rs[i].last <= rs[j].start)
    && (forall i: nat, j: nat {:trigger rs[i], rs[j]} :: i + 1 == j < |rs| && rs[i].last == rs[j].start ==>
          Differ(t, root, rs[i].last - 1, rs[j].start))
  }

  ghost predicate Differ(t: Tables, root: nat, u: nat, v: nat) {
    var e, f := Trans(t, root, u), Trans(t, root, v);
    e.Some? && f.Some? && (e.value.rw != f.value.rw || e.value.nx != f.value.nx)
  }

  lemma FlagsShow(e: Pte)
    ensures Shows(Flags(e), e)
  {
  }

  lemma RunsAreMap(t: Tables, root: nat, n: nat, rs: seq<Region>)
    requires MaximalRuns(PermsOf(t, root), n, rs)
    ensures MapOf(t, root, n, rs)
  {
    var perms := PermsOf(t, root);
    forall i: nat, u: nat | i < |rs| && rs[i].start <= u < rs[i].last
      ensures u < n && Trans(t, root, u).Some? && rs[i].flags == Flags(Trans(t, root, u).value)
      ensures Shows(rs[i].flags, Trans(t, root, u).value)
    {
      assert perms(u) == Some(rs[i].flags);
      FlagsShow(Trans(t, root, u).value);
    }
    forall u: nat | u < n && Trans(t, root, u).Some? ensures InSome(rs, u) { assert perms(u).Some?; }
    forall i: nat, j: nat | i + 1 == j < |rs| && rs[i].last == rs[j].start
      ensures Differ(t, root, rs[i].last - 1, rs[j].start)
    {
      var u, v := rs[i].last - 1, rs[j].start;
      assert rs[i].flags == Flags(Trans(t, root, u).value) && rs[j].flags == Flags(Trans(t, root, v).value);
    }
  }

  /** The regions given to output_region, in order: all of them, or as many as it takes to fill the buffer.  The buffer
      is full or not once given regions are written. */
  method ReadSelfMaps(t: Tables, root: nat, full: seq<Region> -> bool, ghost pl: Places)
    returns (regions: seq<Region>, ghost all: seq<Region>)
    requires WellPlaced(t, pl) && IsRoot(pl, root)
    ensures MaximalRuns(PermsOf(t, root), LIMIT, all) && MapOf(t, root, LIMIT, all) && regions <= all
    ensures HadRoom(full, regions, |regions|) && (regions != all ==> regions != [] && full(regions))
  {
    regions, all := ScanPages(t, root, LIMIT, full, pl);
    RunsAreMap(t, root, LIMIT, all);
  }
}
