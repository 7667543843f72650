/**
 What a fork costs: a frame for each table of the parent, and nothing else.
 */
module ForkCost {
  import opened Basics
  import opened PageWalk
  import opened PageFlat
  import opened PageClone

  /** The tables of one address space, its PML4 included. */
  ghost function Owned(pl: Places, r: nat): set<nat> {
    set h | h in pl && pl[h].owner == Private(r)
  }

  /** Every table of the child stands where the parent has a table. */
  ghost predicate Mirrors(pl: Places, root: nat, child: nat) {
    forall h :: h in Owned(pl, child) ==> exists p :: At(pl, root, p, pl[h].level, pl[h].prefix)
  }

  ghost function Others(pl: Places, child: nat): Places {
    map h | h in pl && pl[h].owner != Private(child) :: pl[h]
  }

  /** Beside the tables there were before, the child's; the frames it has not taken are still free. */
  ghost predicate Paid(pl: Places, free: set<nat>, root: nat, child: nat, had: nat, base: Places) {
    Others(pl, child) == base && |free| + |Owned(pl, child)| == had && Mirrors(pl, root, child)
  }

  lemma OwnedPut(pl: Places, h: nat, place: Place, r: nat)
    requires h !in pl
    ensures Owned(pl[h := place], r) == if place.owner == Private(r) then Owned(pl, r) + {h} else Owned(pl, r)
    ensures h !in Owned(pl, r)
  {
  }

  /** At most n frames fewer are free, and no address space has more than n tables more. */
  ghost predicate Spent(p0: Places, free0: set<nat>, p: Places, free: set<nat>, n: nat) {
    |free| + n >= |free0| && forall r :: |Owned(p, r)| <= |Owned(p0, r)| + n
  }

  lemma SpentTable(p: Places, free: set<nat>, g: nat, place: Place)
    requires g !in p && g in free
    ensures Spent(p, free, p[g := place], free - {g}, 1)
  {
    forall r ensures |Owned(p[g := place], r)| <= |Owned(p, r)| + 1 { OwnedPut(p, g, place, r); }
  }

  lemma SpentMore(p0: Places, f0: set<nat>, p1: Places, f1: set<nat>, p2: Places, f2: set<nat>, n: nat, m: nat, k: nat)
    requires Spent(p0, f0, p1, f1, n) && Spent(p1, f1, p2, f2, m) && k >= n + m
    ensures Spent(p0, f0, p2, f2, k)
  {
    forall r ensures |Owned(p2, r)| <= |Owned(p0, r)| + k {
      assert |Owned(p1, r)| <= |Owned(p0, r)| + n && |Owned(p2, r)| <= |Owned(p1, r)| + m;
    }
  }

  lemma SpentBack(p0: Places, f0: set<nat>, p: Places, f: set<nat>, f': set<nat>, n: nat)
    requires Spent(p0, f0, p, f, n) && f <= f'
    ensures Spent(p0, f0, p, f', n)
  {
    SmallerSet(f, f');
  }

  /** Every address space has at most n tables. */
  ghost predicate Bounded(pl: Places, n: nat) {
    forall r :: |Owned(pl, r)| <= n
  }

  lemma SpentBounded(p0: Places, f0: set<nat>, p: Places, f: set<nat>, n: nat, bound: nat)
    requires Spent(p0, f0, p, f, n) && Bounded(p0, bound)
    ensures Bounded(p, bound + n)
  {
    forall r
      ensures |Owned(p, r)| <= bound + n
    {
      assert |Owned(p0, r)| <= bound && |Owned(p, r)| <= |Owned(p0, r)| + n;
    }
  }

  lemma PaidTable(pl: Places, free: set<nat>, root: nat, child: nat, had: nat, base: Places, h: nat, p: nat, level: nat,
      n: nat)
    requires Paid(pl, free, root, child, had, base) && root != child && h in free && h !in pl
    requires At(pl, root, p, level, n)
    ensures Paid(pl[h := Place(Private(child), level, n)], free - {h}, root, child, had, base)
  {
    var pl' := pl[h := Place(Private(child), level, n)];
    OwnedPut(pl, h, Place(Private(child), level, n), child);
    assert Others(pl', child) == Others(pl, child);
    forall x | x in Owned(pl', child) ensures exists q :: At(pl', root, q, pl'[x].level, pl'[x].prefix) {
      if x == h {
        assert At(pl', root, p, level, n);
      } else {
        var q :| At(pl, root, q, pl[x].level, pl[x].prefix);
        assert At(pl', root, q, pl[x].level, pl[x].prefix);
      }
    }
  }

  lemma {:induction false} OwnerPlaced(t: Tables, pl: Places, h: nat)
    requires Sound(t, pl) && h in pl && pl[h].owner.Private?
    ensures pl[h].owner.root in pl
    decreases 3 - pl[h].level
  {
    assert TablePlaced(t, pl, h);
    if pl[h].level < 3 {
      var x :| HangsFrom(t, pl, h, x);
      ParentPlace(t, pl, h, x);
      if pl[x].level < 3 { OwnerPlaced(t, pl, x); }
    }
  }

  lemma OwnsNothing(t: Tables, pl: Places, r: nat)
    requires Sound(t, pl) && r !in pl
    ensures Owned(pl, r) == {}
  {
    forall h | h in Owned(pl, r) ensures false { OwnerPlaced(t, pl, h); }
  }

  /** A new PML4 is the child's first table. */
  lemma PaidRoot(t: Tables, pl: Places, free: set<nat>, root: nat, child: nat)
    requires Sound(t, pl) && At(pl, root, root, 3, 0) && child in free && child !in pl
    ensures Paid(pl[child := Place(Private(child), 3, 0)], free - {child}, root, child, |free|, pl)
  {
    OwnsNothing(t, pl, child);
    var pl' := pl[child := Place(Private(child), 3, 0)];
    OwnedPut(pl, child, Place(Private(child), 3, 0), child);
    assert Others(pl', child) == pl by {
      assert forall h :: h in pl && pl[h].owner == Private(child) ==> h in Owned(pl, child);
    }
    assert At(pl', root, root, 3, 0);
  }

  /** Without an entry for it, the child has no table at this place. */
  lemma NoTableAt(t: Tables, pl: Places, child: nat, g: nat, level: nat, n: nat, h: nat)
    requires Sound(t, pl) && 0 < level <= 3 && At(pl, child, g, level, n / ENTRIES) && (level == 3 ==> g == child)
    requires HasTable(t, g) && !t[g][n % ENTRIES].present
    ensures !At(pl, child, h, level - 1, n)
  {
    if At(pl, child, h, level - 1, n) {
      var x :| HangsFrom(t, pl, h, x);
      ParentPlace(t, pl, h, x);
      assert TablePlaced(t, pl, x);
      assert pl[x].prefix == n / ENTRIES;
      SamePlace(t, pl, x, g);
    }
  }

  lemma {:induction false} Injected(pl: Places, root: nat, child: nat, a: set<nat>, b: set<nat>)
    requires a <= Owned(pl, child) && forall h, k :: h in a && k in a && pl[h] == pl[k] ==> h == k
    requires forall h :: h in a ==> exists p :: p in b && At(pl, root, p, pl[h].level, pl[h].prefix)
    ensures |a| <= |b|
  {
    if a != {} {
      var h :| h in a;
      var p :| p in b && At(pl, root, p, pl[h].level, pl[h].prefix);
      forall k | k in a - {h} ensures exists q :: q in b - {p} && At(pl, root, q, pl[k].level, pl[k].prefix) {
        var q :| q in b && At(pl, root, q, pl[k].level, pl[k].prefix);
        assert pl[h] != pl[k];
      }
      Injected(pl, root, child, a - {h}, b - {p});
    }
  }

  lemma OthersOwn(pl: Places, root: nat, child: nat)
    requires root != child
    ensures Owned(Others(pl, child), root) == Owned(pl, root)
  {
  }

  /** A table of the parent at a place where the child has none: the child has fewer. */
  lemma Unmirrored(t: Tables, pl: Places, root: nat, child: nat, p: nat)
    requires Sound(t, pl) && Mirrors(pl, root, child) && p in Owned(pl, root)
    requires forall h :: !At(pl, child, h, pl[p].level, pl[p].prefix)
    ensures |Owned(pl, child)| < |Owned(pl, root)|
  {
    var a, b := Owned(pl, child), Owned(pl, root) - {p};
    forall h, k | h in a && k in a && pl[h] == pl[k] ensures h == k {
      SamePlace(t, pl, h, k);
    }
    forall h | h in a ensures exists q :: q in b && At(pl, root, q, pl[h].level, pl[h].prefix) {
      var q :| At(pl, root, q, pl[h].level, pl[h].prefix);
      assert !At(pl, child, h, pl[p].level, pl[p].prefix);
      assert q in b;
    }
    Injected(pl, root, child, a, b);
  }

  /** Stopped at an entry for want of a frame: there were fewer free frames than the parent has tables. */
  lemma Short(t: Tables, pl: Places, root: nat, child: nat, g: nat, level: nat, n: nat, p: nat, had: nat, base: Places)
    requires Sound(t, pl) && 0 < level <= 3 && At(pl, child, g, level, n / ENTRIES) && (level == 3 ==> g == child)
    requires HasTable(t, g) && !t[g][n % ENTRIES].present && At(pl, root, p, level - 1, n) && root != child
    requires Paid(pl, {}, root, child, had, base)
    ensures had < |Owned(base, root)|
  {
    OthersOwn(pl, root, child);
    var below := level - 1;
    forall h ensures !At(pl, child, h, below, n) {
      NoTableAt(t, pl, child, g, level, n, h);
    }
    Unmirrored(t, pl, root, child, p);
  }

  /** The child has no more tables than the parent. */
  lemma {:induction false} ChildSize(t: Tables, pl: Places, root: nat, child: nat)
    requires Sound(t, pl) && Mirrors(pl, root, child)
    ensures |Owned(pl, child)| <= |Owned(pl, root)|
  {
    forall h, k | h in Owned(pl, child) && k in Owned(pl, child) && pl[h] == pl[k] ensures h == k {
      SamePlace(t, pl, h, k);
    }
    forall h | h in Owned(pl, child)
      ensures exists p :: p in Owned(pl, root) && At(pl, root, p, pl[h].level, pl[h].prefix)
    {
      var p :| At(pl, root, p, pl[h].level, pl[h].prefix);
      assert p in Owned(pl, root);
    }
    Injected(pl, root, child, Owned(pl, child), Owned(pl, root));
  }

  /** After a fork every address space is within the bound that held before. */
  lemma ForkBounded(t: Tables, pl: Places, free: set<nat>, root: nat, child: nat, had: nat, base: Places, bound: nat)
    requires Sound(t, pl) && Paid(pl, free, root, child, had, base) && root != child && Bounded(base, bound)
    ensures Bounded(pl, bound) && |free| + |Owned(base, root)| >= had
  {
    ChildSize(t, pl, root, child);
    OthersOwn(pl, root, child);
    forall r ensures |Owned(pl, r)| <= bound {
      assert |Owned(base, r)| <= bound && |Owned(base, root)| <= bound;
      if r != child { OthersOwn(pl, r, child); }
    }
  }

  lemma ForkGrew(t: Tables, pl: Places, free: set<nat>, root: nat, child: nat, had: nat, base: Places)
    requires Sound(t, pl) && Paid(pl, free, root, child, had, base) && root != child
    ensures |free| + |Owned(base, root)| >= had && forall n :: Bounded(base, n) ==> Bounded(pl, n)
  {
    ChildSize(t, pl, root, child);
    OthersOwn(pl, root, child);
    forall n | Bounded(base, n) ensures Bounded(pl, n) {
      ForkBounded(t, pl, free, root, child, had, base, n);
    }
  }

  lemma FewerBounded(pl: Places, pl': Places, bound: nat)
    requires Fewer(pl, pl') && Bounded(pl, bound)
    ensures Bounded(pl', bound)
  {
    forall r ensures |Owned(pl', r)| <= bound {
      assert |Owned(pl, r)| <= bound;
      SmallerSet(Owned(pl', r), Owned(pl, r));
    }
  }

  /** Tearing the child down again leaves the tables there were before. */
  lemma Refunded(t1: Tables, pl1: Places, t2: Tables, pl2: Places, child: nat, base: Places)
    requires Others(pl1, child) == base && t1.Keys == pl1.Keys && Spared(t1, pl1, t2, pl2, child, 4) && Fewer(pl1, pl2)
    requires forall h :: h in pl2 ==> pl2[h].owner != Private(child)
    ensures pl2 == base
  {
    assert pl2.Keys == base.Keys;
  }
}
