/**
 The buddy allocator's steps as functions on its state, and the invariant each keeps: blocks
 partition the managed pages, block heads are described truthfully, and list o holds exactly
 the free blocks of order o.
 */
module BuddyState {
  import opened BuddyBlocks
  import opened BuddyLists

  const BUDDY_MAX_PAGES: nat := 65536
  const PAGE_SIZE: nat := 4096
  const PHYS_MEM_BASE: nat := 0x100000
  const KERNEL_PHYS_MAX: nat := 0x40000000

  function PfnToPhys(pfn: nat): nat {
    PHYS_MEM_BASE + pfn * PAGE_SIZE
  }

  // ---------- What the allocator keeps ----------

  /** A block's first page describes the block; no other page's descriptor has to be current. */
  ghost predicate DescOk(p: PageDesc, v: Use, q: nat) {
    match v
    case Unmanaged => !p.free
    case Free(o) => !p.reserved && (IsHead(q, o) ==> p.free && p.order == o && p.physAddr == PfnToPhys(q))
    case Live(o) => !p.reserved && (IsHead(q, o) ==> !p.free && p.order == o && p.physAddr == PfnToPhys(q))
  }

  ghost predicate Descs(d: seq<PageDesc>, u: seq<Use>) {
    |d| == |u| && forall q :: 0 <= q < |u| ==> DescOk(d[q], u[q], q)
  }

  ghost predicate FreeHead(u: seq<Use>, q: nat, o: nat) {
    q < |u| && u[q] == Free(o) && IsHead(q, o)
  }

  ghost predicate ListsHeads(l: seq<nat>, u: seq<Use>, o: nat) {
    forall q :: q in l <==> FreeHead(u, q, o)
  }

  /** List o holds the heads of the free blocks of order o, and nothing else. */
  ghost predicate Members(ls: seq<seq<nat>>, u: seq<Use>) {
    |ls| == MAX_ORDER + 1 && forall o :: 0 <= o <= MAX_ORDER ==> ListsHeads(ls[o], u, o)
  }

  /** Descriptors, list heads, and (for the proof) the lists' contents and the page labels. */
  datatype State = State(d: seq<PageDesc>, h: seq<int>, ls: seq<seq<nat>>, u: seq<Use>)

  ghost predicate Inv(s: State) {
    |s.d| == BUDDY_MAX_PAGES && Partitioned(s.u) && Descs(s.d, s.u) && Lists(s.d, s.h, s.ls) && Members(s.ls, s.u)
  }

  /** q heads a free block whose buddy is a free block of the same order. */
  ghost predicate FreePair(u: seq<Use>, q: nat, o: nat) {
    && q < |u| && u[q] == Free(o) && IsHead(q, o) && o < MAX_ORDER
    && Flip(q, o) < |u| && u[Flip(q, o)] == Free(o)
  }

  ghost predicate Coalesced(u: seq<Use>) {
    forall q, o :: !FreePair(u, q, o)
  }

  /** No free block is of this order or a larger one. */
  ghost predicate NoBlock(u: seq<Use>, order: nat) {
    forall x, q :: order <= x <= MAX_ORDER ==> !FreeHead(u, q, x)
  }

  /** flags = FREE, order and physical address set: a freshly described free block. */
  function AsFree(p: PageDesc, o: nat, pfn: nat): PageDesc {
    p.(free := true, reserved := false, slab := false, order := o, physAddr := PfnToPhys(pfn))
  }

  lemma SplitMembers(ls: seq<seq<nat>>, u: seq<Use>, p: nat, o: nat, left: nat, right: nat)
    requires Partitioned(u) && Members(ls, u) && 0 < o <= MAX_ORDER && ls[o] != [] && ls[o][0] == p && NoRepeats(ls[o])
    requires left == p && right == p + Pow2(o - 1)
    ensures Members(ls[o := ls[o][1..]][o - 1 := [right, left] + ls[o - 1]], Paint(u, Idx(p, o), o, Free(o - 1)))
    ensures left < |u| && right < |u| && left != right && IsHead(left, o - 1) && IsHead(right, o - 1)
    ensures forall q :: 0 <= q && IsHead(q, o - 1) && Idx(q, o) == Idx(p, o) ==> q == left || q == right
    ensures Idx(left, o) == Idx(right, o) == Idx(p, o)
  {
    var k := Idx(p, o);
    assert ListsHeads(ls[o], u, o) && ls[o][0] in ls[o];
    assert FreeHead(u, p, o);
    BlockCovered(u, p, o);
    Halves(k, o - 1);
    HeadIsHead(k, o);
    assert left == Head(2 * k, o - 1) && right == Head(2 * k + 1, o - 1);
    assert Idx(left, o) == k && Idx(right, o) == k;
    forall q | 0 <= q && IsHead(q, o - 1) && Idx(q, o) == k ensures q == left || q == right {
      HalfOf(q, o - 1, k);
    }
    var ls' := ls[o := ls[o][1..]][o - 1 := [right, left] + ls[o - 1]];
    var u' := Paint(u, k, o, Free(o - 1));
    forall x | 0 <= x <= MAX_ORDER ensures ListsHeads(ls'[x], u', x) {
      assert ListsHeads(ls[x], u, x);
      forall q: nat ensures q in ls'[x] <==> FreeHead(u', q, x) {
        assert q in ls[x] <==> FreeHead(u, q, x);
        if x == o {
          TailMembers(ls[o], q);
        }
      }
    }
  }

  lemma TailMembers(l: seq<nat>, q: nat)
    requires l != [] && NoRepeats(l)
    ensures q in l[1..] <==> q in l && q != l[0]
  {
    assert l == [l[0]] + l[1..];
  }

  // ---------- List steps ----------

  ghost function Redescribe(s: State, p: nat, o: nat): (s': State) {
    if p < |s.d| then s.(d := s.d[p := AsFree(s.d[p], o, p)]) else s
  }

  ghost predicate Shaped(s: State) {
    |s.h| == |s.ls| == MAX_ORDER + 1
  }

  ghost function AddF(s: State, o: nat, p: nat): (s': State) {
    if Shaped(s) && o <= MAX_ORDER && p < |s.d| then
      s.(d := s.d[p := s.d[p].(next := s.h[o])], h := s.h[o := p], ls := s.ls[o := [p] + s.ls[o]])
    else s
  }

  ghost function DelF(s: State, o: nat, i: nat): (s': State)
    requires Shaped(s) && o <= MAX_ORDER && i < |s.ls[o]|
    requires s.ls[o][i] < |s.d| && (i > 0 ==> s.ls[o][i - 1] < |s.d|)
  {
    var p := s.ls[o][i];
    var d1 := if i == 0 then s.d else var prev := s.ls[o][i - 1]; s.d[prev := s.d[prev].(next := s.d[p].next)];
    s.(d := d1[p := d1[p].(next := NIL)],
       h := if i == 0 then s.h[o := s.d[p].next] else s.h,
       ls := s.ls[o := Cut(s.ls[o], i)])
  }

  lemma AddLists(s: State, o: nat, p: nat)
    requires Lists(s.d, s.h, s.ls) && o <= MAX_ORDER && p < |s.d| && forall x :: 0 <= x < |s.ls| ==> p !in s.ls[x]
    ensures var s' := AddF(s, o, p); Lists(s'.d, s'.h, s'.ls) && SameButNext(s.d, s'.d)
  {
    ListAdded(s.d, s.h, s.ls, o, p);
  }

  lemma AddPairLists(s: State, o: nat, p: nat, q: nat)
    requires Lists(s.d, s.h, s.ls) && o <= MAX_ORDER && p < |s.d| && q < |s.d| && p != q
    requires forall x :: 0 <= x < |s.ls| ==> p !in s.ls[x] && q !in s.ls[x]
    ensures var s' := AddF(AddF(s, o, p), o, q);
      Lists(s'.d, s'.h, s'.ls) && SameButNext(s.d, s'.d) && s'.ls == s.ls[o := [q, p] + s.ls[o]]
  {
    AddLists(s, o, p);
    var s1 := AddF(s, o, p);
    assert q !in s1.ls[o];
    AddLists(s1, o, q);
    assert [q] + ([p] + s.ls[o]) == [q, p] + s.ls[o];
  }

  lemma DelBounds(s: State, o: nat, i: nat)
    requires Lists(s.d, s.h, s.ls) && o <= MAX_ORDER && i < |s.ls[o]|
    ensures s.ls[o][i] < |s.d| && (i > 0 ==> s.ls[o][i - 1] < |s.d| && s.ls[o][i - 1] != s.ls[o][i])
  {
    assert Linked(s.d, s.h[o], s.ls[o]) && NoRepeats(s.ls[o]);
  }

  lemma DelLists(s: State, o: nat, i: nat)
    requires Lists(s.d, s.h, s.ls) && o <= MAX_ORDER && i < |s.ls[o]|
    requires s.ls[o][i] < |s.d| && (i > 0 ==> s.ls[o][i - 1] < |s.d| && s.ls[o][i - 1] != s.ls[o][i])
    ensures var s' := DelF(s, o, i); Lists(s'.d, s'.h, s'.ls) && SameButNext(s.d, s'.d)
    ensures forall q :: q in DelF(s, o, i).ls[o] <==> q in s.ls[o] && q != s.ls[o][i]
    ensures forall x :: 0 <= x <= MAX_ORDER ==> s.ls[o][i] !in DelF(s, o, i).ls[x]
  {
    var s' := DelF(s, o, i);
    ListRemoved(s.d, s.h, s.ls, o, i, s'.d, s'.h);
    CutMembers(s.ls[o], i);
    assert s.ls[o][i] in s.ls[o];
  }

  ghost function IndexOf(l: seq<nat>, q: nat): (i: nat)
    requires q in l
    ensures i < |l| && l[i] == q
  {
    if l[0] == q then 0 else 1 + IndexOf(l[1..], q)
  }

  ghost predicate Deletable(s: State, o: nat, p: nat) {
    Lists(s.d, s.h, s.ls) && o <= MAX_ORDER && p in s.ls[o]
  }

  /** list_del; a page that is not on the list is left alone. */
  ghost function DelP(s: State, o: nat, p: nat): (s': State) {
    if Deletable(s, o, p) then
      DelBounds(s, o, IndexOf(s.ls[o], p));
      DelF(s, o, IndexOf(s.ls[o], p))
    else s
  }

  lemma DelPKeeps(s: State, o: nat, p: nat)
    requires Deletable(s, o, p)
    ensures var s' := DelP(s, o, p);
      && Lists(s'.d, s'.h, s'.ls) && SameButNext(s.d, s'.d) && s'.u == s.u
      && (forall q :: q in s'.ls[o] <==> q in s.ls[o] && q != p)
      && (forall x :: 0 <= x <= MAX_ORDER && x != o ==> s'.ls[x] == s.ls[x])
      && (forall x :: 0 <= x <= MAX_ORDER ==> p !in s'.ls[x])
  {
    var i := IndexOf(s.ls[o], p);
    DelBounds(s, o, i);
    DelLists(s, o, i);
  }

  // ---------- Splitting ----------

  ghost function SplitF(s: State, o: nat): (s': State)
    requires Shaped(s) && 0 < o <= MAX_ORDER && s.ls[o] != []
  {
    var p := s.ls[o][0];
    var right := p + Pow2(o - 1);
    var s2 := Redescribe(Redescribe(DelP(s, o, p), p, o - 1), right, o - 1);
    AddF(AddF(s2, o - 1, p), o - 1, right).(u := Paint(s.u, Idx(p, o), o, Free(o - 1)))
  }

  /** The right half of a free block is on no list: it heads no block yet. */
  lemma RightUnlisted(ls: seq<seq<nat>>, u: seq<Use>, o: nat, p: nat, right: nat)
    requires Partitioned(u) && Members(ls, u) && 0 < o <= MAX_ORDER && ls[o] != [] && NoRepeats(ls[o])
    requires p == ls[o][0] && right == p + Pow2(o - 1)
    ensures right < |u| && forall x :: 0 <= x <= MAX_ORDER ==> right !in ls[x]
  {
    assert ListsHeads(ls[o], u, o) && ls[o][0] in ls[o];
    SplitMembers(ls, u, p, o, p, right);
    BlockCovered(u, p, o);
    assert u[right] == Free(o) && !IsHead(right, o);
    forall x | 0 <= x <= MAX_ORDER ensures right !in ls[x] {
      assert ListsHeads(ls[x], u, x);
    }
  }

  lemma SplitSplits(s: State, o: nat, p: nat, right: nat)
    requires Shaped(s) && 0 < o <= MAX_ORDER && s.ls[o] != [] && p == s.ls[o][0] && right == p + Pow2(o - 1)
    ensures var s2 := Redescribe(Redescribe(DelP(s, o, p), p, o - 1), right, o - 1);
      SplitF(s, o) == AddF(AddF(s2, o - 1, p), o - 1, right).(u := Paint(s.u, Idx(p, o), o, Free(o - 1)))
  {
  }

  lemma SplitLists(s: State, o: nat, p: nat, right: nat)
    requires Lists(s.d, s.h, s.ls) && 0 < o <= MAX_ORDER && s.ls[o] != [] && s.ls[o][0] + Pow2(o - 1) < |s.d|
    requires forall x :: 0 <= x <= MAX_ORDER ==> s.ls[o][0] + Pow2(o - 1) !in s.ls[x]
    requires p == s.ls[o][0] && right == p + Pow2(o - 1)
    ensures var s' := SplitF(s, o);
      && Lists(s'.d, s'.h, s'.ls)
      && s'.ls == s.ls[o := s.ls[o][1..]][o - 1 := [right, p] + s.ls[o - 1]]
      && |s'.d| == |s.d|
      && forall q :: 0 <= q < |s.d| ==>
           s'.d[q] == (if q == p || q == right then AsFree(s.d[q], o - 1, q) else s.d[q]).(next := s'.d[q].next)
  {
    var n := o - 1;
    CutFirst(s, o, n, p, right);
    AddPairLists(Redescribe(Redescribe(DelP(s, o, p), p, n), right, n), n, p, right);
    SplitSplits(s, o, p, right);
  }

  /** The block off its list and its halves described. */
  lemma CutFirst(s: State, o: nat, n: nat, p: nat, right: nat)
    requires Lists(s.d, s.h, s.ls) && o <= MAX_ORDER && s.ls[o] != [] && p == s.ls[o][0] && right < |s.d| && n < o
    requires p != right && forall x :: 0 <= x <= MAX_ORDER ==> right !in s.ls[x]
    ensures var s2 := Redescribe(Redescribe(DelP(s, o, p), p, n), right, n);
      && Lists(s2.d, s2.h, s2.ls) && |s2.d| == |s.d| && p < |s.d| && s2.ls == s.ls[o := s.ls[o][1..]]
      && (forall x :: 0 <= x <= MAX_ORDER ==> p !in s2.ls[x] && right !in s2.ls[x])
      && forall q :: 0 <= q < |s.d| ==>
           s2.d[q] == (if q == p || q == right then AsFree(s.d[q], n, q) else s.d[q]).(next := s2.d[q].next)
  {
    assert s.ls[o][0] in s.ls[o];
    DelPKeeps(s, o, p);
    var s1 := DelP(s, o, p);
    DelBounds(s, o, 0);
    assert IndexOf(s.ls[o], p) == 0;
    assert Cut(s.ls[o], 0) == s.ls[o][1..];
    var s2 := Redescribe(Redescribe(s1, p, n), right, n);
    ListsFrame(s1.d, s2.d, s1.h, s1.ls);
  }

  lemma SplitDescs(d: seq<PageDesc>, d': seq<PageDesc>, u: seq<Use>, u': seq<Use>, o: nat, n: nat, k: nat, p: nat,
      right: nat)
    requires Descs(d, u) && Covered(u, k, o) && |d'| == |d| && u' == Paint(u, k, o, Free(n))
    requires forall q :: 0 <= q < |d| ==>
      d'[q] == (if q == p || q == right then AsFree(d[q], n, q) else d[q]).(next := d'[q].next)
    requires Idx(p, o) == k && Idx(right, o) == k
    requires forall q :: 0 <= q && IsHead(q, n) && Idx(q, o) == k ==> q == p || q == right
    ensures Descs(d', u')
  {
    forall q | 0 <= q < |u'| ensures DescOk(d'[q], u'[q], q) {
      assert DescOk(d[q], u[q], q);
      SplitDesc(d[q], d'[q], u[q], u'[q], n, q, q == p || q == right, Idx(q, o) == k);
    }
  }

  /** One descriptor: freshly written if its page heads a half, and otherwise of no matter inside the block. */
  lemma SplitDesc(d: PageDesc, d': PageDesc, v: Use, v': Use, n: nat, q: nat, written: bool, inside: bool)
    requires DescOk(d, v, q) && d' == (if written then AsFree(d, n, q) else d).(next := d'.next)
    requires if inside then !v.Unmanaged? && v' == Free(n) && (IsHead(q, n) ==> written) else v' == v && !written
    ensures DescOk(d', v', q)
  {
  }

  lemma SplitKeeps(s: State, o: nat)
    requires Inv(s) && 0 < o <= MAX_ORDER && s.ls[o] != []
    ensures s.ls[o][0] + Pow2(o - 1) < |s.d| && Inv(SplitF(s, o))
    ensures SplitF(s, o).ls == s.ls[o := s.ls[o][1..]][o - 1 := [s.ls[o][0] + Pow2(o - 1), s.ls[o][0]] + s.ls[o - 1]]
  {
    var p := s.ls[o][0];
    var right := p + Pow2(o - 1);
    RightUnlisted(s.ls, s.u, o, p, right);
    SplitLists(s, o, p, right);
    SplitMembers(s.ls, s.u, p, o, p, right);
    assert ListsHeads(s.ls[o], s.u, o) && s.ls[o][0] in s.ls[o];
    BlockCovered(s.u, p, o);
    PaintPartitioned(s.u, Idx(p, o), o, Free(o - 1));
    SplitDescs(s.d, SplitF(s, o).d, s.u, SplitF(s, o).u, o, o - 1, Idx(p, o), p, right);
  }

  // ---------- Merging ----------

  ghost function DelTwo(s: State, o: nat, p: nat, b: nat): (s': State) {
    DelP(DelP(s, o, p), o, b)
  }

  lemma DelTwoKeeps(s: State, o: nat, p: nat, b: nat)
    requires Deletable(s, o, p) && p != b && b in s.ls[o]
    ensures var s' := DelTwo(s, o, p, b);
      && Lists(s'.d, s'.h, s'.ls) && SameButNext(s.d, s'.d) && s'.u == s.u
      && (forall q :: q in s'.ls[o] <==> q in s.ls[o] && q != p && q != b)
      && (forall x :: 0 <= x <= MAX_ORDER && x != o ==> s'.ls[x] == s.ls[x])
  {
    DelPKeeps(s, o, p);
    DelPKeeps(DelP(s, o, p), o, b);
  }

  /** p and its free buddy b of order o become one free block of order o + 1. */
  ghost function MergeF(s: State, o: nat, p: nat, b: nat): (s': State)
  {
    var base := if p < b then p else b;
    AddF(Redescribe(DelTwo(s, o, p, b), base, o + 1), o + 1, base).(u := Paint(s.u, Idx(p, o + 1), o + 1, Free(o + 1)))
  }

  lemma ParentPage(u: seq<Use>, o: nat, n: nat, p: nat, b: nat, q: nat)
    requires Partitioned(u) && o < MAX_ORDER && p < |u| && IsHead(p, o) && u[p] == Free(o) && n == o + 1
    requires b == Flip(p, o) && b < |u| && u[b] == Free(o) && Idx(q, n) == Idx(p, n)
    ensures q < |u| && u[q] == Free(o)
  {
    var k := Idx(p, n);
    FlipHead(p, o);
    assert Idx(q, o) == Idx(p, o) || Idx(q, o) == Idx(b, o) by {
      Halves(k, o);
      HalfOf(p, o, k);
      HalfOf(b, o, k);
    }
    assert Whole(u, Idx(p, o), u[p]) && Whole(u, Idx(b, o), u[b]);
  }

  /** The parent of two free buddies is covered by them. */
  lemma ParentCovered(u: seq<Use>, o: nat, p: nat, b: nat)
    requires Partitioned(u) && o < MAX_ORDER && p < |u| && IsHead(p, o) && u[p] == Free(o)
    requires b == Flip(p, o) && b < |u| && u[b] == Free(o)
    ensures Covered(u, Idx(p, o + 1), o + 1)
    ensures forall q :: 0 <= q && Idx(q, o + 1) == Idx(p, o + 1) ==> q < |u| && u[q] == Free(o)
  {
    var n := o + 1;
    forall q {:trigger Idx(q, n)} | 0 <= q && Idx(q, n) == Idx(p, n) ensures q < |u| && u[q] == Free(o) {
      ParentPage(u, o, n, p, b, q);
    }
  }

  /** Heads inside the parent of two buddies: p and b at order o, only base one order up. */
  lemma MergeHeads(o: nat, n: nat, p: nat, b: nat, base: nat, k: nat, q: nat)
    requires n == o + 1 && IsHead(p, o) && b == Flip(p, o)
    requires base == (if p < b then p else b) && k == Idx(p, n)
    ensures IsHead(base, n) && Idx(base, n) == k && Idx(b, n) == k && IsHead(b, o)
    ensures Idx(q, n) == k && IsHead(q, o) ==> q == p || q == b
    ensures Idx(q, n) == k && IsHead(q, n) ==> q == base
  {
    FlipHead(p, o);
    HeadIsHead(k, n);
    if Idx(q, n) == k && IsHead(q, o) {
      HalfOf(q, o, k);
      HalfOf(p, o, k);
      HalfOf(b, o, k);
    }
  }

  lemma MergeMember(ls: seq<seq<nat>>, ls': seq<seq<nat>>, u: seq<Use>, o: nat, p: nat, b: nat, base: nat, n: nat,
      x: nat, q: nat)
    requires |ls'| == |ls| == MAX_ORDER + 1 && x <= MAX_ORDER
    requires q in ls[x] <==> FreeHead(u, q, x)
    requires n == o + 1 <= MAX_ORDER && IsHead(p, o)
    requires b == Flip(p, o)
    requires base == (if p < b then p else b) && |ls'| == |ls|
    requires Idx(q, n) == Idx(p, n) ==> q < |u| && u[q] == Free(o)
    requires q in ls'[o] <==> q in ls[o] && q != p && q != b
    requires ls'[n] == [base] + ls[n]
    requires x != o && x != n ==> ls'[x] == ls[x]
    ensures q in ls'[x] <==> FreeHead(Paint(u, Idx(p, n), n, Free(n)), q, x)
  {
    MergeHeads(o, n, p, b, base, Idx(p, n), q);
  }

  lemma MergeMembers(ls: seq<seq<nat>>, ls': seq<seq<nat>>, u: seq<Use>, o: nat, p: nat, b: nat, base: nat, n: nat)
    requires Members(ls, u) && n == o + 1 <= MAX_ORDER && IsHead(p, o)
    requires b == Flip(p, o)
    requires base == (if p < b then p else b) && MergedLists(ls, ls', o, n, p, b, base)
    requires forall q :: 0 <= q && Idx(q, n) == Idx(p, n) ==> q < |u| && u[q] == Free(o)
    ensures Members(ls', Paint(u, Idx(p, n), n, Free(n)))
  {
    var u' := Paint(u, Idx(p, n), n, Free(n));
    forall x | 0 <= x <= MAX_ORDER ensures ListsHeads(ls'[x], u', x) {
      assert ListsHeads(ls[x], u, x);
      forall q: nat ensures q in ls'[x] <==> FreeHead(u', q, x) {
        MergeMember(ls, ls', u, o, p, b, base, n, x, q);
      }
    }
  }

  /** Only base's descriptor changed, to a free block of order n; `next` fields aside. */
  ghost predicate Redescribed(d: seq<PageDesc>, d': seq<PageDesc>, n: nat, base: nat) {
    |d'| == |d| && forall q :: 0 <= q < |d| ==>
      d'[q] == (if q == base then AsFree(d[q], n, q) else d[q]).(next := d'[q].next)
  }

  /** p and b left list o, and base joined list n. */
  ghost predicate MergedLists(ls: seq<seq<nat>>, ls': seq<seq<nat>>, o: nat, n: nat, p: nat, b: nat, base: nat) {
    && |ls'| == |ls| == MAX_ORDER + 1 && o < n <= MAX_ORDER
    && (forall q :: q in ls'[o] <==> q in ls[o] && q != p && q != b)
    && ls'[n] == [base] + ls[n]
    && (forall x :: 0 <= x <= MAX_ORDER && x != o && x != n ==> ls'[x] == ls[x])
  }

  lemma RedescribeAdd(s: State, n: nat, base: nat)
    requires Lists(s.d, s.h, s.ls) && n <= MAX_ORDER && base < |s.d|
    requires forall x :: 0 <= x < |s.ls| ==> base !in s.ls[x]
    ensures var s' := AddF(Redescribe(s, base, n), n, base);
      Lists(s'.d, s'.h, s'.ls) && s'.ls == s.ls[n := [base] + s.ls[n]] && Redescribed(s.d, s'.d, n, base)
  {
    var s3 := Redescribe(s, base, n);
    ListsFrame(s.d, s3.d, s.h, s.ls);
    AddLists(s3, n, base);
  }

  lemma RedescribedAfter(d: seq<PageDesc>, d2: seq<PageDesc>, d': seq<PageDesc>, n: nat, base: nat)
    requires SameButNext(d, d2) && Redescribed(d2, d', n, base)
    ensures Redescribed(d, d', n, base)
  {
  }

  lemma MergedAfter(ls: seq<seq<nat>>, ls2: seq<seq<nat>>, o: nat, n: nat, p: nat, b: nat, base: nat)
    requires |ls2| == |ls| == MAX_ORDER + 1 && o < n <= MAX_ORDER && base in {p, b}
    requires forall q :: q in ls2[o] <==> q in ls[o] && q != p && q != b
    requires forall x :: 0 <= x <= MAX_ORDER && x != o ==> ls2[x] == ls[x] && base !in ls[x]
    ensures MergedLists(ls, ls2[n := [base] + ls2[n]], o, n, p, b, base)
    ensures forall x :: 0 <= x <= MAX_ORDER ==> base !in ls2[x]
  {
  }

  lemma MergeLists(s: State, o: nat, p: nat, b: nat, base: nat)
    requires Deletable(s, o, p) && p != b && b in s.ls[o] && o < MAX_ORDER && p < |s.d| && b < |s.d|
    requires base == if p < b then p else b
    requires forall x :: 0 <= x <= MAX_ORDER && x != o ==> base !in s.ls[x]
    ensures var s' := MergeF(s, o, p, b);
      Lists(s'.d, s'.h, s'.ls) && MergedLists(s.ls, s'.ls, o, o + 1, p, b, base) && Redescribed(s.d, s'.d, o + 1, base)
  {
    DelTwoKeeps(s, o, p, b);
    var s2 := DelTwo(s, o, p, b);
    MergedAfter(s.ls, s2.ls, o, o + 1, p, b, base);
    RedescribeAdd(s2, o + 1, base);
    var s3 := AddF(Redescribe(s2, base, o + 1), o + 1, base);
    assert MergeF(s, o, p, b) == s3.(u := MergeF(s, o, p, b).u);
    RedescribedAfter(s.d, s2.d, s3.d, o + 1, base);
  }

  lemma MergeDescs(d: seq<PageDesc>, d': seq<PageDesc>, u: seq<Use>, n: nat, base: nat)
    requires Descs(d, u) && Covered(u, Idx(base, n), n) && IsHead(base, n) && Redescribed(d, d', n, base)
    ensures Descs(d', Paint(u, Idx(base, n), n, Free(n)))
  {
    var u' := Paint(u, Idx(base, n), n, Free(n));
    forall q | 0 <= q < |u'| ensures DescOk(d'[q], u'[q], q) {
      assert DescOk(d[q], u[q], q);
    }
  }

  /** Two free buddies are both on the list of their order, and their parent's head on no other. */
  lemma PairListed(ls: seq<seq<nat>>, u: seq<Use>, o: nat, p: nat, b: nat, base: nat)
    requires Members(ls, u) && o < MAX_ORDER && FreeHead(u, p, o) && FreeHead(u, b, o) && base in {p, b}
    ensures p in ls[o] && b in ls[o]
    ensures forall x :: 0 <= x <= MAX_ORDER && x != o ==> base !in ls[x]
  {
    assert ListsHeads(ls[o], u, o);
    forall x | 0 <= x <= MAX_ORDER && x != o ensures base !in ls[x] {
      assert ListsHeads(ls[x], u, x);
    }
  }

  lemma MergeLabels(ls: seq<seq<nat>>, ls': seq<seq<nat>>, d: seq<PageDesc>, d': seq<PageDesc>, u: seq<Use>,
                    o: nat, p: nat, b: nat, base: nat, n: nat)
    requires Partitioned(u) && Members(ls, u) && Descs(d, u) && n == o + 1 <= MAX_ORDER && FreeHead(u, p, o)
    requires b == Flip(p, o) && b < |u| && u[b] == Free(o)
    requires base == (if p < b then p else b) && MergedLists(ls, ls', o, n, p, b, base) && Redescribed(d, d', n, base)
    ensures var u' := Paint(u, Idx(p, n), n, Free(n));
      Partitioned(u') && Members(ls', u') && Descs(d', u') && FreeHead(u', base, n)
  {
    MergeHeads(o, n, p, b, base, Idx(p, n), p);
    ParentCovered(u, o, p, b);
    MergeMembers(ls, ls', u, o, p, b, base, n);
    PaintPartitioned(u, Idx(p, n), n, Free(n));
    MergeDescs(d, d', u, n, base);
  }

  lemma MergeKeeps(s: State, o: nat, p: nat, b: nat)
    requires Inv(s) && o < MAX_ORDER && FreeHead(s.u, p, o)
    requires b == Flip(p, o) && b < |s.u| && s.u[b] == Free(o)
    ensures Inv(MergeF(s, o, p, b))
    ensures var base := if p < b then p else b; FreeHead(MergeF(s, o, p, b).u, base, o + 1)
  {
    var base := if p < b then p else b;
    FlipHead(p, o);
    PairListed(s.ls, s.u, o, p, b, base);
    MergeLists(s, o, p, b, base);
    var s' := MergeF(s, o, p, b);
    MergeLabels(s.ls, s'.ls, s.d, s'.d, s.u, o, p, b, base, o + 1);
  }

  // ---------- Taking and giving back ----------

  /** The first free block of order o is handed out. */
  ghost function TakeF(s: State, o: nat): (s': State)
    requires Shaped(s) && o <= MAX_ORDER && s.ls[o] != [] && s.ls[o][0] < |s.d|
  {
    var p := s.ls[o][0];
    var s1 := DelP(s, o, p);
    s1.(d := s1.d[p := s1.d[p].(free := false, order := o, refCount := 1)], u := Paint(s.u, Idx(p, o), o, Live(o)))
  }

  lemma TakeMembers(ls: seq<seq<nat>>, u: seq<Use>, p: nat, o: nat)
    requires Members(ls, u) && o <= MAX_ORDER && ls[o] != [] && ls[o][0] == p && NoRepeats(ls[o])
    requires FreeHead(u, p, o) && forall r :: 0 <= r < |u| && Idx(r, o) == Idx(p, o) ==> u[r] == Free(o)
    ensures Members(ls[o := ls[o][1..]], Paint(u, Idx(p, o), o, Live(o)))
  {
    var ls', u' := ls[o := ls[o][1..]], Paint(u, Idx(p, o), o, Live(o));
    forall x | 0 <= x <= MAX_ORDER ensures ListsHeads(ls'[x], u', x) {
      assert ListsHeads(ls[x], u, x);
      forall q: nat ensures q in ls'[x] <==> FreeHead(u', q, x) {
        TailMembers(ls[o], q);
      }
    }
  }

  /** Relabelling one block and redescribing its head. */
  lemma OwnDescs(d: seq<PageDesc>, d': seq<PageDesc>, u: seq<Use>, p: nat, o: nat, v: Use)
    requires Descs(d, u) && p < |u| && IsHead(p, o) && |d'| == |d| && (v == Free(o) || v == Live(o))
    requires forall r :: 0 <= r < |u| && Idx(r, o) == Idx(p, o) ==> u[r] == u[p]
    requires u[p] == Free(o) || u[p] == Live(o)
    requires forall q :: 0 <= q < |d| && q != p ==> d'[q] == d[q].(next := d'[q].next)
    requires d'[p].free == v.Free? && d'[p].order == o && d'[p].physAddr == d[p].physAddr
    requires d'[p].reserved == d[p].reserved
    ensures Descs(d', Paint(u, Idx(p, o), o, v))
  {
    var u' := Paint(u, Idx(p, o), o, v);
    assert DescOk(d[p], u[p], p);
    forall q | 0 <= q < |u'| ensures DescOk(d'[q], u'[q], q) {
      assert DescOk(d[q], u[q], q);
    }
  }

  lemma TakeKeeps(s: State, o: nat)
    requires Inv(s) && o <= MAX_ORDER && s.ls[o] != []
    ensures s.ls[o][0] < |s.d| && FreeHead(s.u, s.ls[o][0], o) && Inv(TakeF(s, o))
    ensures TakeF(s, o).ls == s.ls[o := s.ls[o][1..]]
  {
    var p := s.ls[o][0];
    assert ListsHeads(s.ls[o], s.u, o) && p in s.ls[o];
    DelPKeeps(s, o, p);
    assert IndexOf(s.ls[o], p) == 0;
    var s1, s' := DelP(s, o, p), TakeF(s, o);
    assert Cut(s.ls[o], 0) == s.ls[o][1..];
    ListsFrame(s1.d, s'.d, s1.h, s1.ls);
    BlockCovered(s.u, p, o);
    TakeMembers(s.ls, s.u, p, o);
    PaintPartitioned(s.u, Idx(p, o), o, Live(o));
    OwnDescs(s.d, s'.d, s.u, p, o, Live(o));
  }

  /** A live block comes back as a free block of its order. */
  ghost function GiveF(s: State, p: nat, o: nat): (s': State)
    requires Shaped(s) && o <= MAX_ORDER && p < |s.d|
  {
    AddF(s.(d := s.d[p := s.d[p].(free := true, order := o, refCount := 0)]), o, p).(u :=
      Paint(s.u, Idx(p, o), o, Free(o)))
  }

  lemma GiveMembers(ls: seq<seq<nat>>, u: seq<Use>, p: nat, o: nat)
    requires Members(ls, u) && o <= MAX_ORDER && p < |u| && u[p] == Live(o) && IsHead(p, o)
    requires forall r :: 0 <= r < |u| && Idx(r, o) == Idx(p, o) ==> u[r] == Live(o)
    ensures Members(ls[o := [p] + ls[o]], Paint(u, Idx(p, o), o, Free(o)))
    ensures forall x :: 0 <= x <= MAX_ORDER ==> p !in ls[x]
  {
    var ls', u' := ls[o := [p] + ls[o]], Paint(u, Idx(p, o), o, Free(o));
    forall x | 0 <= x <= MAX_ORDER ensures ListsHeads(ls'[x], u', x) && p !in ls[x] {
      assert ListsHeads(ls[x], u, x);
      forall q: nat ensures q in ls'[x] <==> FreeHead(u', q, x) {
      }
    }
  }

  lemma GiveKeeps(s: State, p: nat, o: nat)
    requires Inv(s) && p < |s.u| && s.u[p] == Live(o) && IsHead(p, o)
    ensures o <= MAX_ORDER && p < |s.d| && Inv(GiveF(s, p, o)) && FreeHead(GiveF(s, p, o).u, p, o)
    ensures GiveF(s, p, o).ls == s.ls[o := [p] + s.ls[o]]
  {
    assert Whole(s.u, Idx(p, o), s.u[p]);
    BlockCovered(s.u, p, o);
    GiveMembers(s.ls, s.u, p, o);
    var s1 := s.(d := s.d[p := s.d[p].(free := true, order := o, refCount := 0)]);
    ListsFrame(s.d, s1.d, s.h, s.ls);
    AddLists(s1, o, p);
    var s' := GiveF(s, p, o);
    assert s' == AddF(s1, o, p).(u := s'.u);
    PaintPartitioned(s.u, Idx(p, o), o, Free(o));
    OwnDescs(s.d, s'.d, s.u, p, o, Free(o));
  }

  // ---------- What the steps leave alone ----------

  /** Descriptors of pages outside free blocks are not written. */
  ghost predicate Untouched(s: State, s': State) {
    && |s'.d| == |s.d| == |s.u| && (forall q :: 0 <= q < |s.u| && !s.u[q].Free? ==> s'.d[q] == s.d[q])
    && NoNewSlab(s.d, s'.d)
  }

  /** No descriptor becomes one of a slab page. */
  ghost predicate NoNewSlab(d: seq<PageDesc>, d': seq<PageDesc>) {
    |d'| == |d| && forall q :: 0 <= q < |d| && d'[q].slab ==> d[q].slab
  }

  lemma ListedIsFree(s: State, o: nat, q: nat)
    requires Inv(s) && o <= MAX_ORDER && q in s.ls[o]
    ensures FreeHead(s.u, q, o)
  {
    assert ListsHeads(s.ls[o], s.u, o);
  }

  lemma DelUntouched(s: State, o: nat, p: nat)
    requires Deletable(s, o, p) && |s.u| == |s.d|
    requires forall q :: q in s.ls[o] ==> q < |s.u| && s.u[q].Free?
    ensures Untouched(s, DelP(s, o, p))
  {
    var i := IndexOf(s.ls[o], p);
    DelBounds(s, o, i);
    assert s.ls[o][i] in s.ls[o] && (i > 0 ==> s.ls[o][i - 1] in s.ls[o]);
  }

  lemma SplitUntouched(s: State, o: nat)
    requires Inv(s) && 0 < o <= MAX_ORDER && s.ls[o] != []
    ensures Untouched(s, SplitF(s, o))
  {
    var p := s.ls[o][0];
    assert ListsHeads(s.ls[o], s.u, o) && p in s.ls[o];
    RightUnlisted(s.ls, s.u, o, p, p + Pow2(o - 1));
    SplitMembers(s.ls, s.u, p, o, p, p + Pow2(o - 1));
    BlockCovered(s.u, p, o);
    DelUntouched(s, o, p);
  }

  lemma TakeUntouched(s: State, o: nat)
    requires Inv(s) && o <= MAX_ORDER && s.ls[o] != [] && s.ls[o][0] < |s.d|
    ensures Untouched(s, TakeF(s, o))
  {
    assert ListsHeads(s.ls[o], s.u, o) && s.ls[o][0] in s.ls[o];
    DelUntouched(s, o, s.ls[o][0]);
  }

  /** Redescribing and listing a free page touches no other descriptor. */
  lemma RelistUntouched(s: State, n: nat, p: nat)
    requires |s.u| == |s.d| && p < |s.u| && s.u[p].Free?
    ensures Untouched(s, AddF(Redescribe(s, p, n), n, p))
  {
  }

  lemma UntouchedChain(s: State, t: State, r: State)
    requires Untouched(s, t) && Untouched(t, r) && t.u == s.u
    ensures Untouched(s, r)
  {
  }

  lemma DelTwoUntouched(s: State, o: nat, p: nat, b: nat)
    requires Deletable(s, o, p) && b in s.ls[o] && b != p && |s.u| == |s.d|
    requires forall q :: q in s.ls[o] ==> q < |s.u| && s.u[q].Free?
    ensures Untouched(s, DelTwo(s, o, p, b))
  {
    DelUntouched(s, o, p);
    DelPKeeps(s, o, p);
    DelUntouched(DelP(s, o, p), o, b);
    DelPKeeps(DelP(s, o, p), o, b);
    UntouchedChain(s, DelP(s, o, p), DelTwo(s, o, p, b));
  }

  lemma MergeUntouched(s: State, o: nat, p: nat, b: nat)
    requires Inv(s) && o < MAX_ORDER && FreeHead(s.u, p, o)
    requires b == Flip(p, o) && b < |s.u| && s.u[b] == Free(o)
    ensures Untouched(s, MergeF(s, o, p, b))
  {
    FlipHead(p, o);
    assert ListsHeads(s.ls[o], s.u, o);
    DelTwoUntouched(s, o, p, b);
    DelTwoKeeps(s, o, p, b);
    var base, t := if p < b then p else b, DelTwo(s, o, p, b);
    RelistUntouched(t, o + 1, base);
    UntouchedChain(s, t, AddF(Redescribe(t, base, o + 1), o + 1, base));
  }

  /** Free pages stay free (perhaps in other blocks); every other page keeps its label. */
  ghost predicate SameKinds(u: seq<Use>, u': seq<Use>) {
    |u'| == |u| && forall q :: 0 <= q < |u| ==> (u[q].Free? <==> u'[q].Free?) && (!u[q].Free? ==> u'[q] == u[q])
  }
}
