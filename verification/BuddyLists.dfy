/**
 Page descriptors and the intrusive free lists threaded through them: one singly linked list
 per order, linked by page number, -1 standing for NULL.
 */
module BuddyLists {
  import opened BuddyBlocks

  const NIL: int := -1

  datatype PageDesc = PageDesc(
    free: bool, reserved: bool, slab: bool, order: nat, refCount: nat, physAddr: nat, next: int, cache: int)

  ghost predicate NoRepeats(l: seq<nat>) {
    forall i, j :: 0 <= i < j < |l| ==> l[i] != l[j]
  }

  /** What the page at position i must link to. */
  function Succ(l: seq<nat>, i: nat): int {
    if i + 1 < |l| then l[i + 1] else NIL
  }

  /** Following `next` from h visits exactly l and then stops. */
  ghost predicate Linked(d: seq<PageDesc>, h: int, l: seq<nat>) {
    && h == (if l == [] then NIL else l[0])
    && (forall i :: 0 <= i < |l| ==> l[i] < |d|)
    && (forall i {:trigger d[l[i]]} :: 0 <= i < |l| ==> d[l[i]].next == Succ(l, i))
  }

  /** The free lists: acyclic, and no page is on two of them. */
  ghost predicate Lists(d: seq<PageDesc>, hs: seq<int>, ls: seq<seq<nat>>) {
    && |hs| == |ls| == MAX_ORDER + 1
    && (forall o :: 0 <= o < |ls| ==> Linked(d, hs[o], ls[o]) && NoRepeats(ls[o]))
    && (forall o, o', q :: 0 <= o < o' < |ls| && q in ls[o] ==> q !in ls[o'])
  }

  /** Only `next` fields differ. */
  ghost predicate SameButNext(d: seq<PageDesc>, d': seq<PageDesc>) {
    |d'| == |d| && forall q :: 0 <= q < |d| ==> d'[q] == d[q].(next := d'[q].next)
  }

  lemma LinkedFrame(d: seq<PageDesc>, d': seq<PageDesc>, h: int, l: seq<nat>)
    requires Linked(d, h, l) && |d'| == |d|
    requires forall q :: q in l ==> q < |d| && d'[q].next == d[q].next
    ensures Linked(d', h, l)
  {
  }

  lemma ListsFrame(d: seq<PageDesc>, d': seq<PageDesc>, hs: seq<int>, ls: seq<seq<nat>>)
    requires Lists(d, hs, ls) && |d'| == |d|
    requires forall q :: 0 <= q < |d| ==> d'[q].next == d[q].next
    ensures Lists(d', hs, ls)
  {
    forall o | 0 <= o < |ls| ensures Linked(d', hs[o], ls[o]) {
      assert Linked(d, hs[o], ls[o]);
    }
  }

  lemma UnlistedFrame(d: seq<PageDesc>, d': seq<PageDesc>, hs: seq<int>, ls: seq<seq<nat>>, p: nat)
    requires Lists(d, hs, ls) && |d'| == |d| && forall x :: 0 <= x < |ls| ==> p !in ls[x]
    requires forall q :: 0 <= q < |d| && q != p ==> d'[q].next == d[q].next
    ensures Lists(d', hs, ls)
  {
    forall o | 0 <= o < |ls| ensures Linked(d', hs[o], ls[o]) {
      LinkedFrame(d, d', hs[o], ls[o]);
    }
  }

  lemma LinkedCons(d: seq<PageDesc>, d': seq<PageDesc>, h: int, p: nat, l: seq<nat>)
    requires Linked(d, h, l) && |d'| == |d| && p < |d| && p !in l && d'[p].next == h
    requires forall q :: q in l ==> q < |d| && d'[q].next == d[q].next
    requires NoRepeats(l)
    ensures Linked(d', p, [p] + l) && NoRepeats([p] + l)
  {
    var l' := [p] + l;
    assert forall i :: 0 < i < |l'| ==> l'[i] == l[i - 1] && l'[i] in l;
    forall i | 0 <= i < |l'| ensures l'[i] < |d'| && d'[l'[i]].next == Succ(l', i) {
      if i > 0 { assert d[l[i - 1]].next == Succ(l, i - 1); }
    }
  }

  function Cut(l: seq<nat>, i: nat): (l': seq<nat>)
    requires i < |l|
    ensures |l'| == |l| - 1 && forall j :: 0 <= j < |l'| ==> l'[j] == if j < i then l[j] else l[j + 1]
  {
    l[..i] + l[i + 1..]
  }

  lemma CutMembers(l: seq<nat>, i: nat)
    requires i < |l| && NoRepeats(l)
    ensures NoRepeats(Cut(l, i))
    ensures forall q :: q in Cut(l, i) <==> q in l && q != l[i]
  {
    forall q ensures q in Cut(l, i) <==> q in l && q != l[i] {
      if q in l && q != l[i] {
        var j :| 0 <= j < |l| && l[j] == q;
        assert Cut(l, i)[if j < i then j else j - 1] == q;
      }
      if q in Cut(l, i) {
        var j :| 0 <= j < |Cut(l, i)| && Cut(l, i)[j] == q;
        assert q == l[if j < i then j else j + 1];
      }
    }
  }

  lemma LinkedCut(d: seq<PageDesc>, d': seq<PageDesc>, h: int, h': int, l: seq<nat>, i: nat)
    requires Linked(d, h, l) && NoRepeats(l) && i < |l| && |d'| == |d|
    requires forall j :: 0 <= j < |l| && j != i && j != i - 1 ==> d'[l[j]].next == d[l[j]].next
    requires i > 0 ==> d'[l[i - 1]].next == d[l[i]].next && h' == h
    requires i == 0 ==> h' == d[l[i]].next
    ensures Linked(d', h', Cut(l, i))
  {
    var l' := Cut(l, i);
    forall j | 0 <= j < |l'| ensures l'[j] < |d'| && d'[l'[j]].next == Succ(l', j) {
      var s := if j < i then j else j + 1;
      assert l'[j] == l[s] && d[l[s]].next == Succ(l, s);
      assert d[l[i]].next == Succ(l, i);
    }
  }

  /** list_add: p becomes the first page of list o. */
  lemma ListAdded(d: seq<PageDesc>, hs: seq<int>, ls: seq<seq<nat>>, o: nat, p: nat)
    requires Lists(d, hs, ls) && o <= MAX_ORDER && p < |d|
    requires forall x :: 0 <= x < |ls| ==> p !in ls[x]
    ensures Lists(d[p := d[p].(next := hs[o])], hs[o := p], ls[o := [p] + ls[o]])
  {
    var d', hs', ls' := d[p := d[p].(next := hs[o])], hs[o := p], ls[o := [p] + ls[o]];
    forall x | 0 <= x < |ls| ensures Linked(d', hs'[x], ls'[x]) && NoRepeats(ls'[x]) {
      if x == o {
        LinkedCons(d, d', hs[o], p, ls[o]);
      } else {
        LinkedFrame(d, d', hs[x], ls[x]);
      }
    }
  }

  /** list_del: the page at position i leaves list o. */
  lemma ListRemoved(d: seq<PageDesc>, hs: seq<int>, ls: seq<seq<nat>>, o: nat, i: nat, d': seq<PageDesc>, hs': seq<int>)
    requires Lists(d, hs, ls) && o <= MAX_ORDER && i < |ls[o]| && |d'| == |d|
    requires forall q :: 0 <= q < |d| && q != ls[o][i] && (i > 0 ==> q != ls[o][i - 1]) ==> d'[q].next == d[q].next
    requires i > 0 ==> d'[ls[o][i - 1]].next == d[ls[o][i]].next && hs' == hs
    requires i == 0 ==> hs' == hs[o := d[ls[o][i]].next]
    ensures Lists(d', hs', ls[o := Cut(ls[o], i)])
  {
    var l := ls[o];
    var ls' := ls[o := Cut(l, i)];
    CutMembers(l, i);
    LinkedCut(d, d', hs[o], hs'[o], l, i);
    forall x | 0 <= x < |ls| && x != o ensures Linked(d', hs'[x], ls'[x]) {
      assert l[i] in l && (i > 0 ==> l[i - 1] in l);
      LinkedFrame(d, d', hs[x], ls[x]);
    }
  }
}
