/**
 The FAT as a forest of disjoint, acyclic cluster chains stored in an array.
 */
module FatForest {
  const FREE: nat := 0
  const BAD: nat := 0x0FFF_FFF7
  const EOC_MIN: nat := 0x0FFF_FFF8
  const EOC_MAX: nat := 0x0FFF_FFFF

  type Chains = map<nat, seq<nat>>
  /** Cluster to its chain, named by the first cluster, and its index there. */
  type Spots = map<nat, (nat, nat)>

  /** The entries link ch from first to last, and the last one ends the chain. */
  ghost predicate Linked(ents: seq<nat>, ch: seq<nat>) {
    && |ch| > 0 && (forall i :: 0 <= i < |ch| ==> 2 <= ch[i] < |ents|)
    && (forall i: nat, j: nat {:trigger ch[i], ch[j]} :: i + 1 == j < |ch| ==> ents[ch[i]] == ch[j])
    && ents[ch[|ch| - 1]] >= EOC_MIN
  }

  ghost predicate ChainsOk(ents: seq<nat>, chains: Chains) {
    forall s :: s in chains ==> Linked(ents, chains[s]) && chains[s][0] == s
  }

  /** Each place in a chain is the one spot of its cluster: chains share no cluster and none repeats one. */
  ghost predicate SpotsOk(chains: Chains, spots: Spots) {
    && (forall s: nat, i: nat {:trigger chains[s][i]} ::
      s in chains && i < |chains[s]| ==> chains[s][i] in spots && spots[chains[s][i]] == (s, i))
    && (forall c ::
      c in spots ==> spots[c].0 in chains && spots[c].1 < |chains[spots[c].0]| && chains[spots[c].0][spots[c].1] == c)
  }

  /** Exactly the entries that are neither free nor marked bad belong to chains. */
  ghost predicate UsedOk(ents: seq<nat>, spots: Spots) {
    forall c :: 2 <= c < |ents| ==> (c in spots <==> ents[c] != FREE && ents[c] != BAD)
  }

  ghost predicate Forest(ents: seq<nat>, chains: Chains, spots: Spots) {
    2 <= |ents| <= BAD && ChainsOk(ents, chains) && SpotsOk(chains, spots) && UsedOk(ents, spots)
  }

  /** A FAT in which every entry is free or marked bad. */
  lemma Formatted(ents: seq<nat>)
    requires 2 <= |ents| <= BAD && forall c :: 2 <= c < |ents| ==> ents[c] == FREE || ents[c] == BAD
    ensures Forest(ents, map[], map[])
  {
  }

  // ---------- Allocate ----------

  lemma AllocForest(ents: seq<nat>, chains: Chains, spots: Spots, c: nat)
    requires Forest(ents, chains, spots) && 2 <= c < |ents| && ents[c] == FREE
    ensures c !in chains && Forest(ents[c := EOC_MAX], chains[c := [c]], spots[c := (c, 0)])
  {
    HeadsUsed(ents, chains, spots, c);
    AllocSpots(chains, spots, c);
    forall s | s in chains ensures Linked(ents[c := EOC_MAX], chains[s]) {
      SpotsApart(ents, ents[c := EOC_MAX], chains, spots, s, c);
    }
  }

  lemma HeadsUsed(ents: seq<nat>, chains: Chains, spots: Spots, c: nat)
    requires ChainsOk(ents, chains) && SpotsOk(chains, spots) && c !in spots
    ensures c !in chains
  {
    forall s | s in chains ensures s in spots { assert chains[s][0] in spots; }
  }

  lemma AllocSpots(chains: Chains, spots: Spots, c: nat)
    requires SpotsOk(chains, spots) && c !in spots && c !in chains
    ensures SpotsOk(chains[c := [c]], spots[c := (c, 0)])
  {
    var chains', spots' := chains[c := [c]], spots[c := (c, 0)];
    forall x: nat, i: nat | x in chains' && i < |chains'[x]|
      ensures chains'[x][i] in spots' && spots'[chains'[x][i]] == (x, i)
    {
      if x != c { assert chains[x][i] in spots; }
    }
  }

  /** Changing the entry of a cluster that is not in chain s. */
  lemma SpotsApart(ents: seq<nat>, ents': seq<nat>, chains: Chains, spots: Spots, s: nat, c: nat)
    requires s in chains && Linked(ents, chains[s]) && SpotsOk(chains, spots) && (c in spots ==> spots[c].0 != s)
    requires |ents'| == |ents| && forall x :: 0 <= x < |ents| && x != c ==> ents'[x] == ents[x]
    ensures Linked(ents', chains[s])
  {
    var ch := chains[s];
    forall i | 0 <= i < |ch| ensures ch[i] != c { assert chains[s][i] in spots; }
  }

  // ---------- Append ----------

  function Joined(chains: Chains, s: nat, c: nat): Chains
    requires s in chains
  {
    (chains - {c})[s := chains[s] + [c]]
  }

  lemma JoinedFresh(chains: Chains, s: nat, c: nat)
    requires s in chains && c !in chains
    ensures Joined(chains[c := [c]], s, c) == chains[s := chains[s] + [c]]
  {
  }

  lemma LinkForest(ents: seq<nat>, chains: Chains, spots: Spots, s: nat, c: nat)
    requires Forest(ents, chains, spots) && s in chains && c in chains && s != c && chains[c] == [c]
    ensures var t := chains[s][|chains[s]| - 1];
      t < |ents| && Forest(ents[t := c], Joined(chains, s, c), spots[c := (s, |chains[s]|)])
  {
    var ch, t := chains[s], chains[s][|chains[s]| - 1];
    var ents', chains', spots' := ents[t := c], Joined(chains, s, c), spots[c := (s, |chains[s]|)];
    assert Linked(ents, ch) && Linked(ents, chains[c]);
    assert spots[t] == (s, |ch| - 1) && spots[c] == (c, 0) && chains[c][0] == c;
    forall x | x in chains' ensures Linked(ents', chains'[x]) && chains'[x][0] == x {
      if x == s {
        GrowLinked(ents, chains, spots, s, c);
      } else {
        SpotsApart(ents, ents', chains, spots, x, t);
      }
    }
    LinkSpots(chains, spots, s, c);
    LinkUsed(ents, spots, t, c, (s, |chains[s]|));
  }

  lemma LinkUsed(ents: seq<nat>, spots: Spots, t: nat, c: nat, at: (nat, nat))
    requires UsedOk(ents, spots) && t in spots && c in spots && t < |ents| <= BAD && 2 <= c < |ents|
    ensures UsedOk(ents[t := c], spots[c := at])
  {
  }

  lemma LinkSpots(chains: Chains, spots: Spots, s: nat, c: nat)
    requires SpotsOk(chains, spots) && s in chains && c in chains && s != c && chains[c] == [c]
    ensures SpotsOk(Joined(chains, s, c), spots[c := (s, |chains[s]|)])
  {
    var chains', spots' := Joined(chains, s, c), spots[c := (s, |chains[s]|)];
    assert chains[c][0] == c;
    forall x: nat, i: nat | x in chains' && i < |chains'[x]|
      ensures chains'[x][i] in spots' && spots'[chains'[x][i]] == (x, i)
    {
      if x == s && i == |chains[s]| {
      } else {
        assert chains[x][i] in spots && chains[x][i] != c;
      }
    }
    forall y | y in spots'
      ensures spots'[y].0 in chains' && spots'[y].1 < |chains'[spots'[y].0]| && chains'[spots'[y].0][spots'[y].1] == y
    {
    }
  }

  lemma GrowLinked(ents: seq<nat>, chains: Chains, spots: Spots, s: nat, c: nat)
    requires SpotsOk(chains, spots) && s in chains && Linked(ents, chains[s]) && 2 <= c < |ents| && ents[c] >= EOC_MIN
    requires c in spots && spots[c].0 != s
    ensures Linked(ents[chains[s][|chains[s]| - 1] := c], chains[s] + [c])
  {
    var ch, k := chains[s], |chains[s]| - 1;
    var ents', ch' := ents[ch[k] := c], ch + [c];
    forall i: nat | i < k ensures ch[i] != ch[k] {
      assert chains[s][i] in spots && chains[s][k] in spots;
    }
    assert ch[k] != c by { assert chains[s][k] in spots; }
    forall i: nat, j: nat | i + 1 == j < |ch'| ensures ents'[ch'[i]] == ch'[j] {
      if j < |ch| { assert ents[ch[i]] == ch[j]; }
    }
  }

  // ---------- Free ----------

  /** The entries once clusters p to n of ch are freed. */
  ghost predicate Freed(ents: seq<nat>, ents': seq<nat>, ch: seq<nat>, p: nat, n: nat) {
    && |ents'| == |ents| && p <= n <= |ch|
    && forall c :: 0 <= c < |ents| ==> ents'[c] == if c in ch[p..n] then FREE else ents[c]
  }

  ghost function Without(chains: Chains, spots: Spots, s: nat): Spots
  {
    map c | c in spots && spots[c].0 != s :: spots[c]
  }

  lemma FreeForest(ents: seq<nat>, ents': seq<nat>, chains: Chains, spots: Spots, s: nat)
    requires Forest(ents, chains, spots) && s in chains && Freed(ents, ents', chains[s], 0, |chains[s]|)
    ensures Forest(ents', chains - {s}, Without(chains, spots, s))
  {
    assert chains[s][0..|chains[s]|] == chains[s];
    forall x | x in chains - {s} ensures Linked(ents', chains[x]) {
      FreeOther(ents, ents', chains, spots, s, x);
    }
    FreeSpots(chains, spots, s);
    forall c | 2 <= c < |ents| ensures c in Without(chains, spots, s) <==> ents'[c] != FREE && ents'[c] != BAD {
      OnChain(chains, spots, s, c);
    }
  }

  lemma OnChain(chains: Chains, spots: Spots, s: nat, c: nat)
    requires SpotsOk(chains, spots) && s in chains
    ensures c in chains[s] <==> c in spots && spots[c].0 == s
  {
    if c in chains[s] {
      var i :| 0 <= i < |chains[s]| && chains[s][i] == c;
    }
  }

  lemma FreeOther(ents: seq<nat>, ents': seq<nat>, chains: Chains, spots: Spots, s: nat, x: nat)
    requires SpotsOk(chains, spots) && s in chains && x in chains && x != s && Linked(ents, chains[x])
    requires |ents'| == |ents|
    requires forall c :: 0 <= c < |ents| && c !in chains[s] ==> ents'[c] == ents[c]
    ensures Linked(ents', chains[x])
  {
    var ch := chains[x];
    forall i | 0 <= i < |ch| ensures ents'[ch[i]] == ents[ch[i]] {
      assert chains[x][i] in spots;
      OnChain(chains, spots, s, ch[i]);
    }
  }

  lemma FreeSpots(chains: Chains, spots: Spots, s: nat)
    requires SpotsOk(chains, spots)
    ensures SpotsOk(chains - {s}, Without(chains, spots, s))
  {
    var chains', spots' := chains - {s}, Without(chains, spots, s);
    forall x: nat, i: nat | x in chains' && i < |chains'[x]|
      ensures chains'[x][i] in spots' && spots'[chains'[x][i]] == (x, i)
    {
      assert chains[x][i] in spots;
    }
  }

  /** Inside a chain no cluster occurs twice. */
  lemma NoRepeat(chains: Chains, spots: Spots, s: nat, i: nat, j: nat)
    requires SpotsOk(chains, spots) && s in chains && i < j < |chains[s]|
    ensures chains[s][i] != chains[s][j]
  {
    assert chains[s][i] in spots && chains[s][j] in spots;
  }

  /** Two chains have no cluster in common. */
  lemma Disjoint(chains: Chains, spots: Spots, s: nat, i: nat, u: nat, j: nat)
    requires SpotsOk(chains, spots) && s in chains && u in chains && i < |chains[s]| && j < |chains[u]|
    ensures chains[s][i] == chains[u][j] <==> s == u && i == j
  {
    assert chains[s][i] in spots && chains[u][j] in spots;
  }

  // ---------- Free clusters ----------

  ghost function FreeSet(ents: seq<nat>): set<nat> {
    set c | 2 <= c < |ents| && ents[c] == FREE
  }

  lemma FreeSetTake(ents: seq<nat>, c: nat, v: nat)
    requires 2 <= c < |ents| && ents[c] == FREE && v != FREE
    ensures FreeSet(ents[c := v]) == FreeSet(ents) - {c} && |FreeSet(ents[c := v])| == |FreeSet(ents)| - 1
  {
    assert FreeSet(ents[c := v]) == FreeSet(ents) - {c};
  }

  lemma FreeSetKeep(ents: seq<nat>, c: nat, v: nat)
    requires 2 <= c < |ents| && ents[c] != FREE && v != FREE
    ensures FreeSet(ents[c := v]) == FreeSet(ents)
  {
  }

  /** One more cluster freed. */
  lemma FreedStep(ents: seq<nat>, now: seq<nat>, ch: seq<nat>, p: nat, n: nat, n': nat)
    requires Freed(ents, now, ch, p, n) && n < |ch| && n' == n + 1 && ch[n] < |ents|
    ensures Freed(ents, now[ch[n] := FREE], ch, p, n')
  {
    assert ch[p..n'] == ch[p..n] + [ch[n]];
  }

  /** Not yet freed: the entry still leads on. */
  lemma NextOnChain(ents: seq<nat>, now: seq<nat>, chains: Chains, spots: Spots, s: nat, p: nat, n: nat)
    requires Forest(ents, chains, spots) && s in chains && n < |chains[s]| && Freed(ents, now, chains[s], p, n)
    ensures 2 <= chains[s][n] < |ents| && now[chains[s][n]] == ents[chains[s][n]]
    ensures if n + 1 < |chains[s]| then ents[chains[s][n]] == chains[s][n + 1] < EOC_MIN
      else ents[chains[s][n]] >= EOC_MIN
  {
    var ch := chains[s];
    assert Linked(ents, ch);
    forall i: nat | i < n ensures ch[i] != ch[n] {
      NoRepeat(chains, spots, s, i, n);
    }
    if n + 1 < |ch| { assert 2 <= ch[n + 1] < |ents|; }
  }

  /** Freeing a chain from its middle leaves a used entry that leads to a free cluster: no forest explains the FAT. */
  lemma Dangling(ents: seq<nat>, ents': seq<nat>, chains: Chains, spots: Spots, s: nat, p: nat)
    requires Forest(ents, chains, spots) && s in chains && 0 < p < |chains[s]|
    requires Freed(ents, ents', chains[s], p, |chains[s]|)
    ensures forall chains': Chains, spots': Spots :: !Forest(ents', chains', spots')
  {
    var ch := chains[s];
    var last, c := ch[p - 1], ch[p];
    assert Linked(ents, ch) && 2 <= last < |ents| && 2 <= c < |ents|;
    forall i: nat | p <= i < |ch| ensures ch[i] != last { NoRepeat(chains, spots, s, p - 1, i); }
    assert c in ch[p..|ch|] by { assert ch[p..|ch|][0] == c; }
    assert ents'[last] == c && ents'[c] == FREE;
    forall chains': Chains, spots': Spots ensures !Forest(ents', chains', spots') {
      if Forest(ents', chains', spots') { NoLinkToFree(ents', chains', spots', last, c); }
    }
  }

  lemma NoLinkToFree(ents: seq<nat>, chains: Chains, spots: Spots, last: nat, c: nat)
    requires Forest(ents, chains, spots) && 2 <= last < |ents| && 2 <= c < |ents| && ents[last] == c
    ensures ents[c] != FREE
  {
    var x, i := spots[last].0, spots[last].1;
    assert Linked(ents, chains[x]);
    if i + 1 < |chains[x]| { assert chains[x][i + 1] == c; }
  }

  lemma SpotBounds(ents: seq<nat>, chains: Chains, spots: Spots)
    requires Forest(ents, chains, spots)
    ensures forall c :: c in spots ==> 2 <= c < |ents|
    ensures forall s :: s in chains ==> s in spots && spots[s] == (s, 0)
  {
    forall c | c in spots ensures 2 <= c < |ents| { assert Linked(ents, chains[spots[c].0]); }
    forall s | s in chains ensures s in spots && spots[s] == (s, 0) {
      assert Linked(ents, chains[s]);
      assert chains[s][0] == s;
    }
  }

  lemma UsedEntry(ents: seq<nat>, chains: Chains, spots: Spots, s: nat, i: nat)
    requires Forest(ents, chains, spots) && s in chains && i < |chains[s]|
    ensures 2 <= chains[s][i] < |ents| && ents[chains[s][i]] != FREE
  {
    assert Linked(ents, chains[s]);
    assert chains[s][i] in spots;
  }

  lemma NextEntry(ents: seq<nat>, chains: Chains, spots: Spots, s: nat, n: nat)
    requires Forest(ents, chains, spots) && s in chains && n < |chains[s]|
    ensures 2 <= chains[s][n] < |ents|
    ensures if n + 1 < |chains[s]| then ents[chains[s][n]] == chains[s][n + 1] < EOC_MIN
      else ents[chains[s][n]] >= EOC_MIN
  {
    assert Linked(ents, chains[s]);
    if n + 1 < |chains[s]| { assert 2 <= chains[s][n + 1] < |ents|; }
  }

  lemma AppendFree(ents: seq<nat>, c: nat, last: nat)
    requires 2 <= c < |ents| && 2 <= last < |ents| && ents[c] == FREE && ents[last] != FREE
    ensures |FreeSet(ents[c := EOC_MAX][last := c])| == |FreeSet(ents)| - 1
  {
    FreeSetTake(ents, c, EOC_MAX);
    FreeSetKeep(ents[c := EOC_MAX], last, c);
  }
}
