/**
 FAT lookups and updates with and without the cache, allocation, chains, and file transfer.
 */
module Fat32 {
  import opened Basics
  import opened FatForest
  import opened FatBytes

  /** Entries are 28 bits wide; the top four bits of the word are dropped. */
  const RANGE: nat := 0x1000_0000
  /** File sizes are 32 bits wide. */
  const SIZES: nat := 0x1_0000_0000

  function Masked(f: seq<nat>): (e: seq<nat>)
    ensures |e| == |f| && forall c :: 0 <= c < |e| ==> e[c] == f[c] % RANGE
  {
    seq(|f|, c requires 0 <= c < |f| => f[c] % RANGE)
  }

  /** One copy of the FAT after an entry is set: the word is replaced, so its reserved bits survive exactly if they
      were clear. */
  ghost predicate Rewritten(f: seq<nat>, g: seq<nat>, c: nat, value: nat) {
    && c < |f| && g == f[c := value % RANGE]
    && (g[c] / RANGE == f[c] / RANGE <==> f[c] < RANGE)
  }

  /** A write to one chain changes no byte of another. */
  lemma OtherChainKept(data: seq<Cluster>, data': seq<Cluster>, chains: Chains, spots: Spots, s: nat, u: nat, size: nat,
      off: nat, bytes: seq<Byte>, k: nat)
    requires SpotsOk(chains, spots) && s in chains && u in chains && s != u
    requires Written(data, data', chains[s], size, off, bytes)
    ensures ByteAt(data', chains[u], size, k) == ByteAt(data, chains[u], size, k)
  {
    if k / size < |chains[u]| {
      var c := chains[u][k / size];
      OnChain(chains, spots, s, c);
      assert c in spots;
    }
  }

  lemma GrownMore(c0: Chains, c1: Chains, c2: Chains, s: nat, c: nat)
    requires s in c0 && s in c1 && c0[s] <= c1[s] && c1 == c0[s := c1[s]] && c2 == c1[s := c1[s] + [c]]
    ensures s in c2 && c0[s] <= c2[s] && c2 == c0[s := c2[s]]
  {
  }

  lemma PrefixMore(s: seq<Byte>, i: nat, n: nat, j: nat)
    requires j == i + n <= |s|
    ensures s[..i] + s[i..][..n] == s[..j]
  {
  }

  lemma ChunkInChain(off: nat, chunk: nat, n: nat, size: nat)
    requires size > 0 && off / size < n && off % size + chunk <= size
    ensures off + chunk <= Room(size, n)
  {
    DivMod(off, size);
    MulMono(size, off / size + 1, n);
  }

  /** How many bytes a read returns: those of the range that lie below the file size and the end of the chain. */
  function Readable(fileSize: nat, count: nat, off: nat, room: nat): nat {
    var end := if off + count > fileSize then fileSize else off + count;
    var last := if end > room then room else end;
    if off >= last then 0 else last - off
  }

  /** With the size a write to end reports, all of its n bytes can be read exactly if end fits the size field. */
  lemma AllReadable(fileSize: nat, newSize: nat, n: nat, off: nat, end: nat, room: nat)
    requires end == off + n <= room && fileSize < SIZES
    requires newSize == if end > fileSize then end % SIZES else fileSize
    ensures var r := Readable(newSize, n, off, room); r <= n && (r == n <==> end < SIZES || n == 0)
  {
  }

  class Volume {
    const clusters: nat
    const size: nat
    var cached: bool
    var cache: seq<nat>
    /** The copies of the FAT on disk, as 32-bit words. */
    var fats: seq<seq<nat>>
    var data: seq<Cluster>
    ghost var chains: Chains
    ghost var spots: Spots

    ghost predicate Shape()
      reads this
    {
      && clusters + 2 <= BAD && size > 0 && |fats| > 0 && |data| == clusters + 2
      && (forall k :: 0 <= k < |fats| ==> |fats[k]| == clusters + 2)
      && (forall c :: 0 <= c < |data| ==> |data[c]| == size)
      && (cached ==> |cache| == clusters + 2)
    }

    /** A lookup gives the same from the cache and from every copy on disk. */
    ghost predicate Coherent()
      requires Shape()
      reads this
    {
      && (cached ==> forall c :: 0 <= c < clusters + 2 ==> cache[c] % RANGE == fats[0][c] % RANGE)
      && (forall k, c :: 0 <= k < |fats| && 0 <= c < clusters + 2 ==> fats[k][c] % RANGE == fats[0][c] % RANGE)
    }

    /** The FAT as lookups on disk see it. */
    ghost function Ents(): seq<nat>
      requires Shape()
      reads this
    {
      Masked(fats[0])
    }

    ghost predicate Valid()
      reads this
    {
      Shape() && Coherent() && Forest(Ents(), chains, spots)
    }

    /** A volume just mounted: the first copy of the FAT may be cached, the copies agree, and every cluster is free or
        marked bad. */
    constructor (n: nat, clusterSize: nat, copies: seq<seq<nat>>, blocks: seq<Cluster>, useCache: bool)
      requires n + 2 <= BAD && clusterSize > 0 && |copies| > 0 && |blocks| == n + 2
      requires forall k :: 0 <= k < |copies| ==> |copies[k]| == n + 2 && Masked(copies[k]) == Masked(copies[0])
      requires forall c :: 0 <= c < |blocks| ==> |blocks[c]| == clusterSize
      requires forall c :: 2 <= c < n + 2 ==> Masked(copies[0])[c] == FREE || Masked(copies[0])[c] == BAD
      ensures Valid() && chains == map[] && Ents() == Masked(copies[0]) && data == blocks && size == clusterSize
    {
      clusters, size, fats, data := n, clusterSize, copies, blocks;
      cached, cache := useCache, if useCache then copies[0] else [];
      chains, spots := map[], map[];
      new;
      Formatted(Ents());
      forall k, c | 0 <= k < |fats| && 0 <= c < clusters + 2 ensures fats[k][c] % RANGE == fats[0][c] % RANGE {
        assert Masked(fats[k])[c] == Masked(fats[0])[c];
      }
    }

    /** fat32_get_cluster. */
    method GetCluster(c: nat) returns (v: nat)
      requires Shape() && Coherent() && (c < clusters + 2 || c >= EOC_MAX)
      ensures v == if 2 <= c < EOC_MAX then Ents()[c] else EOC_MAX
    {
      if c < 2 || c >= EOC_MAX { return EOC_MAX; }
      if cached && c < clusters + 2 { return cache[c] % RANGE; }
      v := fats[0][c] % RANGE;
    }

    /** fat32_set_cluster: the cache, then every copy. */
    method SetCluster(c: nat, value: nat) returns (ok: bool)
      requires Shape() && Coherent() && (c < clusters + 2 || c >= EOC_MAX)
      modifies this`cache, this`fats
      ensures Shape() && Coherent() && (ok <==> 2 <= c < EOC_MAX)
      ensures if ok then Ents() == old(Ents())[c := value % RANGE] else unchanged(this)
      ensures ok && value < RANGE ==> Ents() == old(Ents())[c := value]
      ensures ok ==> |fats| == |old(fats)| && forall k :: 0 <= k < |fats| ==> Rewritten(old(fats)[k], fats[k], c, value)
    {
      if c < 2 || c >= EOC_MAX { return false; }
      var v := value % RANGE;
      if cached && c < clusters + 2 {
        cache := cache[c := v];
      }
      var k := 0;
      while k < |fats|
        invariant 0 <= k <= |fats| == |old(fats)| && cache == (if cached then old(cache)[c := v] else old(cache))
        invariant forall j :: 0 <= j < |fats| ==> fats[j] == if j < k then old(fats)[j][c := v] else old(fats)[j]
      {
        fats := fats[k := fats[k][c := v]];
        k := k + 1;
      }
      assert Ents() == old(Ents())[c := v];
      assert forall j :: 0 <= j < |fats| ==> Rewritten(old(fats)[j], fats[j], c, value);
      ok := true;
    }

    // ---------- Chains ----------

    /** SetCluster, with the chains it makes. */
    method Install(c: nat, value: nat, ghost chains': Chains, ghost spots': Spots)
      requires Shape() && Coherent() && 2 <= c < clusters + 2 && value < RANGE
      requires Forest(Ents()[c := value], chains', spots')
      modifies this`cache, this`fats, this`chains, this`spots
      ensures Valid() && chains == chains' && spots == spots' && Ents() == old(Ents())[c := value]
    {
      var _ := SetCluster(c, value);
      chains, spots := chains', spots';
    }

    /** The first free cluster, or 0. */
    method FirstFree() returns (c: nat)
      requires Shape() && Coherent()
      ensures c == 0 <==> FreeSet(Ents()) == {}
      ensures c != 0 ==> 2 <= c < clusters + 2 && Ents()[c] == FREE && forall x :: 2 <= x < c ==> Ents()[x] != FREE
    {
      c := 2;
      while c < clusters + 2
        invariant 2 <= c <= clusters + 2 && forall x :: 2 <= x < c ==> Ents()[x] != FREE
      {
        var v := GetCluster(c);
        if v == FREE {
          assert c in FreeSet(Ents());
          return;
        }
        c := c + 1;
      }
      c := 0;
    }

    /** fat32_find_free_cluster: the first free cluster, marked as a chain of its own. */
    method FindFree() returns (c: nat)
      requires Valid()
      modifies this`cache, this`fats, this`chains, this`spots
      ensures Valid() && (c == 0 <==> FreeSet(old(Ents())) == {})
      ensures c == 0 ==> Ents() == old(Ents()) && chains == old(chains) && spots == old(spots)
      ensures c != 0 ==>
        2 <= c < clusters + 2 && old(Ents())[c] == FREE && (forall x :: 2 <= x < c ==> old(Ents())[x] != FREE)
      ensures c != 0 ==>
        Ents() == old(Ents())[c := EOC_MAX] && chains == old(chains)[c := [c]] && spots == old(spots)[c := (c, 0)]
    {
      c := FirstFree();
      if c != 0 {
        AllocForest(Ents(), chains, spots, c);
        Install(c, EOC_MAX, chains[c := [c]], spots[c := (c, 0)]);
      }
    }

    /** Entry of the last cluster of chain s to c, a chain of its own so far. */
    method Link(last: nat, c: nat, ghost s: nat)
      requires Valid() && s in chains && last == chains[s][|chains[s]| - 1] && c in chains && c != s && chains[c] == [c]
      modifies this`cache, this`fats, this`chains, this`spots
      ensures Valid() && chains == Joined(old(chains), s, c) && 2 <= last < clusters + 2
      ensures Ents() == old(Ents())[last := c]
    {
      UsedEntry(Ents(), chains, spots, s, |chains[s]| - 1);
      UsedEntry(Ents(), chains, spots, c, 0);
      LinkForest(Ents(), chains, spots, s, c);
      Install(last, c, Joined(chains, s, c), spots[c := (s, |chains[s]|)]);
    }

    /** fat32_append_cluster at the end of chain s. */
    method Append(last: nat, ghost s: nat) returns (c: nat)
      requires Valid() && s in chains && last == chains[s][|chains[s]| - 1]
      modifies this`cache, this`fats, this`chains, this`spots
      ensures Valid() && (c == 0 <==> FreeSet(old(Ents())) == {})
      ensures c == 0 ==> chains == old(chains) && Ents() == old(Ents())
      ensures c != 0 ==> 2 <= c < clusters + 2 && 2 <= last < clusters + 2 && old(Ents())[c] == FREE
      ensures c != 0 ==>
        chains == old(chains)[s := old(chains)[s] + [c]] && Ents() == old(Ents())[c := EOC_MAX][last := c]
    {
      UsedEntry(Ents(), chains, spots, s, |chains[s]| - 1);
      c := FindFree();
      if c != 0 {
        HeadsUsed(old(Ents()), old(chains), old(spots), c);
        if 2 <= last < EOC_MIN {
          JoinedFresh(old(chains), s, c);
          Link(last, c, s);
        }
      }
    }

    /** One turn of fat32_free_cluster_chain: cluster n of chain s. */
    method FreeOne(c: nat, ghost e: seq<nat>, ghost s: nat, ghost p: nat, ghost n: nat, ghost n': nat)
      returns (next: nat)
      requires Shape() && Coherent() && Forest(e, chains, spots) && s in chains && n < |chains[s]| && c == chains[s][n]
      requires n' == n + 1 && Freed(e, Ents(), chains[s], p, n) && |e| == clusters + 2
      modifies this`cache, this`fats
      ensures Shape() && Coherent() && Freed(e, Ents(), chains[s], p, n')
      ensures if n' < |chains[s]| then next == chains[s][n'] < EOC_MIN else next >= EOC_MIN
    {
      NextOnChain(e, Ents(), chains, spots, s, p, n);
      next := GetCluster(c);
      FreedStep(e, Ents(), chains[s], p, n, n');
      var _ := SetCluster(c, FREE);
    }

    /** fat32_free_cluster_chain from a cluster of a chain. */
    method FreeFrom(start: nat, ghost s: nat, ghost p: nat)
      requires Valid() && s in chains && p < |chains[s]| && start == chains[s][p]
      modifies this`cache, this`fats
      ensures Shape() && Coherent() && Freed(old(Ents()), Ents(), chains[s], p, |chains[s]|)
    {
      ghost var e, n := Ents(), p;
      var c, more := start, true;
      while more
        invariant Shape() && Coherent() && p <= n <= |chains[s]| && Freed(e, Ents(), chains[s], p, n)
        invariant if more then n < |chains[s]| && c == chains[s][n] else n == |chains[s]|
        decreases |chains[s]| - n
      {
        ghost var n' := n + 1;
        var next := FreeOne(c, e, s, p, n, n');
        n := n';
        if next >= EOC_MIN { more := false; } else { c := next; }
      }
    }

    /** fat32_free_cluster_chain.  From the first cluster of a chain the chain goes; from a later one only the rest of
        it does, and the cluster before it is left with an entry that leads to a free one. */
    method FreeChain(start: nat)
      requires Valid() && (start in spots || start < 2 || start >= EOC_MIN)
      modifies this`cache, this`fats, this`chains, this`spots
      ensures Shape() && Coherent() && (start !in old(spots) ==> chains == old(chains) && Ents() == old(Ents()))
      ensures start in old(spots) ==> var (s, p) := old(spots)[start];
        Freed(old(Ents()), Ents(), old(chains)[s], p, |old(chains)[s]|)
      ensures start in old(chains) ==> chains == old(chains) - {start}
      ensures start !in old(spots) || start in old(chains) ==> Valid()
      ensures start in old(spots) && start !in old(chains) ==>
        forall chains': Chains, spots': Spots :: !Forest(Ents(), chains', spots')
    {
      SpotBounds(Ents(), chains, spots);
      if start < 2 || start >= EOC_MIN { return; }
      ghost var e, s, p := Ents(), spots[start].0, spots[start].1;
      FreeFrom(start, s, p);
      if p == 0 {
        FreeForest(e, Ents(), chains, spots, start);
        Adopt(chains - {start}, Without(chains, spots, start));
      } else {
        Dangling(e, Ents(), chains, spots, s, p);
      }
    }

    ghost method Adopt(chains': Chains, spots': Spots)
      requires Shape() && Coherent() && Forest(Ents(), chains', spots')
      modifies this`chains, this`spots
      ensures Valid() && chains == chains' && spots == spots' && Ents() == old(Ents())
    {
      chains, spots := chains', spots';
    }

    // ---------- Walking a chain ----------

    /** fat32_get_nth_cluster, from any cluster of a chain. */
    method Nth(start: nat, steps: nat, ghost s: nat, ghost p: nat) returns (c: nat)
      requires Valid() && s in chains && p < |chains[s]| && start == chains[s][p]
      ensures c == if p + steps < |chains[s]| then chains[s][p + steps] else EOC_MAX
    {
      c := start;
      var i := 0;
      ghost var k := p;
      while i < steps
        invariant 0 <= i <= steps && k == p + i < |chains[s]| && c == chains[s][k]
      {
        NextEntry(Ents(), chains, spots, s, k);
        var next := GetCluster(c);
        if next >= EOC_MIN { return EOC_MAX; }
        c, k := next, k + 1;
        i := i + 1;
      }
    }

    /** The length of a chain and its last cluster. */
    method WalkToEnd(start: nat) returns (n: nat, last: nat)
      requires Valid() && start in chains
      ensures n == |chains[start]| && last == chains[start][n - 1]
    {
      n, last := 1, start;
      var more := true;
      while more
        invariant 1 <= n <= |chains[start]| && last == chains[start][n - 1] && (!more ==> n == |chains[start]|)
        decreases |chains[start]| - n, more
      {
        NextEntry(Ents(), chains, spots, start, n - 1);
        var next := GetCluster(last);
        if next >= EOC_MIN { more := false; } else { n, last := n + 1, next; }
      }
    }

    /** Chain s grew at its end; no other chain and no data changed. */
    ghost predicate Grown(s: nat, chains0: Chains)
      reads this`chains
    {
      s in chains && s in chains0 && chains0[s] <= chains[s] && chains == chains0[s := chains[s]]
    }

    /** One more cluster for the chain, if one is free. */
    method ExtendOne(start: nat, n: nat, n': nat, last: nat, ghost chains0: Chains) returns (c: nat)
      requires Valid() && Grown(start, chains0) && n == |chains[start]| && n' == n + 1 && last == chains[start][n - 1]
      modifies this`cache, this`fats, this`chains, this`spots
      ensures Valid() && Grown(start, chains0)
      ensures if c == 0 then FreeSet(old(Ents())) == FreeSet(Ents()) == {} && n == |chains[start]| else
        n' == |chains[start]| && c == chains[start][n' - 1] && |FreeSet(Ents())| == |FreeSet(old(Ents()))| - 1
    {
      UsedEntry(Ents(), chains, spots, start, n - 1);
      c := Append(last, start);
      if c != 0 {
        GrownMore(chains0, old(chains), chains, start, c);
        AppendFree(old(Ents()), c, last);
      }
    }

    /** Lengthens the chain to needed clusters, as far as there are free ones. */
    method Extend(start: nat, needed: nat) returns (ok: bool)
      requires Valid() && start in chains
      modifies this`cache, this`fats, this`chains, this`spots
      ensures Valid() && Grown(start, old(chains))
      ensures if ok then |chains[start]| >= needed else |FreeSet(old(Ents()))| + |old(chains)[start]| < needed
      ensures ok ==> needed <= |FreeSet(old(Ents()))| + |old(chains)[start]|
      ensures ok ==> |chains[start]| == if needed > |old(chains)[start]| then needed else |old(chains)[start]|
      ensures |FreeSet(Ents())| + |chains[start]| == |FreeSet(old(Ents()))| + |old(chains)[start]|
      ensures !ok ==> FreeSet(Ents()) == {}
    {
      var n, last := WalkToEnd(start);
      while n < needed
        invariant Valid() && Grown(start, old(chains)) && n == |chains[start]| && last == chains[start][n - 1]
        invariant |FreeSet(Ents())| + n == |FreeSet(old(Ents()))| + |old(chains)[start]|
        invariant n <= needed || n == |old(chains)[start]|
      {
        var n' := n + 1;
        var c := ExtendOne(start, n, n', last, old(chains));
        if c == 0 { return false; }
        n, last := n', c;
      }
      ok := true;
    }

    // ---------- File transfer ----------

    /** The bytes of chain s. */
    ghost predicate Mapped(s: nat)
      reads this
    {
      Valid() && s in chains && Fits(data, chains[s], size)
    }

    lemma ChainFits(s: nat)
      requires Valid() && s in chains
      ensures Mapped(s)
    {
      var ch := chains[s];
      forall i | 0 <= i < |ch| ensures ch[i] < |data| { UsedEntry(Ents(), chains, spots, s, i); }
      forall i: nat, j: nat | i < j < |ch| ensures ch[i] != ch[j] { NoRepeat(chains, spots, s, i, j); }
    }

    method WriteCluster(c: nat, x: Cluster)
      requires Valid() && c < |data| && |x| == size
      modifies this`data
      ensures Valid() && data == old(data)[c := x]
    {
      data := data[c := x];
    }

    /** The cluster that holds an offset, its index in the chain, and the offset in it. */
    method ClusterAt(start: nat, off: nat) returns (c: nat, q: nat, r: nat)
      requires Mapped(start)
      ensures q == off / size && r == off % size < size
      ensures if q < |chains[start]| then c == chains[start][q] < |data| && c != EOC_MAX else c == EOC_MAX
    {
      DivMod(off, size);
      q, r := off / size, off % size;
      c := Nth(start, q, start, 0);
      if q < |chains[start]| { UsedEntry(Ents(), chains, spots, start, q); }
    }

    method WritePart(c: nat, ghost start: nat, bytes: seq<Byte>, off: nat, ghost q: nat, r: nat)
      requires Mapped(start) && q == off / size < |chains[start]| && r == off % size && r + |bytes| <= size
      requires c == chains[start][q] < |data|
      modifies this`data
      ensures Mapped(start) && Written(old(data), data, chains[start], size, off, bytes)
    {
      var x := Splice(data[c], r, bytes);
      WritePiece(data, data[c := x], chains[start], size, off, q, r, bytes);
      WriteCluster(c, x);
    }

    /** One turn of the write loop: as much as fits in the cluster at offset. */
    method WriteChunk(start: nat, bytes: seq<Byte>, off: nat) returns (chunk: nat)
      requires Mapped(start) && |bytes| > 0 && off / size < |chains[start]| && off % size < size
      modifies this`data
      ensures Mapped(start) && 0 < chunk <= |bytes|
      ensures Written(old(data), data, chains[start], size, off, bytes[..chunk])
    {
      var c, q, r := ClusterAt(start, off);
      chunk := if size - r > |bytes| then |bytes| else size - r;
      WritePart(c, start, bytes[..chunk], off, q, r);
    }

    method WriteStep(start: nat, bytes: seq<Byte>, off: nat, at: nat, end: nat, done: nat, ghost d0: seq<Cluster>)
      returns (done': nat)
      requires Mapped(start) && done < |bytes| && at == off + done && end == off + |bytes|
      requires Needed(end, size) <= |chains[start]|
      requires Written(d0, data, chains[start], size, off, bytes[..done])
      modifies this`data
      ensures Mapped(start) && done < done' <= |bytes| && Written(d0, data, chains[start], size, off, bytes[..done'])
    {
      InNeeded(at, end, size, |chains[start]|);
      var chunk := WriteChunk(start, bytes[done..], at);
      done' := done + chunk;
      PrefixMore(bytes, done, chunk, done');
      WriteMore(d0, old(data), data, chains[start], size, off, bytes[..done], at, bytes[done..][..chunk]);
    }

    /** The write loop. */
    method WriteAll(start: nat, bytes: seq<Byte>, off: nat, end: nat)
      requires Mapped(start) && end == off + |bytes| && Needed(end, size) <= |chains[start]|
      modifies this`data
      ensures Valid() && Written(old(data), data, chains[start], size, off, bytes)
    {
      var done := 0;
      WroteNothing(data, chains[start], size, off);
      while done < |bytes|
        invariant 0 <= done <= |bytes| && Mapped(start)
        invariant Written(old(data), data, chains[start], size, off, bytes[..done])
      {
        done := WriteStep(start, bytes, off, off + done, end, done, old(data));
      }
      assert bytes[..done] == bytes;
    }

    /** The chain has room for n bytes, or there are not enough free clusters. */
    method MakeRoom(start: nat, n: nat) returns (ok: bool)
      requires Valid() && start in chains
      modifies this`cache, this`fats, this`chains, this`spots
      ensures Valid() && Grown(start, old(chains))
      ensures ok <==> Needed(n, size) <= |FreeSet(old(Ents()))| + |old(chains)[start]|
      ensures ok ==> Needed(n, size) <= |chains[start]|
      ensures |FreeSet(Ents())| + |chains[start]| == |FreeSet(old(Ents()))| + |old(chains)[start]|
      ensures if ok then |chains[start]| == Larger(Needed(n, size), |old(chains)[start]|) else FreeSet(Ents()) == {}
    {
      var len, _ := WalkToEnd(start);
      NeededIs(n, size, len);
      NeededFormula(n, size);
      ok := true;
      if n > size * len {
        ok := Extend(start, (n + size - 1) / size);
      }
    }

    /** The write loop over a chain with room. */
    method WriteGrown(start: nat, bytes: seq<Byte>, off: nat, end: nat)
      requires Valid() && start in chains && end == off + |bytes| && Needed(end, size) <= |chains[start]|
      modifies this`data
      ensures Valid() && Written(old(data), data, chains[start], size, off, bytes)
    {
      ChainFits(start);
      WriteAll(start, bytes, off, end);
    }

    method WriteBytes(start: nat, bytes: seq<Byte>, off: nat, end: nat) returns (full: bool)
      requires Valid() && start in chains && end == off + |bytes|
      modifies this`cache, this`fats, this`chains, this`spots, this`data
      ensures Valid() && Grown(start, old(chains))
      ensures full <==> |FreeSet(old(Ents()))| + |old(chains)[start]| < Needed(end, size)
      ensures if full then data == old(data)
        else Needed(end, size) <= |chains[start]| && Written(old(data), data, chains[start], size, off, bytes)
      ensures |FreeSet(Ents())| + |chains[start]| == |FreeSet(old(Ents()))| + |old(chains)[start]|
      ensures if full then FreeSet(Ents()) == {} else |chains[start]| == Larger(Needed(end, size), |old(chains)[start]|)
    {
      var ok := MakeRoom(start, end);
      full := !ok;
      if ok {
        WriteGrown(start, bytes, off, end);
      }
    }

    /** fat32_transfer_file, writing up to end.  A write that needs more clusters than are free changes no byte. */
    method WriteFile(start: nat, fileSize: nat, bytes: seq<Byte>, off: nat, end: nat)
      returns (full: bool, done: nat, newSize: nat)
      requires Valid() && start in chains && end == off + |bytes| && fileSize < SIZES && Needed(end, size) < SIZES
      modifies this`cache, this`fats, this`chains, this`spots, this`data
      ensures Valid() && Grown(start, old(chains))
      ensures full <==> |FreeSet(old(Ents()))| + |old(chains)[start]| < Needed(end, size)
      ensures if full then data == old(data)
        else Needed(end, size) <= |chains[start]| && Written(old(data), data, chains[start], size, off, bytes)
      ensures if full then newSize == fileSize && done == (if off > fileSize then off - fileSize else 0)
        else done == |bytes| && newSize == if end > fileSize then end % SIZES else fileSize
      ensures !full ==>
        (Zero(data, chains[start], size, fileSize, off) <==> Zero(old(data), chains[start], size, fileSize, off))
      ensures |FreeSet(Ents())| + |chains[start]| == |FreeSet(old(Ents()))| + |old(chains)[start]|
      ensures if full then FreeSet(Ents()) == {} else |chains[start]| == Larger(Needed(end, size), |old(chains)[start]|)
    {
      full := WriteBytes(start, bytes, off, end);
      if full {
        done, newSize := if off > fileSize then off - fileSize else 0, fileSize;
      } else {
        done, newSize := |bytes|, if end > fileSize then end % SIZES else fileSize;
        GapShows(old(data), data, chains[start], size, fileSize, off, bytes);
      }
    }

    /** As much of cluster q of the chain, from byte r on, as is asked for. */
    method ReadPart(c: nat, ghost start: nat, off: nat, ghost q: nat, r: nat, most: nat) returns (bytes: seq<Byte>)
      requires Mapped(start) && most > 0 && q == off / size < |chains[start]| && r == off % size < size
      requires c == chains[start][q]
      ensures 0 < |bytes| <= most && Reads(data, chains[start], size, off, bytes)
      ensures off + |bytes| <= Room(size, |chains[start]|)
    {
      var chunk := if size - r > most then most else size - r;
      ReadPiece(data, chains[start], size, off, q, r, chunk);
      ChunkInChain(off, chunk, |chains[start]|, size);
      bytes := data[c][r..r + chunk];
    }

    /** One turn of the read loop; false past the end of the chain. */
    method ReadChunk(start: nat, off: nat, most: nat) returns (found: bool, bytes: seq<Byte>)
      requires Mapped(start) && most > 0 && off % size < size
      ensures found <==> off < Room(size, |chains[start]|)
      ensures found ==> 0 < |bytes| <= most && Reads(data, chains[start], size, off, bytes)
      ensures found ==> off + |bytes| <= Room(size, |chains[start]|)
    {
      var c, q, r := ClusterAt(start, off);
      InChain(off, |chains[start]|, size);
      if c == EOC_MAX { return false, []; }
      found := true;
      bytes := ReadPart(c, start, off, q, r, most);
    }

    /** fat32_transfer_file, reading: up to the file size, and no further than the chain goes; an error if the
        range is not empty and starts past the chain. */
    method ReadFile(start: nat, fileSize: nat, count: nat, off: nat) returns (ok: bool, bytes: seq<Byte>)
      requires Valid() && start in chains
      ensures |bytes| == Readable(fileSize, count, off, Room(size, |chains[start]|))
      ensures Reads(data, chains[start], size, off, bytes)
      ensures ok <==> off >= fileSize || count == 0 || off < Room(size, |chains[start]|)
    {
      ok, bytes := true, [];
      if off >= fileSize { return; }
      var n := if off + count > fileSize then fileSize - off else count;
      ChainFits(start);
      while |bytes| < n
        invariant |bytes| <= n && Reads(data, chains[start], size, off, bytes)
        invariant |bytes| > 0 ==> off + |bytes| <= Room(size, |chains[start]|)
      {
        var at := off + |bytes|;
        DivMod(at, size);
        var found, more := ReadChunk(start, at, n - |bytes|);
        if !found {
          return |bytes| > 0, bytes;
        }
        ReadMore(data, chains[start], size, off, bytes, at, more);
        bytes := bytes + more;
      }
    }

    /** A write, then a read of the same range with the size the write reported.  A write past 4 GiB reports a size cut
        to 32 bits, and then not all of it is read back. */
    method WriteThenRead(start: nat, fileSize: nat, bytes: seq<Byte>, off: nat, end: nat)
      returns (full: bool, got: seq<Byte>)
      requires Valid() && start in chains && end == off + |bytes| && fileSize < SIZES && Needed(end, size) < SIZES
      modifies this`cache, this`fats, this`chains, this`spots, this`data
      ensures Valid() && (full <==> |FreeSet(old(Ents()))| + |old(chains)[start]| < Needed(end, size))
      ensures Grown(start, old(chains)) && (full ==> data == old(data))
      ensures !full ==> Written(old(data), data, chains[start], size, off, bytes)
      ensures !full ==> Reads(data, chains[start], size, off, got) && got <= bytes
      ensures !full ==> (got == bytes <==> end < SIZES || |bytes| == 0)
      ensures |FreeSet(Ents())| + |chains[start]| == |FreeSet(old(Ents()))| + |old(chains)[start]|
      ensures if full then FreeSet(Ents()) == {} else |chains[start]| == Larger(Needed(end, size), |old(chains)[start]|)
    {
      got := [];
      var done, newSize, ok;
      full, done, newSize := WriteFile(start, fileSize, bytes, off, end);
      if !full {
        ok, got := ReadFile(start, newSize, |bytes|, off);
        NeededIs(end, size, |chains[start]|);
        AllReadable(fileSize, newSize, |bytes|, off, end, Room(size, |chains[start]|));
        ReadsWritten(old(data), data, chains[start], size, off, end, bytes, got);
        assert got == bytes <==> |got| == |bytes|;
      }
    }
  }
}
