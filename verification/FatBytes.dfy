/**
 A cluster chain as one array of bytes.
 */
module FatBytes {
  import opened Basics

  type Cluster = seq<Byte>

  // ---------- Offsets ----------

  lemma DivMod(k: nat, size: nat)
    requires size > 0
    ensures k == size * (k / size) + k % size && 0 <= k % size < size
  {
  }

  /** The bytes n clusters hold. */
  function Room(size: nat, n: nat): nat {
    size * n
  }

  /** Below the capacity of n clusters every offset is in one of them. */
  lemma InChain(k: nat, n: nat, size: nat)
    requires size > 0
    ensures k < size * n <==> k / size < n
  {
    DivMod(k, size);
    if k / size < n { MulMono(size, k / size + 1, n); } else { MulMono(size, n, k / size); }
  }

  /** A piece that stays inside one cluster, as offsets in the file and in the cluster. */
  lemma Locate(k: nat, off: nat, chunk: nat, size: nat)
    requires size > 0 && off % size + chunk <= size
    ensures off <= k < off + chunk <==> k / size == off / size && off % size <= k % size < off % size + chunk
    ensures k / size == off / size ==> k - off == k % size - off % size
  {
    DivMod(k, size);
    DivMod(off, size);
    if k / size > off / size { MulMono(size, off / size + 1, k / size); }
    if k / size < off / size { MulMono(size, k / size + 1, off / size); }
  }

  // ---------- Bytes of a chain ----------

  ghost predicate Fits(data: seq<Cluster>, ch: seq<nat>, size: nat) {
    && size > 0 && (forall c :: 0 <= c < |data| ==> |data[c]| == size) && (forall i :: 0 <= i < |ch| ==> ch[i] < |data|)
    && forall i: nat, j: nat :: i < j < |ch| ==> ch[i] != ch[j]
  }

  /** Byte k of the chain ch. */
  ghost function ByteAt(data: seq<Cluster>, ch: seq<nat>, size: nat, k: nat): Byte {
    if size > 0 && k / size < |ch| && ch[k / size] < |data| &&
      k % size < |data[ch[k / size]]| then data[ch[k / size]][k % size] else 0
  }

  function Splice(c: Cluster, r: nat, bytes: seq<Byte>): (d: Cluster)
    requires r + |bytes| <= |c|
    ensures |d| == |c|
    ensures forall i :: 0 <= i < |c| ==> d[i] == if r <= i < r + |bytes| then bytes[i - r] else c[i]
  {
    c[..r] + bytes + c[r + |bytes|..]
  }

  /** Bytes off to off + |bytes| are the new ones, everything else is as before. */
  ghost predicate Written(data: seq<Cluster>, data': seq<Cluster>, ch: seq<nat>, size: nat, off: nat,
      bytes: seq<Byte>) {
    && size > 0 && |data'| == |data|
    && (forall c :: 0 <= c < |data| && c !in ch ==> data'[c] == data[c])
    && (forall k: nat :: k / size < |ch| ==>
          ByteAt(data', ch, size, k) == if off <= k < off + |bytes| then bytes[k - off] else ByteAt(data, ch, size, k))
  }

  lemma PieceByte(data: seq<Cluster>, data': seq<Cluster>, ch: seq<nat>, size: nat, q: nat, r: nat, bytes: seq<Byte>,
      p: nat, i: nat)
    requires Fits(data, ch, size) && q < |ch| && r + |bytes| <= size && p < |ch| && i < size
    requires ch[q] < |data| && data' == data[ch[q] := Splice(data[ch[q]], r, bytes)]
    ensures ch[p] < |data| && |data[ch[p]]| == |data'[ch[p]]| == size
    ensures data'[ch[p]][i] == if p == q && r <= i < r + |bytes| then bytes[i - r] else data[ch[p]][i]
  {
    assert p < q ==> ch[p] != ch[q];
    assert q < p ==> ch[q] != ch[p];
  }

  lemma WriteByte(data: seq<Cluster>, data': seq<Cluster>, ch: seq<nat>, size: nat, off: nat, q: nat, r: nat,
      bytes: seq<Byte>, k: nat, p: nat, i: nat)
    requires Fits(data, ch, size) && q == off / size < |ch| && r == off % size && r + |bytes| <= size
    requires ch[q] < |data| && data' == data[ch[q] := Splice(data[ch[q]], r, bytes)] && p == k / size < |ch|
    requires i == k % size
    ensures ByteAt(data', ch, size, k) == if off <= k < off + |bytes| then bytes[k - off] else ByteAt(data, ch, size, k)
  {
    Locate(k, off, |bytes|, size);
    DivMod(k, size);
    PieceByte(data, data', ch, size, q, r, bytes, p, i);
  }

  /** One piece of a write. */
  lemma WritePiece(data: seq<Cluster>, data': seq<Cluster>, ch: seq<nat>, size: nat, off: nat, q: nat, r: nat,
      bytes: seq<Byte>)
    requires Fits(data, ch, size) && q == off / size < |ch| && r == off % size && r + |bytes| <= size
    requires ch[q] < |data| && data' == data[ch[q] := Splice(data[ch[q]], r, bytes)]
    ensures Fits(data', ch, size) && Written(data, data', ch, size, off, bytes)
  {
    assert ch[q] in ch;
    forall k: nat | k / size < |ch| ensures
      ByteAt(data', ch, size, k) == if off <= k < off + |bytes| then bytes[k - off] else ByteAt(data, ch, size, k)
    {
      WriteByte(data, data', ch, size, off, q, r, bytes, k, k / size, k % size);
    }
  }

  /** Pieces written one after the other make one write. */
  lemma WriteMore(d0: seq<Cluster>, d1: seq<Cluster>, d2: seq<Cluster>, ch: seq<nat>, size: nat, off: nat, a: seq<Byte>,
      mid: nat, b: seq<Byte>)
    requires size > 0 && mid == off + |a| && Written(d0, d1, ch, size, off, a) && Written(d1, d2, ch, size, mid, b)
    ensures Written(d0, d2, ch, size, off, a + b)
  {
  }

  lemma WroteNothing(d: seq<Cluster>, ch: seq<nat>, size: nat, off: nat)
    requires size > 0
    ensures Written(d, d, ch, size, off, [])
  {
  }

  /** Bytes lo to hi of the chain are zero. */
  ghost predicate Zero(data: seq<Cluster>, ch: seq<nat>, size: nat, lo: nat, hi: nat) {
    forall k: nat :: lo <= k < hi ==> ByteAt(data, ch, size, k) == 0
  }

  /** Bytes between two offsets that a write does not reach, as the clusters of the grown chain held them before: they
      read zero exactly if they were zero. */
  lemma GapShows(data: seq<Cluster>, data': seq<Cluster>, ch: seq<nat>, size: nat, lo: nat, off: nat, bytes: seq<Byte>)
    requires Written(data, data', ch, size, off, bytes)
    ensures forall k: nat :: lo <= k < off ==> ByteAt(data', ch, size, k) == ByteAt(data, ch, size, k)
    ensures Zero(data', ch, size, lo, off) <==> Zero(data, ch, size, lo, off)
  {
  }

  /** A file of size 0 in a cluster that held x, written from byte 1 on: byte 0 reads x. */
  lemma GapExample(x: Byte, y: Byte)
    requires x != 0
    ensures var data, data' := [[x, x]], [[x, y]];
      Written(data, data', [0], 2, 1, [y]) && !Zero(data', [0], 2, 0, 1)
  {
    var data, data' := [[x, x]], [[x, y]];
    forall k: nat | k / 2 < 1 ensures
      ByteAt(data', [0], 2, k) == if 1 <= k < 2 then [y][k - 1] else ByteAt(data, [0], 2, k)
    {
      assert k == 0 || k == 1;
    }
    assert ByteAt(data', [0], 2, 0) == x;
  }

  /** The bytes from off on, n of them. */
  ghost predicate Reads(data: seq<Cluster>, ch: seq<nat>, size: nat, off: nat, bytes: seq<Byte>) {
    forall i :: 0 <= i < |bytes| ==> bytes[i] == ByteAt(data, ch, size, off + i)
  }

  lemma ReadPiece(data: seq<Cluster>, ch: seq<nat>, size: nat, off: nat, q: nat, r: nat, n: nat)
    requires Fits(data, ch, size) && q == off / size < |ch| && r == off % size && r + n <= size
    ensures ch[q] < |data| && |data[ch[q]]| == size && Reads(data, ch, size, off, data[ch[q]][r..r + n])
  {
    var bytes := data[ch[q]][r..r + n];
    forall i | 0 <= i < n ensures bytes[i] == ByteAt(data, ch, size, off + i) {
      Locate(off + i, off, n, size);
    }
  }

  lemma ReadMore(data: seq<Cluster>, ch: seq<nat>, size: nat, off: nat, a: seq<Byte>, mid: nat, b: seq<Byte>)
    requires mid == off + |a| && Reads(data, ch, size, off, a) && Reads(data, ch, size, mid, b)
    ensures Reads(data, ch, size, off, a + b)
  {
    forall i | 0 <= i < |a + b| ensures (a + b)[i] == ByteAt(data, ch, size, off + i) {
      if i >= |a| { assert (a + b)[i] == b[i - |a|]; assert off + i == mid + (i - |a|); }
    }
  }

  /** What was written is read back, as far as the read goes. */
  lemma ReadsWritten(d0: seq<Cluster>, d1: seq<Cluster>, ch: seq<nat>, size: nat, off: nat, end: nat, bytes: seq<Byte>,
      got: seq<Byte>)
    requires size > 0 && Written(d0, d1, ch, size, off, bytes) && Reads(d1, ch, size, off, got) && |got| <= |bytes|
    requires end == off + |bytes| && Needed(end, size) <= |ch|
    ensures got <= bytes
  {
    forall i | 0 <= i < |got| ensures got[i] == bytes[i] {
      InNeeded(off + i, end, size, |ch|);
    }
  }

  /** Clusters for n bytes. */
  function Needed(n: nat, size: nat): nat
    requires size > 0
  {
    if n == 0 then 0 else if n <= size then 1 else 1 + Needed(n - size, size)
  }

  function Larger(a: nat, b: nat): nat {
    if a > b then a else b
  }

  lemma {:induction false} NeededIs(n: nat, size: nat, k: nat)
    requires size > 0
    ensures n <= size * k <==> Needed(n, size) <= k
  {
    if n > size {
      if k > 0 {
        NeededIs(n - size, size, k - 1);
        assert size * k == size * (k - 1) + size;
      }
    } else if k > 0 {
      MulMono(size, 1, k);
    }
  }

  /** The formula of the source. */
  lemma NeededFormula(n: nat, size: nat)
    requires size > 0
    ensures (n + size - 1) / size == Needed(n, size)
  {
    var q := (n + size - 1) / size;
    DivMod(n + size - 1, size);
    NeededIs(n, size, q);
    if q > 0 {
      assert size * q == size * (q - 1) + size;
      NeededIs(n, size, q - 1);
    }
  }

  /** Offsets below n are in the first clusters that n bytes need. */
  lemma InNeeded(k: nat, n: nat, size: nat, len: nat)
    requires size > 0 && k < n && Needed(n, size) <= len
    ensures k / size < len && k % size < size
  {
    NeededIs(n, size, len);
    InChain(k, len, size);
  }
}
