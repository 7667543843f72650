/**
 The on-disk records of the write-ahead journal, byte by byte: little-endian fields at fixed
 offsets, and what the recovery scan reads back from them.
 */
module JournalCodec {
  import opened Basics
  import opened LittleEndian

  // ---------- Checksum ----------

  function Roll(sum: bv32, b: Byte): bv32 {
    ((sum << 1) | (sum >> 31)) ^ ((b as bv8) as bv32)
  }

  function Sum(data: seq<Byte>, acc: bv32): bv32 {
    if data == [] then acc else Sum(data[1..], Roll(acc, data[0]))
  }

  function Checksum(data: seq<Byte>): (c: nat)
    ensures c < 0x1_0000_0000
  {
    Sum(data, 0) as nat
  }

  /** The rolling step loses nothing: different sums stay different, */
  lemma RollKeepsApart(a: bv32, b: bv32, x: Byte)
    requires a != b
    ensures Roll(a, x) != Roll(b, x)
  {
    RotateApart(a, b);
    XorApart((a << 1) | (a >> 31), (b << 1) | (b >> 31), (x as bv8) as bv32);
  }

  lemma RotateApart(a: bv32, b: bv32)
    requires a != b
    ensures (a << 1) | (a >> 31) != (b << 1) | (b >> 31)
  {
  }

  lemma XorApart(a: bv32, b: bv32, c: bv32)
    requires a != b
    ensures a ^ c != b ^ c && c ^ a != c ^ b
  {
  }

  lemma WidenApart(x: bv8, y: bv8)
    requires x != y
    ensures x as bv32 != y as bv32
  {
  }

  /** and different bytes make different sums. */
  lemma RollTellsApart(a: bv32, x: Byte, y: Byte)
    requires x as bv8 != y as bv8
    ensures Roll(a, x) != Roll(a, y)
  {
    WidenApart(x as bv8, y as bv8);
    XorApart((x as bv8) as bv32, (y as bv8) as bv32, (a << 1) | (a >> 31));
  }

  lemma {:induction false} SumKeepsApart(s: seq<Byte>, a: bv32, b: bv32)
    requires a != b
    ensures Sum(s, a) != Sum(s, b)
  {
    if s != [] {
      RollKeepsApart(a, b, s[0]);
      SumKeepsApart(s[1..], Roll(a, s[0]), Roll(b, s[0]));
    }
  }

  /** A block with one byte changed has another rolling sum. */
  lemma {:induction false} SumDetects(s: seq<Byte>, t: seq<Byte>, i: nat, acc: bv32)
    requires |s| == |t| && i < |s| && s[i] as bv8 != t[i] as bv8
    requires forall j :: 0 <= j < |s| && j != i ==> s[j] == t[j]
    ensures Sum(s, acc) != Sum(t, acc)
  {
    if i == 0 {
      assert s[1..] == t[1..];
      RollTellsApart(acc, s[0], t[0]);
      SumKeepsApart(s[1..], Roll(acc, s[0]), Roll(acc, t[0]));
    } else {
      SumDetects(s[1..], t[1..], i - 1, Roll(acc, s[0]));
    }
  }

  // ---------- Records ----------

  const MAGIC_SB: nat := 0x4A524E4C
  const MAGIC_DESC: nat := 0x5452414E
  const MAGIC_COMMIT: nat := 0x434F4D54

  const HEADER: nat := 36
  const ENTRY: nat := 20

  /** One block of a transaction: its home and its new contents. */
  datatype Write = Write(home: nat, data: Block)

  /** A committed transaction. */
  datatype Txn = Txn(id: nat, writes: seq<Write>)

  function EncEntry(w: Write): (s: seq<Byte>)
    ensures |s| == ENTRY
  {
    Enc(w.home, 8) + Enc(Checksum(w.data), 4) + Zeros(8)
  }

  function EncEntries(ws: seq<Write>): (s: seq<Byte>)
    ensures |s| == ENTRY * |ws|
  {
    if ws == [] then [] else EncEntry(ws[0]) + EncEntries(ws[1..])
  }

  /** Header without its checksum field; that field covers the header up to the last reserved word. */
  function EncHeader(id: nat, n: nat, sum: nat): (s: seq<Byte>)
    ensures |s| == HEADER
  {
    Enc(MAGIC_DESC, 4) + Enc(id, 8) + Enc(n, 4) + Enc(sum, 4) + Zeros(16)
  }

  predicate DescFits(n: nat, size: nat) {
    HEADER + ENTRY * n <= size
  }

  function DescBlock(t: Txn, size: nat): (b: Block)
    requires DescFits(|t.writes|, size)
    ensures |b| == size
  {
    var sum := Checksum(EncHeader(t.id, |t.writes|, 0)[..HEADER - 4]);
    EncHeader(t.id, |t.writes|, sum) + EncEntries(t.writes) + Zeros(size - HEADER - ENTRY * |t.writes|)
  }

  /** Commit record; the rest of the block is whatever followed the record in memory. */
  function CommitBlock(id: nat, junk: seq<Byte>): (b: Block)
    ensures |b| == 32 + |junk|
  {
    var rec := Enc(MAGIC_COMMIT, 4) + Enc(id, 8) + Enc(0, 4) + Zeros(16);
    Enc(MAGIC_COMMIT, 4) + Enc(id, 8) + Enc(Checksum(rec[..28]), 4) + Zeros(16) + junk
  }

  /** The persistent part of the journal handle. */
  datatype Super = Super(head: nat, tail: nat, sequence: nat, dirty: bool)

  function EncSuper(s: Super): (e: seq<Byte>)
    ensures |e| == 28
  {
    Enc(s.head, 8) + Enc(s.tail, 8) + Enc(s.sequence, 8) + Enc(if s.dirty then 1 else 0, 4)
  }

  function EncGeometry(size: nat, start: nat, blocks: nat): (e: seq<Byte>)
    ensures |e| == 28
  {
    Enc(MAGIC_SB, 4) + Enc(size, 4) + Enc(0, 4) + Enc(start, 8) + Enc(blocks, 8)
  }

  function SuperBlock(s: Super, size: nat, start: nat, blocks: nat): (b: Block)
    requires size >= 92
    ensures |b| == size
  {
    var fields := EncGeometry(size, start, blocks) + EncSuper(s);
    fields + Enc(Checksum(fields), 4) + Zeros(size - 60)
  }

  // ---------- Reading records back ----------

  predicate IsDesc(b: Block) {
    Field(b, 0, 4) == MAGIC_DESC
  }

  function DescCount(b: Block): nat {
    Field(b, 12, 4)
  }

  function DescHome(b: Block, i: nat): nat {
    Field(b, HEADER + ENTRY * i, 8)
  }

  function DescSum(b: Block, i: nat): nat {
    Field(b, HEADER + ENTRY * i + 8, 4)
  }

  /** The sequence number in a descriptor or commit record. */
  function RecordId(b: Block): nat {
    Field(b, 4, 8)
  }

  predicate IsCommit(b: Block) {
    Field(b, 0, 4) == MAGIC_COMMIT
  }

  predicate IsSuper(b: Block) {
    Field(b, 0, 4) == MAGIC_SB
  }

  function DecSuper(b: Block): Super {
    Super(Field(b, 28, 8), Field(b, 36, 8), Field(b, 44, 8), Field(b, 52, 4) != 0)
  }

  /** A descriptor block read back describes the transaction. */
  ghost predicate Describes(b: Block, ws: seq<Write>) {
    && IsDesc(b) && DescCount(b) == |ws|
    && forall i :: 0 <= i < |ws| ==> DescHome(b, i) == ws[i].home && DescSum(b, i) == Checksum(ws[i].data)
  }

  lemma {:induction false} EntryAt(ws: seq<Write>, i: nat)
    requires i < |ws|
    ensures EncEntries(ws) == EncEntries(ws)[..ENTRY * i] + EncEntry(ws[i]) + EncEntries(ws)[ENTRY * i + ENTRY..]
  {
    var s := EncEntries(ws);
    if i == 0 {
      assert s[..ENTRY] == EncEntry(ws[0]);
    } else {
      EntryAt(ws[1..], i - 1);
      var r := EncEntries(ws[1..]);
      assert s == EncEntry(ws[0]) + r;
      assert s[ENTRY * i..ENTRY * i + ENTRY] == r[ENTRY * (i - 1)..ENTRY * (i - 1) + ENTRY];
    }
  }

  lemma EntryReads(w: Write)
    requires w.home < Pow256(8)
    ensures Field(EncEntry(w), 0, 8) == w.home && Field(EncEntry(w), 8, 4) == Checksum(w.data)
  {
    var e := EncEntry(w);
    Widths();
    assert e == [] + Enc(w.home, 8) + (Enc(Checksum(w.data), 4) + Zeros(8));
    FieldIs([], w.home, 8, Enc(Checksum(w.data), 4) + Zeros(8), e);
    FieldIs(Enc(w.home, 8), Checksum(w.data), 4, Zeros(8), e);
  }

  lemma EntryInBlock(t: Txn, size: nat, i: nat)
    requires DescFits(|t.writes|, size) && i < |t.writes|
    ensures DescBlock(t, size)[HEADER + ENTRY * i..HEADER + ENTRY * i + ENTRY] == EncEntry(t.writes[i])
  {
    var b, s, n := DescBlock(t, size), EncEntries(t.writes), |t.writes|;
    EntryAt(t.writes, i);
    assert b[HEADER..HEADER + ENTRY * n] == s;
    assert s[ENTRY * i..ENTRY * i + ENTRY] == EncEntry(t.writes[i]);
    assert b[HEADER..HEADER + ENTRY * n][ENTRY * i..ENTRY * i + ENTRY] ==
      b[HEADER + ENTRY * i..HEADER + ENTRY * i + ENTRY];
  }

  lemma EntryFields(t: Txn, size: nat, i: nat)
    requires DescFits(|t.writes|, size) && i < |t.writes| && t.writes[i].home < Pow256(8)
    ensures DescHome(DescBlock(t, size), i) == t.writes[i].home
    ensures DescSum(DescBlock(t, size), i) == Checksum(t.writes[i].data)
  {
    var b, e := DescBlock(t, size), EncEntry(t.writes[i]);
    EntryInBlock(t, size, i);
    EntryReads(t.writes[i]);
    SubField(b, HEADER + ENTRY * i, e, 0, 8);
    SubField(b, HEADER + ENTRY * i, e, 8, 4);
  }

  lemma HeaderReads(id: nat, n: nat, sum: nat)
    requires n < Pow256(4)
    ensures Field(EncHeader(id, n, sum), 0, 4) == MAGIC_DESC && Field(EncHeader(id, n, sum), 12, 4) == n
    ensures id < Pow256(8) ==> Field(EncHeader(id, n, sum), 4, 8) == id
  {
    var e := EncHeader(id, n, sum);
    Widths();
    assert e[0..4] == Enc(MAGIC_DESC, 4) && e[4..12] == Enc(id, 8) && e[12..16] == Enc(n, 4);
    FieldIn(e, 0, MAGIC_DESC, 4);
    FieldIn(e, 12, n, 4);
    if id < Pow256(8) { FieldIn(e, 4, id, 8); }
  }

  lemma DescHeader(t: Txn, size: nat)
    requires DescFits(|t.writes|, size) && |t.writes| < Pow256(4)
    ensures IsDesc(DescBlock(t, size)) && DescCount(DescBlock(t, size)) == |t.writes|
    ensures t.id < Pow256(8) ==> RecordId(DescBlock(t, size)) == t.id
  {
    var b, n := DescBlock(t, size), |t.writes|;
    var e := EncHeader(t.id, n, Checksum(EncHeader(t.id, n, 0)[..HEADER - 4]));
    HeaderReads(t.id, n, Checksum(EncHeader(t.id, n, 0)[..HEADER - 4]));
    assert b[0..HEADER] == e;
    SubField(b, 0, e, 0, 4);
    SubField(b, 0, e, 12, 4);
    SubField(b, 0, e, 4, 8);
  }

  /** Round trip of descriptors. */
  lemma DescReads(t: Txn, size: nat)
    requires DescFits(|t.writes|, size) && |t.writes| < Pow256(4) && forall w :: w in t.writes ==> w.home < Pow256(8)
    ensures Describes(DescBlock(t, size), t.writes)
    ensures t.id < Pow256(8) ==> RecordId(DescBlock(t, size)) == t.id
  {
    DescHeader(t, size);
    forall i | 0 <= i < |t.writes|
      ensures DescHome(DescBlock(t, size), i) == t.writes[i].home
      ensures DescSum(DescBlock(t, size), i) == Checksum(t.writes[i].data)
    {
      EntryFields(t, size, i);
    }
  }

  lemma CommitReads(id: nat, junk: seq<Byte>)
    ensures IsCommit(CommitBlock(id, junk))
    ensures id < Pow256(8) ==> RecordId(CommitBlock(id, junk)) == id
  {
    var b := CommitBlock(id, junk);
    Widths();
    assert b[0..4] == Enc(MAGIC_COMMIT, 4) && b[4..12] == Enc(id, 8);
    FieldIn(b, 0, MAGIC_COMMIT, 4);
    if id < Pow256(8) { FieldIn(b, 4, id, 8); }
  }

  lemma EncSuperReads(s: Super)
    requires s.head < Pow256(8) && s.tail < Pow256(8) && s.sequence < Pow256(8)
    ensures Field(EncSuper(s), 0, 8) == s.head && Field(EncSuper(s), 8, 8) == s.tail
    ensures Field(EncSuper(s), 16, 8) == s.sequence
    ensures Field(EncSuper(s), 24, 4) == if s.dirty then 1 else 0
  {
    var h, t, q, d, e :=
      Enc(s.head, 8), Enc(s.tail, 8), Enc(s.sequence, 8), Enc(if s.dirty then 1 else 0, 4), EncSuper(s);
    Widths();
    FieldIs([], s.head, 8, t + q + d, e);
    FieldIs(h, s.tail, 8, q + d, e);
    FieldIs(h + t, s.sequence, 8, d, e);
    FieldIs(h + t + q, if s.dirty then 1 else 0, 4, [], e);
  }

  lemma SuperReads(s: Super, size: nat, start: nat, blocks: nat)
    requires size >= 92 && s.head < Pow256(8) && s.tail < Pow256(8) && s.sequence < Pow256(8)
    ensures IsSuper(SuperBlock(s, size, start, blocks)) && DecSuper(SuperBlock(s, size, start, blocks)) == s
  {
    var b, e := SuperBlock(s, size, start, blocks), EncSuper(s);
    EncSuperReads(s);
    SuperMagic(s, size, start, blocks);
    assert b[28..56] == e;
    SubField(b, 28, e, 0, 8);
    SubField(b, 28, e, 8, 8);
    SubField(b, 28, e, 16, 8);
    SubField(b, 28, e, 24, 4);
  }

  lemma SuperBounds(b: Block)
    ensures DecSuper(b).head < Pow256(8) && DecSuper(b).tail < Pow256(8) && DecSuper(b).sequence < Pow256(8)
  {
    FieldBound(b, 28, 8);
    FieldBound(b, 36, 8);
    FieldBound(b, 44, 8);
  }

  lemma SuperMagic(s: Super, size: nat, start: nat, blocks: nat)
    requires size >= 92
    ensures IsSuper(SuperBlock(s, size, start, blocks))
  {
    var b := SuperBlock(s, size, start, blocks);
    Widths();
    assert b[0..4] == Enc(MAGIC_SB, 4);
    DecEnc(MAGIC_SB, 4);
  }

  /** The superblock names the journal's place and size, */
  lemma SuperGeometry(s: Super, size: nat, start: nat, blocks: nat)
    requires 92 <= size < Pow256(4) && start < Pow256(8) && blocks < Pow256(8)
    ensures var b := SuperBlock(s, size, start, blocks);
      Field(b, 4, 4) == size && Field(b, 12, 8) == start && Field(b, 20, 8) == blocks
  {
    var b, e := SuperBlock(s, size, start, blocks), EncGeometry(size, start, blocks);
    GeometryReads(size, start, blocks);
    assert b[0..28] == e;
    SubField(b, 0, e, 4, 4);
    SubField(b, 0, e, 12, 8);
    SubField(b, 0, e, 20, 8);
  }

  lemma GeometryReads(size: nat, start: nat, blocks: nat)
    requires size < Pow256(4) && start < Pow256(8) && blocks < Pow256(8)
    ensures var e := EncGeometry(size, start, blocks);
      Field(e, 4, 4) == size && Field(e, 12, 8) == start && Field(e, 20, 8) == blocks
  {
    var m, z, v, p, n, e := Enc(MAGIC_SB, 4), Enc(size, 4), Enc(0, 4), Enc(start, 8), Enc(blocks, 8),
      EncGeometry(size, start, blocks);
    FieldIs(m, size, 4, v + p + n, e);
    FieldIs(m + z + v, start, 8, n, e);
    FieldIs(m + z + v + p, blocks, 8, [], e);
  }

  /** and its checksum is that of the bytes before it. */
  lemma SuperSummed(s: Super, size: nat, start: nat, blocks: nat)
    requires size >= 92
    ensures var b := SuperBlock(s, size, start, blocks); Field(b, 56, 4) == Checksum(b[..56])
  {
    var b := SuperBlock(s, size, start, blocks);
    var fields := EncGeometry(size, start, blocks) + EncSuper(s);
    Widths();
    assert b[..56] == fields && b[56..60] == Enc(Checksum(fields), 4);
    FieldIn(b, 56, Checksum(fields), 4);
  }

  /** Bytes of a record its own checksum covers, with that field, at off, still zero. */
  function Unsummed(b: Block, off: nat, end: nat): Block
    requires off + 4 <= end <= |b|
  {
    b[..off] + Zeros(4) + b[off + 4..end]
  }

  lemma DescSummed(t: Txn, size: nat)
    requires DescFits(|t.writes|, size)
    ensures Field(DescBlock(t, size), 16, 4) == Checksum(Unsummed(DescBlock(t, size), 16, HEADER - 4))
  {
    var b, e := DescBlock(t, size), EncHeader(t.id, |t.writes|, 0);
    Widths();
    assert b[16..20] == Enc(Checksum(e[..HEADER - 4]), 4);
    assert Unsummed(b, 16, HEADER - 4) == e[..HEADER - 4];
    FieldIn(b, 16, Checksum(e[..HEADER - 4]), 4);
  }

  lemma CommitSummed(id: nat, junk: seq<Byte>)
    ensures Field(CommitBlock(id, junk), 12, 4) == Checksum(Unsummed(CommitBlock(id, junk), 12, 28))
  {
    var b, pre := CommitBlock(id, junk), Enc(MAGIC_COMMIT, 4) + Enc(id, 8);
    var rec := pre + Enc(0, 4) + Zeros(16);
    var sum := Checksum(rec[..28]);
    Widths();
    assert b == pre + Enc(sum, 4) + (Zeros(16) + junk);
    FieldIs(pre, sum, 4, Zeros(16) + junk, b);
    assert Unsummed(b, 12, 28) == rec[..28] by {
      assert b[..12] == pre == rec[..12] && b[16..28] == rec[16..28] && rec[12..16] == Enc(0, 4) == Zeros(4);
    }
  }
}
