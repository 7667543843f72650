/**
 ext2 directory blocks: records that tile a block, lookup, and the slot split of ext2_create.
 */
module Ext2Dir {
  import opened Basics
  import opened LittleEndian

  /** Inode, record length, name length and file type come before the name. */
  const HEADER: nat := 8

  function RecLen(b: Block, off: nat): nat {
    Field(b, off + 4, 2)
  }

  function NameLen(b: Block, off: nat): nat {
    Field(b, off + 6, 1)
  }

  function Inode(b: Block, off: nat): nat {
    Field(b, off, 4)
  }

  /** rec_len_for_name. */
  function MinRec(n: nat): (r: nat)
    ensures r % 4 == 0 && HEADER + n <= r < HEADER + n + 4
  {
    (HEADER + n + 3) / 4 * 4
  }

  predicate Matches(b: Block, off: nat, name: seq<Byte>) {
    NameLen(b, off) == |name| && off + HEADER + |name| <= |b| && b[off + HEADER..off + HEADER + |name|] == name
  }

  /** A whole record starts at off. */
  predicate RecordAt(b: Block, off: nat) {
    && RecLen(b, off) % 4 == 0 && MinRec(NameLen(b, off)) <= RecLen(b, off) && off + RecLen(b, off) <= |b|
  }

  /** From off to its end the block is a sequence of records. */
  ghost predicate Tiled(b: Block, off: nat)
    decreases |b| - off
  {
    off == |b| || (off < |b| && RecordAt(b, off) && Tiled(b, off + RecLen(b, off)))
  }

  /** The inode of the first record with this name among those that start below the limit. */
  ghost function Lookup(b: Block, off: nat, limit: nat, name: seq<Byte>): Option<nat>
    decreases |b| - off
  {
    if off >= |b| || off >= limit || !RecordAt(b, off) then None
    else if Matches(b, off, name) then Some(Inode(b, off))
    else Lookup(b, off + RecLen(b, off), limit, name)
  }

  /** off is the start of a record, counting from o. */
  ghost predicate Boundary(b: Block, o: nat, off: nat)
    decreases |b| - o
  {
    o == off || (o < |b| && RecordAt(b, o) && o < off && Boundary(b, o + RecLen(b, o), off))
  }

  /** Some record from o up to off has this name. */
  ghost predicate NamedUpTo(b: Block, o: nat, off: nat, name: seq<Byte>)
    decreases |b| - o
  {
    o < |b| && RecordAt(b, o) && o <= off && (Matches(b, o, name) || NamedUpTo(b, o + RecLen(b, o), off, name))
  }

  // ---------- Bytes ----------

  function PutBytes(b: Block, off: nat, data: seq<Byte>): (c: Block)
    requires off + |data| <= |b|
    ensures |c| == |b|
    ensures forall i :: 0 <= i < |b| ==> c[i] == if off <= i < off + |data| then data[i - off] else b[i]
  {
    b[..off] + data + b[off + |data|..]
  }

  /** A record is read the same from bytes that are the same. */
  lemma SameField(b: Block, c: Block, off: nat, k: nat)
    requires |b| == |c| && forall i :: off <= i < off + k && i < |b| ==> c[i] == b[i]
    ensures Field(c, off, k) == Field(b, off, k)
  {
    if off + k <= |b| { assert c[off..off + k] == b[off..off + k]; }
  }

  lemma SameRecord(b: Block, c: Block, off: nat, name: seq<Byte>)
    requires |b| == |c| && off < |b| && RecordAt(b, off) && forall i :: off <= i < off + RecLen(b, off) ==> c[i] == b[i]
    ensures RecordAt(c, off) && RecLen(c, off) == RecLen(b, off) && Inode(c, off) == Inode(b, off)
    ensures Matches(c, off, name) == Matches(b, off, name)
  {
    SameField(b, c, off + 4, 2);
    SameField(b, c, off + 6, 1);
    SameField(b, c, off, 4);
    var n := NameLen(b, off);
    assert c[off + HEADER..off + HEADER + n] == b[off + HEADER..off + HEADER + n];
  }

  /** From off on, nothing depends on earlier bytes. */
  lemma {:induction false} SameTail(b: Block, c: Block, off: nat, limit: nat, name: seq<Byte>)
    requires |b| == |c| && Tiled(b, off) && forall i :: off <= i < |b| ==> c[i] == b[i]
    ensures Tiled(c, off) && Lookup(c, off, limit, name) == Lookup(b, off, limit, name)
    decreases |b| - off
  {
    if off < |b| {
      SameRecord(b, c, off, name);
      SameTail(b, c, off + RecLen(b, off), limit, name);
    }
  }

  // ---------- The split ----------

  /** The new record: its bytes up to the end of the name. */
  function NewRecord(ino: nat, rec: nat, name: seq<Byte>, kind: nat): (s: seq<Byte>)
    ensures |s| == HEADER + |name|
  {
    Enc(ino, 4) + Enc(rec, 2) + Enc(|name|, 1) + Enc(kind, 1) + name
  }

  predicate CanSplit(b: Block, off: nat, name: seq<Byte>) {
    off < |b| && RecordAt(b, off) && RecLen(b, off) >= MinRec(NameLen(b, off)) + MinRec(|name|)
  }

  /** The record at off cut to its smallest length and the new one in the space behind it. */
  function Split(b: Block, off: nat, ino: nat, name: seq<Byte>, kind: nat): (c: Block)
    requires CanSplit(b, off, name)
    ensures |c| == |b|
  {
    var min := MinRec(NameLen(b, off));
    PutBytes(PutBytes(b, off + 4, Enc(min, 2)), off + min, NewRecord(ino, RecLen(b, off) - min, name, kind))
  }

  lemma NewRecordReads(ino: nat, rec: nat, name: seq<Byte>, kind: nat)
    requires ino < 0x1_0000_0000 && rec < 0x1_0000 && |name| < 256
    ensures var s := NewRecord(ino, rec, name, kind);
      Field(s, 0, 4) == ino && Field(s, 4, 2) == rec && Field(s, 6, 1) == |name| && s[HEADER..] == name
  {
    var s, i, r, n, k := NewRecord(ino, rec, name, kind), Enc(ino, 4), Enc(rec, 2), Enc(|name|, 1), Enc(kind, 1);
    Widths();
    assert Pow256(1) == 256 && Pow256(2) == 0x1_0000;
    FieldIs([], ino, 4, r + n + k + name, s);
    FieldIs(i, rec, 2, n + k + name, s);
    FieldIs(i + r, |name|, 1, k + name, s);
  }

  ghost predicate IsSplit(b: Block, c: Block, off: nat, ino: nat, name: seq<Byte>, kind: nat) {
    && CanSplit(b, off, name) && c == Split(b, off, ino, name, kind) && ino < 0x1_0000_0000 && |name| < 256 &&
      |b| < 0x1_0000
  }

  /** The old record, cut: same inode and name. */
  lemma OldRecord(b: Block, c: Block, off: nat, ino: nat, name: seq<Byte>, kind: nat, n: seq<Byte>)
    requires IsSplit(b, c, off, ino, name, kind)
    ensures RecordAt(c, off) && RecLen(c, off) == MinRec(NameLen(b, off)) && Inode(c, off) == Inode(b, off)
    ensures Matches(c, off, n) == Matches(b, off, n)
  {
    var min, len := MinRec(NameLen(b, off)), NameLen(b, off);
    SameField(b, c, off, 4);
    SameField(b, c, off + 6, 1);
    assert c[off + 4..off + 6] == Enc(min, 2);
    assert Pow256(1) == 256 && Pow256(2) == 0x1_0000;
    DecEnc(min, 2);
    assert c[off + HEADER..off + HEADER + len] == b[off + HEADER..off + HEADER + len];
  }

  /** A new record written at some offset, read back. */
  lemma RecordReads(c: Block, at: nat, ino: nat, rec: nat, name: seq<Byte>, kind: nat, n: seq<Byte>)
    requires ino < 0x1_0000_0000 && rec < 0x1_0000 && |name| < 256 && at + HEADER + |name| <= |c|
    requires c[at..at + HEADER + |name|] == NewRecord(ino, rec, name, kind)
    ensures Inode(c, at) == ino && RecLen(c, at) == rec && NameLen(c, at) == |name|
    ensures (Matches(c, at, n) <==> n == name)
  {
    var s := NewRecord(ino, rec, name, kind);
    NewRecordReads(ino, rec, name, kind);
    SubField(c, at, s, 0, 4);
    SubField(c, at, s, 4, 2);
    SubField(c, at, s, 6, 1);
    assert c[at..at + |s|][HEADER..] == c[at + HEADER..at + |s|];
  }

  /** The new record: the new name, the new inode, the rest of the space. */
  lemma AddedRecord(b: Block, c: Block, off: nat, at: nat, ino: nat, name: seq<Byte>, kind: nat, n: seq<Byte>)
    requires IsSplit(b, c, off, ino, name, kind) && at == off + MinRec(NameLen(b, off))
    ensures RecordAt(c, at) && at + RecLen(c, at) == off + RecLen(b, off) && Inode(c, at) == ino
    ensures (Matches(c, at, n) <==> n == name)
  {
    var rest := RecLen(b, off) - MinRec(NameLen(b, off));
    SplitBytes(b, c, off, at, rest, ino, name, kind);
    RecordReads(c, at, ino, rest, name, kind, n);
    RestFits(RecLen(b, off), MinRec(NameLen(b, off)), |name|);
  }

  lemma RestFits(rec: nat, min: nat, len: nat)
    requires rec % 4 == 0 && min % 4 == 0 && rec >= min + MinRec(len)
    ensures (rec - min) % 4 == 0 && rec - min >= MinRec(len)
  {
  }

  lemma SplitBytes(b: Block, c: Block, off: nat, at: nat, rest: nat, ino: nat, name: seq<Byte>, kind: nat)
    requires CanSplit(b, off, name) && c == Split(b, off, ino, name, kind)
    requires at == off + MinRec(NameLen(b, off)) && rest == RecLen(b, off) - MinRec(NameLen(b, off))
    ensures at + HEADER + |name| <= |c| && c[at..at + HEADER + |name|] == NewRecord(ino, rest, name, kind)
  {
    var s := NewRecord(ino, rest, name, kind);
    var x := c[at..at + |s|];
    forall i | 0 <= i < |s| ensures x[i] == s[i] {
    }
  }

  /** The answer of a lookup after the split, given the one before: the new record counts only if the lookup sees it
      and no record before it has the name. */
  ghost function Answer(before: Option<nat>, earlier: bool, seen: bool, n: seq<Byte>, name: seq<Byte>,
      ino: nat): Option<nat> {
    if n != name || earlier || !seen then before else Some(ino)
  }

  lemma SplitHere(b: Block, c: Block, off: nat, at: nat, end: nat, ino: nat, name: seq<Byte>, kind: nat, limit: nat,
      n: seq<Byte>)
    requires IsSplit(b, c, off, ino, name, kind) && Tiled(b, off)
    requires at == off + MinRec(NameLen(b, off)) && end == off + RecLen(b, off)
    ensures Tiled(c, off)
    ensures Lookup(c, off, limit, n) ==
      Answer(Lookup(b, off, limit, n), NamedUpTo(b, off, off, n), at < limit, n, name, ino)
  {
    OldRecord(b, c, off, ino, name, kind, n);
    AddedRecord(b, c, off, at, ino, name, kind, n);
    SameTail(b, c, end, limit, n);
    TwoRecords(b, c, off, at, end, ino, name, limit, n);
  }

  /** One record for two: the first answers as the old one did, the second for the new name. */
  lemma TwoRecords(b: Block, c: Block, off: nat, at: nat, end: nat, ino: nat, name: seq<Byte>, limit: nat, n: seq<Byte>)
    requires |b| == |c| && off < |b| && RecordAt(b, off) && end == off + RecLen(b, off)
    requires RecordAt(c, off) && at == off + RecLen(c, off) && Inode(c, off) == Inode(b, off)
    requires Matches(c, off, n) == Matches(b, off, n)
    requires at < |c| && RecordAt(c, at) && at + RecLen(c, at) == end && Inode(c, at) == ino
    requires Matches(c, at, n) <==> n == name
    requires Tiled(c, end) && Lookup(c, end, limit, n) == Lookup(b, end, limit, n)
    ensures Tiled(c, off)
    ensures Lookup(c, off, limit, n) ==
      Answer(Lookup(b, off, limit, n), NamedUpTo(b, off, off, n), at < limit, n, name, ino)
  {
    NextRecord(b, off, end, limit, n);
    NamedHere(b, off, end, n);
    NextRecord(c, at, end, limit, n);
    NextRecord(c, off, at, limit, n);
    if at >= limit {
      assert Lookup(b, end, limit, n) == None && Lookup(c, at, limit, n) == None;
    }
  }

  lemma NamedHere(b: Block, off: nat, end: nat, n: seq<Byte>)
    requires off < |b| && RecordAt(b, off) && end == off + RecLen(b, off)
    ensures NamedUpTo(b, off, off, n) == Matches(b, off, n)
  {
    NotBeyond(b, end, off, n);
  }

  lemma NextRecord(c: Block, o: nat, next: nat, limit: nat, n: seq<Byte>)
    requires o < |c| && RecordAt(c, o) && next == o + RecLen(c, o)
    ensures Tiled(c, o) == Tiled(c, next)
    ensures Lookup(c, o, limit, n) ==
      if o >= limit then None else if Matches(c, o, n) then Some(Inode(c, o)) else Lookup(c, next, limit, n)
  {
  }

  /** The block stays tiled; a name found up to the split record or different from the new one resolves as
      before, and otherwise the new name resolves to the new inode if its record starts below the limit. */
  lemma {:induction false} SplitFrom(b: Block, c: Block, o: nat, off: nat, ino: nat, name: seq<Byte>, kind: nat,
                                     limit: nat, n: seq<Byte>)
    requires IsSplit(b, c, off, ino, name, kind) && Tiled(b, o) && Boundary(b, o, off)
    ensures Tiled(c, o)
    ensures Lookup(c, o, limit, n) ==
      Answer(Lookup(b, o, limit, n), NamedUpTo(b, o, off, n), off + MinRec(NameLen(b, off)) < limit, n, name, ino)
    decreases |b| - o
  {
    if o == off {
      SplitHere(b, c, off, off + MinRec(NameLen(b, off)), off + RecLen(b, off), ino, name, kind, limit, n);
    } else {
      var next := o + RecLen(b, o);
      BoundaryAfter(b, next, off);
      Unsplit(b, c, o, off, ino, name, kind);
      SameRecord(b, c, o, n);
      SplitFrom(b, c, next, off, ino, name, kind, limit, n);
      StepOver(b, c, o, next, off, off + MinRec(NameLen(b, off)) < limit, limit, n, name, ino);
    }
  }

  /** A record before the split one, read the same from both blocks. */
  lemma StepOver(b: Block, c: Block, o: nat, next: nat, off: nat, seen: bool, limit: nat, n: seq<Byte>, name: seq<Byte>,
      ino: nat)
    requires o < |b| == |c| && RecordAt(b, o) && RecordAt(c, o) && next == o + RecLen(b, o) == o + RecLen(c, o)
    requires o <= off
    requires Inode(c, o) == Inode(b, o) && Matches(c, o, n) == Matches(b, o, n) && (seen ==> off < limit)
    requires Tiled(c, next)
    requires Lookup(c, next, limit, n) ==
      Answer(Lookup(b, next, limit, n), NamedUpTo(b, next, off, n), seen, n, name, ino)
    ensures Tiled(c, o)
    ensures Lookup(c, o, limit, n) == Answer(Lookup(b, o, limit, n), NamedUpTo(b, o, off, n), seen, n, name, ino)
  {
    NextRecord(b, o, next, limit, n);
    NextRecord(c, o, next, limit, n);
    NamedNext(b, o, next, off, n);
  }

  lemma NamedNext(b: Block, o: nat, next: nat, off: nat, n: seq<Byte>)
    requires o < |b| && RecordAt(b, o) && next == o + RecLen(b, o) && o <= off
    ensures NamedUpTo(b, o, off, n) == (Matches(b, o, n) || NamedUpTo(b, next, off, n))
  {
  }

  lemma Unsplit(b: Block, c: Block, o: nat, off: nat, ino: nat, name: seq<Byte>, kind: nat)
    requires IsSplit(b, c, off, ino, name, kind) && o + RecLen(b, o) <= off
    ensures |c| == |b| && forall i :: o <= i < o + RecLen(b, o) ==> c[i] == b[i]
  {
  }

  lemma BoundaryAfter(b: Block, o: nat, off: nat)
    requires Boundary(b, o, off)
    ensures o <= off
  {
  }

  lemma NotBeyond(b: Block, o: nat, off: nat, n: seq<Byte>)
    requires o > off
    ensures !NamedUpTo(b, o, off, n)
  {
  }

  // ---------- A fresh block ----------

  /** A block that is one record from end to end. */
  function FreshBlock(size: nat, ino: nat, name: seq<Byte>, kind: nat): (b: Block)
    requires HEADER + |name| <= size
    ensures |b| == size
  {
    NewRecord(ino, size, name, kind) + Zeros(size - HEADER - |name|)
  }

  lemma FreshRecord(size: nat, ino: nat, name: seq<Byte>, kind: nat, n: seq<Byte>)
    requires ino < 0x1_0000_0000 && MinRec(|name|) <= size < 0x1_0000 && size % 4 == 0 && |name| < 256
    ensures var b := FreshBlock(size, ino, name, kind);
      && RecordAt(b, 0) && RecLen(b, 0) == size && NameLen(b, 0) == |name| && Inode(b, 0) == ino
      && (Matches(b, 0, n) <==> n == name)
  {
    var b := FreshBlock(size, ino, name, kind);
    assert b[0..HEADER + |name|] == NewRecord(ino, size, name, kind);
    RecordReads(b, 0, ino, size, name, kind, n);
  }

  lemma FreshReads(size: nat, ino: nat, name: seq<Byte>, kind: nat, limit: nat, n: seq<Byte>)
    requires ino < 0x1_0000_0000 && MinRec(|name|) <= size < 0x1_0000 && size % 4 == 0 && |name| < 256 && limit > 0
    ensures var b := FreshBlock(size, ino, name, kind);
      Tiled(b, 0) && Lookup(b, 0, limit, n) == if n == name then Some(ino) else None
  {
    var b := FreshBlock(size, ino, name, kind);
    FreshRecord(size, ino, name, kind, n);
    NextRecord(b, 0, size, limit, n);
  }

  // ---------- What a block lists ----------

  /** A directory entry as a directory read hands it out. */
  datatype DirEntry = DirEntry(ino: nat, kind: nat, name: seq<Byte>)

  function Kind(b: Block, off: nat): nat {
    Field(b, off + 7, 1)
  }

  function EntryAt(b: Block, off: nat): DirEntry
    requires RecordAt(b, off)
  {
    DirEntry(Inode(b, off), Kind(b, off), b[off + HEADER..off + HEADER + NameLen(b, off)])
  }

  /** The entries from off on. */
  ghost function Entries(b: Block, off: nat): seq<DirEntry>
    decreases |b| - off
  {
    if off >= |b| || !RecordAt(b, off) then [] else [EntryAt(b, off)] + Entries(b, off + RecLen(b, off))
  }

  /** One entry more, in some place; all others as they were and in the same order. */
  ghost predicate Inserted(before: seq<DirEntry>, after: seq<DirEntry>, e: DirEntry) {
    exists n :: 0 <= n <= |before| && after == before[..n] + [e] + before[n..]
  }

  lemma NewRecordKind(ino: nat, rec: nat, name: seq<Byte>, kind: nat)
    ensures Field(NewRecord(ino, rec, name, kind), 7, 1) == kind % 256
  {
    var s := NewRecord(ino, rec, name, kind);
    assert s[7..8] == [kind % 256];
    assert Dec([kind % 256][1..]) == 0;
  }

  lemma NewEntry(c: Block, at: nat, ino: nat, rec: nat, name: seq<Byte>, kind: nat)
    requires ino < 0x1_0000_0000 && rec < 0x1_0000 && |name| < 256 && at + HEADER + |name| <= |c| && RecordAt(c, at)
    requires c[at..at + HEADER + |name|] == NewRecord(ino, rec, name, kind)
    ensures EntryAt(c, at) == DirEntry(ino, kind % 256, name)
  {
    RecordReads(c, at, ino, rec, name, kind, name);
    NewRecordKind(ino, rec, name, kind);
    SubField(c, at, NewRecord(ino, rec, name, kind), 7, 1);
  }

  lemma SameEntry(b: Block, c: Block, off: nat)
    requires |b| == |c| && off < |b| && RecordAt(b, off) && forall i :: off <= i < off + RecLen(b, off) ==> c[i] == b[i]
    ensures RecordAt(c, off) && RecLen(c, off) == RecLen(b, off) && EntryAt(c, off) == EntryAt(b, off)
  {
    SameRecord(b, c, off, []);
    SameField(b, c, off + 6, 1);
    SameField(b, c, off + 7, 1);
    var n := NameLen(b, off);
    assert c[off + HEADER..off + HEADER + n] == b[off + HEADER..off + HEADER + n];
  }

  lemma {:induction false} SameEntries(b: Block, c: Block, off: nat)
    requires |b| == |c| && Tiled(b, off) && forall i :: off <= i < |b| ==> c[i] == b[i]
    ensures Entries(c, off) == Entries(b, off)
    decreases |b| - off
  {
    if off < |b| {
      SameEntry(b, c, off);
      SameEntries(b, c, off + RecLen(b, off));
    }
  }

  /** The record that is cut keeps inode, type and name. */
  lemma CutEntry(b: Block, c: Block, off: nat, ino: nat, name: seq<Byte>, kind: nat)
    requires IsSplit(b, c, off, ino, name, kind)
    ensures RecordAt(c, off) && EntryAt(c, off) == EntryAt(b, off)
  {
    OldRecord(b, c, off, ino, name, kind, []);
    var n := NameLen(b, off);
    SameField(b, c, off + 6, 1);
    SameField(b, c, off + 7, 1);
    assert c[off + HEADER..off + HEADER + n] == b[off + HEADER..off + HEADER + n];
  }

  lemma NextEntry(b: Block, o: nat, next: nat)
    requires o < |b| && RecordAt(b, o) && next == o + RecLen(b, o)
    ensures Entries(b, o) == [EntryAt(b, o)] + Entries(b, next)
  {
  }

  /** One record for two. */
  lemma TwoEntries(b: Block, c: Block, off: nat, at: nat, end: nat, e: DirEntry)
    requires off < |b| == |c| && RecordAt(b, off) && end == off + RecLen(b, off)
    requires RecordAt(c, off) && at == off + RecLen(c, off) && EntryAt(c, off) == EntryAt(b, off)
    requires at < |c| && RecordAt(c, at) && end == at + RecLen(c, at) && EntryAt(c, at) == e
    requires Entries(c, end) == Entries(b, end)
    ensures Entries(c, off) == [EntryAt(b, off)] + [e] + Entries(b, end)
    ensures Entries(b, off) == [EntryAt(b, off)] + Entries(b, end)
  {
    NextEntry(b, off, end);
    NextEntry(c, at, end);
    NextEntry(c, off, at);
  }

  lemma SplitEntriesHere(b: Block, c: Block, off: nat, at: nat, end: nat, ino: nat, name: seq<Byte>, kind: nat)
    requires IsSplit(b, c, off, ino, name, kind) && Tiled(b, off)
    requires at == off + MinRec(NameLen(b, off)) && end == off + RecLen(b, off)
    ensures Entries(c, off) == [EntryAt(b, off)] + [DirEntry(ino, kind % 256, name)] + Entries(b, end)
    ensures Entries(b, off) == [EntryAt(b, off)] + Entries(b, end)
  {
    CutEntry(b, c, off, ino, name, kind);
    OldRecord(b, c, off, ino, name, kind, []);
    AddedRecord(b, c, off, at, ino, name, kind, []);
    SplitBytes(b, c, off, at, end - at, ino, name, kind);
    NewEntry(c, at, ino, end - at, name, kind);
    TailEntries(b, c, off, end, ino, name, kind);
    TwoEntries(b, c, off, at, end, DirEntry(ino, kind % 256, name));
  }

  lemma TailEntries(b: Block, c: Block, off: nat, end: nat, ino: nat, name: seq<Byte>, kind: nat)
    requires IsSplit(b, c, off, ino, name, kind) && Tiled(b, off) && end == off + RecLen(b, off)
    ensures Entries(c, end) == Entries(b, end)
  {
    SameEntries(b, c, end);
  }

  lemma InsertLater(x: DirEntry, l: seq<DirEntry>, n: nat, n': nat, e: DirEntry)
    requires n <= |l| && n' == n + 1
    ensures ([x] + l)[..n'] + [e] + ([x] + l)[n'..] == [x] + (l[..n] + [e] + l[n..])
  {
    assert ([x] + l)[..n'] == [x] + l[..n];
    assert ([x] + l)[n'..] == l[n..];
  }

  /** A record before the split one. */
  lemma OneBefore(b: Block, c: Block, o: nat, next: nat, n: nat, n': nat, e: DirEntry)
    requires o < |b| == |c| && RecordAt(b, o) && RecordAt(c, o) && next == o + RecLen(b, o) == o + RecLen(c, o)
    requires EntryAt(c, o) == EntryAt(b, o) && n <= |Entries(b, next)| && n' == n + 1
    requires Entries(c, next) == Entries(b, next)[..n] + [e] + Entries(b, next)[n..]
    ensures n' <= |Entries(b, o)| && Entries(c, o) == Entries(b, o)[..n'] + [e] + Entries(b, o)[n'..]
  {
    NextEntry(b, o, next);
    NextEntry(c, o, next);
    InsertLater(EntryAt(b, o), Entries(b, next), n, n', e);
  }

  /** A split lists one entry more, right behind the record that is cut. */
  lemma {:induction false} SplitEntries(b: Block, c: Block, o: nat, off: nat, ino: nat, name: seq<Byte>, kind: nat)
    returns (n: nat)
    requires IsSplit(b, c, off, ino, name, kind) && Tiled(b, o) && Boundary(b, o, off)
    ensures n <= |Entries(b, o)|
    ensures Entries(c, o) == Entries(b, o)[..n] + [DirEntry(ino, kind % 256, name)] + Entries(b, o)[n..]
    decreases |b| - o
  {
    var e := DirEntry(ino, kind % 256, name);
    if o == off {
      n := 1;
      SplitEntriesHere(b, c, off, off + MinRec(NameLen(b, off)), off + RecLen(b, off), ino, name, kind);
    } else {
      var next := o + RecLen(b, o);
      BoundaryAfter(b, next, off);
      Unsplit(b, c, o, off, ino, name, kind);
      SameEntry(b, c, o);
      var k := SplitEntries(b, c, next, off, ino, name, kind);
      n := k + 1;
      OneBefore(b, c, o, next, k, n, e);
    }
  }

  lemma FreshEntries(size: nat, ino: nat, name: seq<Byte>, kind: nat)
    requires ino < 0x1_0000_0000 && MinRec(|name|) <= size < 0x1_0000 && size % 4 == 0 && |name| < 256
    ensures Entries(FreshBlock(size, ino, name, kind), 0) == [DirEntry(ino, kind % 256, name)]
  {
    var b := FreshBlock(size, ino, name, kind);
    FreshRecord(size, ino, name, kind, []);
    assert b[0..0 + HEADER + |name|] == NewRecord(ino, size, name, kind);
    NewEntry(b, 0, ino, size, name, kind);
    assert Entries(b, size) == [];
  }
}
