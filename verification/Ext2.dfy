/**
 ext2 directories and inode allocation: lookup, and creation of a name by splitting a slot or appending a block.
 */
module Ext2 {
  import opened Basics
  import opened LittleEndian
  import opened Ext2Dir

  // ---------- Directories ----------

  ghost predicate AllTiled(blocks: seq<Block>, size: nat) {
    forall i :: 0 <= i < |blocks| ==> |blocks[i]| == size && Tiled(blocks[i], 0)
  }

  /** The size of n blocks. */
  function Bytes(n: nat, size: nat): nat {
    if n == 0 then 0 else Bytes(n - 1, size) + size
  }

  lemma {:induction false} BytesMono(k: nat, n: nat, size: nat)
    requires k <= n
    ensures Bytes(k, size) <= Bytes(n, size)
  {
    if k < n { BytesMono(k, n - 1, size); }
  }

  /** How much of block k lies below the directory size. */
  function Limit(dirSize: nat, size: nat, k: nat): nat {
    if dirSize >= Bytes(k, size) then dirSize - Bytes(k, size) else 0
  }

  /** The inode of the first record with the name that starts below the directory size. */
  ghost function LookupDir(blocks: seq<Block>, size: nat, dirSize: nat, name: seq<Byte>): Option<nat> {
    if blocks == [] then None
    else
      var k := |blocks| - 1;
      var before := LookupDir(blocks[..k], size, dirSize, name);
      if before.Some? then before else Lookup(blocks[k], 0, Limit(dirSize, size, k), name)
  }

  lemma LookupSnoc(blocks: seq<Block>, b: Block, size: nat, dirSize: nat, name: seq<Byte>)
    ensures var before := LookupDir(blocks, size, dirSize, name);
      LookupDir(blocks + [b], size, dirSize, name) ==
      if before.Some? then before else Lookup(b, 0, Limit(dirSize, size, |blocks|), name)
  {
    assert (blocks + [b])[..|blocks|] == blocks;
  }

  /** The record that a split of the last block adds starts below the directory size. */
  ghost predicate Seen(blocks: seq<Block>, size: nat, dirSize: nat, off: nat)
    requires |blocks| > 0
  {
    var k := |blocks| - 1;
    off + MinRec(NameLen(blocks[k], off)) < Limit(dirSize, size, k)
  }

  ghost predicate SplitLast(blocks: seq<Block>, c: Block, size: nat, off: nat, ino: nat, name: seq<Byte>, kind: nat) {
    && |blocks| > 0 && AllTiled(blocks, size)
    && Boundary(blocks[|blocks| - 1], 0, off) && IsSplit(blocks[|blocks| - 1], c, off, ino, name, kind)
  }

  /** A record with the name stands in an earlier block, or up to the split slot. */
  ghost predicate Earlier(blocks: seq<Block>, size: nat, dirSize: nat, off: nat, name: seq<Byte>)
    requires |blocks| > 0
  {
    var k := |blocks| - 1;
    LookupDir(blocks[..k], size, dirSize, name).Some? || NamedUpTo(blocks[k], 0, off, name)
  }

  /** The answer for name n once the slot at off of the last block is split for a name. */
  ghost function SplitAnswer(blocks: seq<Block>, size: nat, dirSize: nat, off: nat, name: seq<Byte>, ino: nat,
      n: seq<Byte>): Option<nat>
    requires |blocks| > 0
  {
    var earlier, seen := Earlier(blocks, size, dirSize, off, n), Seen(blocks, size, dirSize, off);
    Answer(LookupDir(blocks, size, dirSize, n), earlier, seen, n, name, ino)
  }

  /** The answer for name n once a block for a name is appended: the old one without a limit, or the new entry. */
  ghost function AppendAnswer(blocks: seq<Block>, size: nat, name: seq<Byte>, ino: nat, n: seq<Byte>): Option<nat> {
    var all := LookupDir(blocks, size, Bytes(|blocks|, size), n);
    if all.None? && n == name then Some(ino) else all
  }

  /** Every lookup after a split of the last block, given the one before. */
  lemma SplitResolves(blocks: seq<Block>, c: Block, size: nat, dirSize: nat, off: nat, ino: nat, name: seq<Byte>,
                      kind: nat, n: seq<Byte>)
    requires SplitLast(blocks, c, size, off, ino, name, kind)
    ensures var now := blocks[|blocks| - 1 := c];
      && AllTiled(now, size)
      && LookupDir(now, size, dirSize, n) == SplitAnswer(blocks, size, dirSize, off, name, ino, n)
  {
    var k := |blocks| - 1;
    var b, first := blocks[k], blocks[..k];
    assert blocks == first + [b] && blocks[k := c] == first + [c];
    LookupSnoc(first, b, size, dirSize, n);
    LookupSnoc(first, c, size, dirSize, n);
    SplitFrom(b, c, 0, off, ino, name, kind, Limit(dirSize, size, k), n);
  }

  lemma SplitResolvesAll(blocks: seq<Block>, c: Block, size: nat, dirSize: nat, off: nat, ino: nat, name: seq<Byte>,
      kind: nat)
    requires SplitLast(blocks, c, size, off, ino, name, kind)
    ensures var now := blocks[|blocks| - 1 := c];
      AllTiled(now, size) && forall n: seq<Byte> ::
        LookupDir(now, size, dirSize, n) == SplitAnswer(blocks, size, dirSize, off, name, ino, n)
  {
    var now := blocks[|blocks| - 1 := c];
    forall n: seq<Byte>
      ensures LookupDir(now, size, dirSize, n) == SplitAnswer(blocks, size, dirSize, off, name, ino, n)
    {
      SplitResolves(blocks, c, size, dirSize, off, ino, name, kind, n);
    }
    SplitResolves(blocks, c, size, dirSize, off, ino, name, kind, name);
  }

  /** Creating a name by splitting a slot: every other name resolves as before, and a name that did not resolve
      now resolves to the new inode if and only if its record starts below the directory size. */
  lemma CreateResolves(blocks: seq<Block>, c: Block, size: nat, dirSize: nat, off: nat, ino: nat, name: seq<Byte>,
                       kind: nat, n: seq<Byte>)
    requires SplitLast(blocks, c, size, off, ino, name, kind)
    ensures var now := blocks[|blocks| - 1 := c];
      && (n != name ==> LookupDir(now, size, dirSize, n) == LookupDir(blocks, size, dirSize, n))
      && (LookupDir(blocks, size, dirSize, name) == None ==>
            LookupDir(now, size, dirSize, name) == if Seen(blocks, size, dirSize, off) then Some(ino) else None)
  {
    SplitResolves(blocks, c, size, dirSize, off, ino, name, kind, n);
    SplitResolves(blocks, c, size, dirSize, off, ino, name, kind, name);
    if LookupDir(blocks, size, dirSize, name) == None && Seen(blocks, size, dirSize, off) {
      var k := |blocks| - 1;
      assert blocks == blocks[..k] + [blocks[k]];
      LookupSnoc(blocks[..k], blocks[k], size, dirSize, name);
      NoneNamed(blocks[k], 0, off, Limit(dirSize, size, k), name);
    }
  }

  /** What lookup does not find is not named anywhere below the limit. */
  lemma {:induction false} NoneNamed(b: Block, o: nat, off: nat, limit: nat, name: seq<Byte>)
    requires Lookup(b, o, limit, name) == None && off < limit
    ensures !NamedUpTo(b, o, off, name)
    decreases |b| - o
  {
    if o < |b| && RecordAt(b, o) && o <= off && !Matches(b, o, name) {
      NoneNamed(b, o + RecLen(b, o), off, limit, name);
    }
  }

  /** Creating a name that exists: the old entry stays in charge exactly if it stands before the new record, the new
      record is not seen, or both name the same inode. */
  lemma CreateShadows(blocks: seq<Block>, c: Block, size: nat, dirSize: nat, off: nat, ino: nat, name: seq<Byte>,
      kind: nat)
    requires SplitLast(blocks, c, size, off, ino, name, kind)
    ensures var now, was := blocks[|blocks| - 1 := c], LookupDir(blocks, size, dirSize, name);
      LookupDir(now, size, dirSize, name) == was <==>
      Earlier(blocks, size, dirSize, off, name) || !Seen(blocks, size, dirSize, off) || was == Some(ino)
  {
    SplitResolves(blocks, c, size, dirSize, off, ino, name, kind, name);
  }

  /** Two records of 512 bytes, for two names. */
  function ShadowBlock(x: seq<Byte>, y: seq<Byte>): (b: Block)
    requires |x| == 1 == |y|
    ensures |b| == 1024
  {
    NewRecord(1, 512, x, 1) + Zeros(503) + NewRecord(2, 512, y, 1) + Zeros(503)
  }

  lemma ShadowRecords(x: seq<Byte>, y: seq<Byte>)
    requires |x| == 1 == |y| && x != y
    ensures var b := ShadowBlock(x, y);
      && RecordAt(b, 0) && RecLen(b, 0) == 512 && NameLen(b, 0) == 1 && !Matches(b, 0, y)
      && RecordAt(b, 512) && RecLen(b, 512) == 512 && Matches(b, 512, y) && Inode(b, 512) == 2
  {
    var b := ShadowBlock(x, y);
    assert b[0..0 + HEADER + |x|] == NewRecord(1, 512, x, 1);
    assert b[512..512 + HEADER + |y|] == NewRecord(2, 512, y, 1);
    RecordReads(b, 0, 1, 512, x, 1, y);
    RecordReads(b, 512, 2, 512, y, 1, y);
  }

  lemma ShadowOf(b: Block, name: seq<Byte>, ino: nat)
    requires |b| == 1024 && |name| == 1 && ino < 0x1_0000_0000
    requires RecordAt(b, 0) && RecLen(b, 0) == 512 && NameLen(b, 0) == 1 && !Matches(b, 0, name)
    requires RecordAt(b, 512) && RecLen(b, 512) == 512 && Matches(b, 512, name)
    ensures Tiled(b, 0) && CanSplit(b, 0, name) && Lookup(b, 0, 1024, name) == Some(Inode(b, 512))
    ensures Lookup(Split(b, 0, ino, name, 1), 0, 1024, name) == Some(ino)
  {
    NextRecord(b, 512, 1024, 1024, name);
    NextRecord(b, 0, 512, 1024, name);
    SplitFrom(b, Split(b, 0, ino, name, 1), 0, 0, ino, name, 1, 1024, name);
    NamedHere(b, 0, 512, name);
  }

  /** Creating the second name once more splits the record of the first, and the name then resolves to the new
      inode. */
  lemma ShadowExample(x: seq<Byte>, y: seq<Byte>, ino: nat)
    requires |x| == 1 == |y| && x != y && 2 < ino < 0x1_0000_0000
    ensures var b := ShadowBlock(x, y);
      && Tiled(b, 0) && CanSplit(b, 0, y) && Lookup(b, 0, 1024, y) == Some(2)
      && Lookup(Split(b, 0, ino, y, 1), 0, 1024, y) == Some(ino)
  {
    ShadowRecords(x, y);
    ShadowOf(ShadowBlock(x, y), y, ino);
  }

  // ---------- Growing the directory ----------

  /** A larger limit only adds names. */
  lemma {:induction false} LimitMono(b: Block, off: nat, limit: nat, more: nat, name: seq<Byte>)
    requires limit <= more && Lookup(b, off, limit, name).Some?
    ensures Lookup(b, off, more, name) == Lookup(b, off, limit, name)
    decreases |b| - off
  {
    if !Matches(b, off, name) { LimitMono(b, off + RecLen(b, off), limit, more, name); }
  }

  /** Beyond the block a limit makes no difference. */
  lemma {:induction false} LimitFull(b: Block, off: nat, limit: nat, more: nat, name: seq<Byte>)
    requires |b| <= limit && |b| <= more
    ensures Lookup(b, off, more, name) == Lookup(b, off, limit, name)
    decreases |b| - off
  {
    if off < |b| && RecordAt(b, off) && !Matches(b, off, name) {
      LimitFull(b, off + RecLen(b, off), limit, more, name);
    }
  }

  lemma LimitOf(dirSize: nat, size: nat, k: nat, n: nat)
    requires k < n && dirSize >= Bytes(n, size)
    ensures Limit(dirSize, size, k) >= size
  {
    BytesMono(k + 1, n, size);
  }

  /** Once the size covers all blocks, it does not matter how large it is. */
  lemma {:induction false} WholeDir(blocks: seq<Block>, size: nat, one: nat, two: nat, name: seq<Byte>)
    requires AllTiled(blocks, size) && one >= Bytes(|blocks|, size) && two >= Bytes(|blocks|, size)
    ensures LookupDir(blocks, size, one, name) == LookupDir(blocks, size, two, name)
  {
    if blocks != [] {
      var k := |blocks| - 1;
      BytesMono(k, |blocks|, size);
      WholeDir(blocks[..k], size, one, two, name);
      LimitOf(one, size, k, |blocks|);
      LimitOf(two, size, k, |blocks|);
      LimitFull(blocks[k], 0, Limit(one, size, k), Limit(two, size, k), name);
    }
  }

  /** A larger directory size, from within the last block on, keeps every name that resolved. */
  lemma MoreSeen(blocks: seq<Block>, size: nat, one: nat, two: nat, name: seq<Byte>)
    requires one <= two && LookupDir(blocks, size, one, name).Some? && AllTiled(blocks, size)
    requires |blocks| > 0 && one > Bytes(|blocks| - 1, size)
    ensures LookupDir(blocks, size, two, name) == LookupDir(blocks, size, one, name)
  {
    var k := |blocks| - 1;
    WholeDir(blocks[..k], size, one, two, name);
    if LookupDir(blocks[..k], size, one, name).None? {
      LimitMono(blocks[k], 0, Limit(one, size, k), Limit(two, size, k), name);
    }
  }

  /** Appending a block with one record: the directory size now covers all earlier blocks, so names hidden behind it
      come back; the new name resolves unless an earlier entry has it. */
  lemma AppendResolves(blocks: seq<Block>, size: nat, newSize: nat, ino: nat, name: seq<Byte>, kind: nat, n: seq<Byte>)
    requires AllTiled(blocks, size) && 1024 <= size < 0x1_0000 && size % 4 == 0 && |name| < 256 && ino < 0x1_0000_0000
    requires newSize > Bytes(|blocks|, size)
    ensures var now := blocks + [FreshBlock(size, ino, name, kind)];
      AllTiled(now, size) && LookupDir(now, size, newSize, n) == AppendAnswer(blocks, size, name, ino, n)
  {
    FreshReads(size, ino, name, kind, Limit(newSize, size, |blocks|), n);
    LookupSnoc(blocks, FreshBlock(size, ino, name, kind), size, newSize, n);
    WholeDir(blocks, size, newSize, Bytes(|blocks|, size), n);
  }

  lemma AppendResolvesAll(blocks: seq<Block>, size: nat, newSize: nat, ino: nat, name: seq<Byte>, kind: nat)
    requires AllTiled(blocks, size) && 1024 <= size < 0x1_0000 && size % 4 == 0 && |name| < 256 && ino < 0x1_0000_0000
    requires newSize == Bytes(|blocks|, size) + MinRec(|name|)
    ensures var now := blocks + [FreshBlock(size, ino, name, kind)];
      AllTiled(now, size) && Bytes(|blocks|, size) < newSize <= Bytes(|now|, size) &&
      forall n: seq<Byte> :: LookupDir(now, size, newSize, n) == AppendAnswer(blocks, size, name, ino, n)
  {
    var now := blocks + [FreshBlock(size, ino, name, kind)];
    forall n: seq<Byte> ensures LookupDir(now, size, newSize, n) == AppendAnswer(blocks, size, name, ino, n) {
      AppendResolves(blocks, size, newSize, ino, name, kind, n);
    }
    AppendResolves(blocks, size, newSize, ino, name, kind, name);
  }

  // ---------- Entries, seen or not ----------

  /** The inode of the first record with the name, wherever the directory size ends. */
  ghost function Entry(blocks: seq<Block>, size: nat, name: seq<Byte>): Option<nat> {
    LookupDir(blocks, size, Bytes(|blocks|, size), name)
  }

  /** Every other entry is still there, and a name that had none has one for ino. */
  ghost predicate Entered(before: seq<Block>, after: seq<Block>, size: nat, name: seq<Byte>, ino: nat) {
    && (forall n: seq<Byte> :: n != name ==> Entry(after, size, n) == Entry(before, size, n))
    && (Entry(before, size, name) == None ==> Entry(after, size, name) == Some(ino))
  }

  /** The last block with the slot at off split for the name. */
  function SplitAt(blocks: seq<Block>, off: nat, ino: nat, name: seq<Byte>, kind: nat): (now: seq<Block>)
    requires |blocks| > 0 && CanSplit(blocks[|blocks| - 1], off, name)
    ensures |now| == |blocks|
  {
    var k := |blocks| - 1;
    blocks[k := Split(blocks[k], off, ino, name, kind)]
  }

  /** The last block holds the last byte below the directory size. */
  ghost predicate InLast(blocks: seq<Block>, size: nat, dirSize: nat) {
    dirSize <= Bytes(|blocks|, size) && (|blocks| > 0 ==> dirSize > Bytes(|blocks| - 1, size))
  }

  /** Every other name that resolved still does.  If the directory size ended with the last block, nothing else
      changes and a name that did not resolve does now. */
  ghost predicate Kept(before: seq<Block>, size: nat, dirSize: nat, after: seq<Block>, newSize: nat, name: seq<Byte>,
      ino: nat) {
    var whole := dirSize == Bytes(|before|, size);
    && (forall n: seq<Byte> :: n != name && (whole || LookupDir(before, size, dirSize, n).Some?) ==>
          LookupDir(after, size, newSize, n) == LookupDir(before, size, dirSize, n))
    && (whole && LookupDir(before, size, dirSize, name) == None ==> LookupDir(after, size, newSize, name) == Some(ino))
  }

  /** A directory whose size ends with its last block hides nothing: the new name is found. */
  lemma SeenIfWhole(blocks: seq<Block>, size: nat, off: nat, name: seq<Byte>)
    requires |blocks| > 0 && AllTiled(blocks, size) && CanSplit(blocks[|blocks| - 1], off, name)
    ensures Seen(blocks, size, Bytes(|blocks|, size), off)
  {
  }

  lemma AppendKeeps(blocks: seq<Block>, size: nat, dirSize: nat, newSize: nat, ino: nat, name: seq<Byte>, kind: nat)
    requires AllTiled(blocks, size) && 1024 <= size < 0x1_0000 && size % 4 == 0 && |name| < 256 && ino < 0x1_0000_0000
    requires InLast(blocks, size, dirSize) && newSize > Bytes(|blocks|, size)
    ensures Kept(blocks, size, dirSize, blocks + [FreshBlock(size, ino, name, kind)], newSize, name, ino)
  {
    var now := blocks + [FreshBlock(size, ino, name, kind)];
    forall n: seq<Byte>
      ensures LookupDir(now, size, newSize, n) == AppendAnswer(blocks, size, name, ino, n)
      ensures var was := LookupDir(blocks, size, dirSize, n); was.Some? ==> Entry(blocks, size, n) == was
    {
      AppendResolves(blocks, size, newSize, ino, name, kind, n);
      if LookupDir(blocks, size, dirSize, n).Some? { MoreSeen(blocks, size, dirSize, Bytes(|blocks|, size), n); }
    }
  }

  lemma SplitKeepsNames(blocks: seq<Block>, c: Block, size: nat, dirSize: nat, off: nat, ino: nat, name: seq<Byte>,
      kind: nat)
    requires SplitLast(blocks, c, size, off, ino, name, kind)
    ensures Kept(blocks, size, dirSize, blocks[|blocks| - 1 := c], dirSize, name, ino)
  {
    var now := blocks[|blocks| - 1 := c];
    SeenIfWhole(blocks, size, off, name);
    forall n: seq<Byte>
      ensures n != name ==> LookupDir(now, size, dirSize, n) == LookupDir(blocks, size, dirSize, n)
    {
      CreateResolves(blocks, c, size, dirSize, off, ino, name, kind, n);
    }
    CreateResolves(blocks, c, size, dirSize, off, ino, name, kind, name);
  }

  /** All entries of a directory, block by block. */
  ghost function Listing(blocks: seq<Block>): seq<DirEntry> {
    if blocks == [] then [] else Listing(blocks[..|blocks| - 1]) + Entries(blocks[|blocks| - 1], 0)
  }

  lemma ListingSnoc(blocks: seq<Block>, b: Block)
    ensures Listing(blocks + [b]) == Listing(blocks) + Entries(b, 0)
  {
    assert (blocks + [b])[..|blocks|] == blocks;
  }

  lemma InsertedAfter(a: seq<DirEntry>, l: seq<DirEntry>, l': seq<DirEntry>, n: nat, e: DirEntry)
    requires n <= |l| && l' == l[..n] + [e] + l[n..]
    ensures Inserted(a + l, a + l', e)
  {
    var m := |a| + n;
    assert (a + l)[..m] == a + l[..n] && (a + l)[m..] == l[n..];
    assert a + l' == (a + l)[..m] + [e] + (a + l)[m..];
  }

  /** A slot split lists one entry more: this inode, type and name; every other entry keeps all three. */
  lemma SplitLists(blocks: seq<Block>, c: Block, size: nat, off: nat, ino: nat, name: seq<Byte>, kind: nat)
    requires SplitLast(blocks, c, size, off, ino, name, kind)
    ensures Inserted(Listing(blocks), Listing(blocks[|blocks| - 1 := c]), DirEntry(ino, kind % 256, name))
  {
    var k := |blocks| - 1;
    var b, first := blocks[k], blocks[..k];
    assert blocks == first + [b] && blocks[k := c] == first + [c];
    ListingSnoc(first, b);
    ListingSnoc(first, c);
    var n := SplitEntries(b, c, 0, off, ino, name, kind);
    InsertedAfter(Listing(first), Entries(b, 0), Entries(c, 0), n, DirEntry(ino, kind % 256, name));
  }

  lemma AppendLists(blocks: seq<Block>, size: nat, ino: nat, name: seq<Byte>, kind: nat)
    requires 1024 <= size < 0x1_0000 && size % 4 == 0 && |name| < 256 && ino < 0x1_0000_0000
    ensures Inserted(Listing(blocks), Listing(blocks + [FreshBlock(size, ino, name, kind)]),
                     DirEntry(ino, kind % 256, name))
  {
    var e := DirEntry(ino, kind % 256, name);
    FreshEntries(size, ino, name, kind);
    ListingSnoc(blocks, FreshBlock(size, ino, name, kind));
    assert [e] == [][..0] + [e] + [][0..];
    InsertedAfter(Listing(blocks), [], [e], 0, e);
    assert Listing(blocks) + [] == Listing(blocks);
  }

  lemma SplitEnters(blocks: seq<Block>, c: Block, size: nat, off: nat, ino: nat, name: seq<Byte>, kind: nat)
    requires SplitLast(blocks, c, size, off, ino, name, kind)
    ensures Entered(blocks, blocks[|blocks| - 1 := c], size, name, ino)
  {
    var now, whole := blocks[|blocks| - 1 := c], Bytes(|blocks|, size);
    SeenIfWhole(blocks, size, off, name);
    forall n: seq<Byte> ensures n != name ==> Entry(now, size, n) == Entry(blocks, size, n) {
      CreateResolves(blocks, c, size, whole, off, ino, name, kind, n);
    }
    CreateResolves(blocks, c, size, whole, off, ino, name, kind, name);
  }

  lemma AppendEnters(blocks: seq<Block>, size: nat, ino: nat, name: seq<Byte>, kind: nat)
    requires AllTiled(blocks, size) && 1024 <= size < 0x1_0000 && size % 4 == 0 && |name| < 256 && ino < 0x1_0000_0000
    ensures Entered(blocks, blocks + [FreshBlock(size, ino, name, kind)], size, name, ino)
  {
    var now := blocks + [FreshBlock(size, ino, name, kind)];
    forall n: seq<Byte> ensures Entry(now, size, n) == AppendAnswer(blocks, size, name, ino, n) {
      AppendResolves(blocks, size, Bytes(|now|, size), ino, name, kind, n);
    }
  }

  // ---------- Inodes ----------

  /** Clear bits of an inode bitmap. */
  function ClearBits(bits: seq<bool>): nat {
    if bits == [] then 0 else (if bits[0] then 0 else 1) + ClearBits(bits[1..])
  }

  lemma {:induction false} ClearBitsSet(bits: seq<bool>, i: nat)
    requires i < |bits| && !bits[i]
    ensures ClearBits(bits) == ClearBits(bits[i := true]) + 1
  {
    if i > 0 {
      ClearBitsSet(bits[1..], i - 1);
      assert bits[i := true][1..] == bits[1..][i - 1 := true];
    } else {
      assert bits[0 := true][1..] == bits[1..];
    }
  }

  lemma {:induction false} NoClearBits(bits: seq<bool>)
    requires forall i :: 0 <= i < |bits| ==> bits[i]
    ensures ClearBits(bits) == 0
  {
    if bits != [] {
      forall i | 0 <= i < |bits[1..]| ensures bits[1..][i] { assert bits[1..][i] == bits[i + 1]; }
      NoClearBits(bits[1..]);
    }
  }

  /** Inode ino is bit i of group g; it was clear, is set now, and no other bit changed. */
  ghost predicate Took(ino: nat, g: nat, i: nat, perGroup: nat, before: seq<seq<bool>>, after: seq<seq<bool>>) {
    && g < |before| && i < perGroup && i < |before[g]| && ino == g * perGroup + i + 1
    && !before[g][i] && after == before[g := before[g][i := true]]
  }

  /** A group without an inode to give: its count says so, or its bitmap does. */
  ghost predicate Exhausted(bits: seq<bool>, count: nat) {
    count == 0 || forall i :: 0 <= i < |bits| ==> bits[i]
  }

  class Volume {
    const perGroup: nat
    var bitmaps: seq<seq<bool>>
    var freeCounts: seq<nat>

    ghost predicate Valid()
      reads this
    {
      && perGroup > 0 && |freeCounts| == |bitmaps|
      && forall g :: 0 <= g < |bitmaps| ==> |bitmaps[g]| == perGroup
    }

    /** Each group counts its clear bits. */
    ghost predicate Exact()
      reads this
    {
      |freeCounts| == |bitmaps| && forall g :: 0 <= g < |bitmaps| ==> freeCounts[g] == ClearBits(bitmaps[g])
    }

    ghost predicate NoInode()
      requires |freeCounts| == |bitmaps|
      reads this
    {
      forall g :: 0 <= g < |bitmaps| ==> Exhausted(bitmaps[g], freeCounts[g])
    }

    /** First clear bit of a group, perGroup if there is none. */
    method FirstClear(g: nat) returns (i: nat)
      requires Valid() && g < |bitmaps|
      ensures i <= perGroup && (i < perGroup ==> !bitmaps[g][i]) && forall j :: 0 <= j < i ==> bitmaps[g][j]
    {
      i := 0;
      while i < perGroup && bitmaps[g][i]
        invariant i <= perGroup && forall j :: 0 <= j < i ==> bitmaps[g][j]
      {
        i := i + 1;
      }
    }

    /** Sets a clear bit and lowers the count of its group. */
    method Take(g: nat, i: nat) returns (ino: nat)
      requires Valid() && g < |bitmaps| && i < perGroup && !bitmaps[g][i] && freeCounts[g] > 0
      modifies this`bitmaps, this`freeCounts
      ensures Valid() && (old(Exact()) ==> Exact()) && Took(ino, g, i, perGroup, old(bitmaps), bitmaps)
      ensures freeCounts == old(freeCounts)[g := old(freeCounts)[g] - 1]
    {
      ClearBitsSet(bitmaps[g], i);
      bitmaps := bitmaps[g := bitmaps[g][i := true]];
      freeCounts := freeCounts[g := freeCounts[g] - 1];
      ino := g * perGroup + i + 1;
    }

    /** ext2_alloc_inode: an inode that was not in use, or 0 when no group has one; a group that claims free inodes
        but has none is passed over. */
    method AllocInode() returns (ino: nat, ghost g: nat, ghost i: nat)
      requires Valid()
      modifies this`bitmaps, this`freeCounts
      ensures Valid() && (old(Exact()) ==> Exact())
      ensures ino == 0 <==> old(NoInode())
      ensures ino == 0 ==> unchanged(this)
      ensures ino != 0 ==>
        Took(ino, g, i, perGroup, old(bitmaps), bitmaps) && g < |old(freeCounts)| && old(freeCounts)[g] > 0
      ensures ino != 0 ==> freeCounts == old(freeCounts)[g := old(freeCounts)[g] - 1]
      ensures ino != 0 ==>
        && (forall x :: 0 <= x < g ==> Exhausted(old(bitmaps)[x], old(freeCounts)[x]))
        && (forall j :: 0 <= j < i ==> old(bitmaps)[g][j])
    {
      var group := 0;
      while group < |bitmaps|
        invariant group <= |bitmaps| && unchanged(this)
        invariant forall x :: 0 <= x < group ==> Exhausted(bitmaps[x], freeCounts[x])
      {
        if freeCounts[group] > 0 {
          var bit := FirstClear(group);
          if bit < perGroup {
            assert !Exhausted(bitmaps[group], freeCounts[group]);
            ino := Take(group, bit);
            g, i := group, bit;
            return;
          }
        }
        group := group + 1;
      }
      ino, g, i := 0, 0, 0;
    }

    /** ext2_free_inode. */
    method FreeInode(ino: nat)
      requires Valid()
      modifies this`bitmaps, this`freeCounts
      ensures Valid()
      ensures ino == 0 || (ino - 1) / perGroup >= |old(bitmaps)| ==> unchanged(this)
      ensures ino > 0 && (ino - 1) / perGroup < |old(bitmaps)| ==>
        var g, i := (ino - 1) / perGroup, (ino - 1) % perGroup;
        && bitmaps == old(bitmaps)[g := old(bitmaps)[g][i := false]]
        && freeCounts == old(freeCounts)[g := old(freeCounts)[g] + 1]
    {
      if ino == 0 { return; }
      var g, i := (ino - 1) / perGroup, (ino - 1) % perGroup;
      if g >= |bitmaps| { return; }
      bitmaps := bitmaps[g := bitmaps[g][i := false]];
      freeCounts := freeCounts[g := freeCounts[g] + 1];
    }

    /** Freeing an inode just allocated undoes the allocation. */
    method Undo(ino: nat, ghost g: nat, ghost i: nat, ghost before: seq<seq<bool>>, ghost counts: seq<nat>)
      requires Valid() && Took(ino, g, i, perGroup, before, bitmaps)
      requires |counts| == |before| && counts[g] > 0 && freeCounts == counts[g := counts[g] - 1]
      modifies this`bitmaps, this`freeCounts
      ensures Valid() && bitmaps == before && freeCounts == counts
    {
      DivIs(ino - 1, perGroup, g, i);
      FreeInode(ino);
      assert bitmaps[g] == before[g];
    }
  }

  /** No record that starts before end has room for a record with this name behind it. */
  ghost predicate NoRoomBefore(b: Block, end: nat, name: seq<Byte>) {
    forall o :: 0 <= o < end && Boundary(b, 0, o) ==> !CanSplit(b, o, name)
  }

  lemma {:induction false} NoneBetween(b: Block, s: nat, off: nat, o: nat)
    requires Boundary(b, s, off) && Boundary(b, s, o) && off < |b| && RecordAt(b, off)
    requires off <= o < off + RecLen(b, off)
    ensures o == off
    decreases |b| - s
  {
    if s != off {
      NoneBetween(b, s + RecLen(b, s), off, o);
    } else if o != off {
      BoundaryAfter(b, s + RecLen(b, s), o);
      assert false;
    }
  }

  lemma NoRoomStep(b: Block, off: nat, next: nat, name: seq<Byte>)
    requires Boundary(b, 0, off) && off < |b| && RecordAt(b, off) && next == off + RecLen(b, off)
    requires NoRoomBefore(b, off, name) && !CanSplit(b, off, name)
    ensures NoRoomBefore(b, next, name)
  {
    forall o | 0 <= o < next && Boundary(b, 0, o) ensures !CanSplit(b, o, name) {
      if o >= off { NoneBetween(b, 0, off, o); }
    }
  }

  /** The last block has a slot, and off is the first. */
  ghost predicate FirstSlot(blocks: seq<Block>, name: seq<Byte>, off: nat) {
    && |blocks| > 0 && Boundary(blocks[|blocks| - 1], 0, off) && CanSplit(blocks[|blocks| - 1], off, name)
    && NoRoomBefore(blocks[|blocks| - 1], off, name)
  }

  ghost predicate HasSlot(blocks: seq<Block>, name: seq<Byte>) {
    |blocks| > 0 && !NoRoomBefore(blocks[|blocks| - 1], |blocks[|blocks| - 1]|, name)
  }

  /** Only the first EXT2_NDIR_BLOCKS blocks of a directory are direct. */
  const DIRECT: nat := 12

  class Directory {
    const size: nat
    var blocks: seq<Block>
    var dirSize: nat

    ghost predicate Valid()
      reads this
    {
      && size % 4 == 0 && 1024 <= size < 0x1_0000 && AllTiled(blocks, size) && |blocks| <= DIRECT
      && InLast(blocks, size, dirSize)
    }

    /** The directory size ends with the last block. */
    ghost predicate Whole()
      reads this
    {
      dirSize == Bytes(|blocks|, size)
    }

    ghost function Resolve(name: seq<Byte>): Option<nat>
      reads this
    {
      LookupDir(blocks, size, dirSize, name)
    }

    /** A directory as ext2_create makes it: no block yet. */
    constructor (blockSize: nat)
      requires blockSize % 4 == 0 && 1024 <= blockSize < 0x1_0000
      ensures Valid() && Whole() && size == blockSize && forall n: seq<Byte> :: Resolve(n) == None
    {
      size, blocks, dirSize := blockSize, [], 0;
    }

    /** ext2_dir_lookup. */
    method Find(name: seq<Byte>) returns (r: Option<nat>)
      requires Valid()
      ensures r == LookupDir(blocks, size, dirSize, name)
    {
      var k := 0;
      while k < |blocks|
        invariant 0 <= k <= |blocks| && LookupDir(blocks[..k], size, dirSize, name) == None
      {
        r := FindIn(blocks[k], Limit(dirSize, size, k), name);
        LookupSnoc(blocks[..k], blocks[k], size, dirSize, name);
        assert blocks[..k] + [blocks[k]] == blocks[..k + 1];
        k := k + 1;
        if r.Some? {
          StaysFound(blocks, k, size, dirSize, name);
          return;
        }
      }
      assert blocks[..k] == blocks;
      r := None;
    }

    method FindIn(b: Block, limit: nat, name: seq<Byte>) returns (r: Option<nat>)
      requires Tiled(b, 0)
      ensures r == Lookup(b, 0, limit, name)
    {
      var off := 0;
      while off < |b|
        invariant off <= |b| && Tiled(b, off) && Lookup(b, 0, limit, name) == Lookup(b, off, limit, name)
      {
        if off >= limit { return None; }
        if Matches(b, off, name) { return Some(Inode(b, off)); }
        off := off + RecLen(b, off);
      }
      r := None;
    }

    /** The first record of the block with room for another behind it. */
    method FindSlot(b: Block, name: seq<Byte>) returns (found: bool, off: nat)
      requires Tiled(b, 0)
      ensures found ==> Boundary(b, 0, off) && CanSplit(b, off, name) && NoRoomBefore(b, off, name)
      ensures !found ==> NoRoomBefore(b, |b|, name)
    {
      off := 0;
      while off < |b|
        invariant off <= |b| && Tiled(b, off) && Boundary(b, 0, off) && NoRoomBefore(b, off, name)
      {
        if RecLen(b, off) >= MinRec(NameLen(b, off)) + MinRec(|name|) { return true, off; }
        BoundaryStep(b, 0, off);
        NoRoomStep(b, off, off + RecLen(b, off), name);
        off := off + RecLen(b, off);
      }
      found := false;
    }

    /** The first slot of the last block, if there is one. */
    method FindLastSlot(name: seq<Byte>) returns (found: bool, off: nat)
      requires Valid()
      ensures (found <==> HasSlot(blocks, name)) && (found ==> FirstSlot(blocks, name, off))
    {
      found, off := false, 0;
      if |blocks| == 0 { return; }
      var b := blocks[|blocks| - 1];
      found, off := FindSlot(b, name);
      if found { assert off < |b| && !NoRoomBefore(b, |b|, name); }
    }

    method SplitSlot(name: seq<Byte>, ino: nat, kind: nat, off: nat)
      requires Valid() && |name| <= 255 && ino < 0x1_0000_0000 && FirstSlot(blocks, name, off)
      modifies this`blocks
      ensures Valid() && blocks == SplitAt(old(blocks), off, ino, name, kind)
      ensures Entered(old(blocks), blocks, size, name, ino)
      ensures Inserted(Listing(old(blocks)), Listing(blocks), DirEntry(ino, kind % 256, name))
      ensures Kept(old(blocks), size, dirSize, blocks, dirSize, name, ino)
      ensures forall n: seq<Byte> ::
        LookupDir(blocks, size, dirSize, n) == SplitAnswer(old(blocks), size, dirSize, off, name, ino, n)
    {
      var k := |blocks| - 1;
      var c := Split(blocks[k], off, ino, name, kind);
      SplitResolvesAll(blocks, c, size, dirSize, off, ino, name, kind);
      SplitEnters(blocks, c, size, off, ino, name, kind);
      SplitLists(blocks, c, size, off, ino, name, kind);
      SplitKeepsNames(blocks, c, size, dirSize, off, ino, name, kind);
      blocks := blocks[k := c];
    }

    /** Appends a block that holds the record alone; the new size ends with the record, not with the block. */
    method AppendBlock(name: seq<Byte>, ino: nat, kind: nat)
      requires Valid() && |name| <= 255 && ino < 0x1_0000_0000 && |blocks| < DIRECT
      modifies this`blocks, this`dirSize
      ensures Valid() && dirSize == Bytes(|old(blocks)|, size) + MinRec(|name|)
      ensures blocks == old(blocks) + [FreshBlock(size, ino, name, kind)]
      ensures Entered(old(blocks), blocks, size, name, ino)
      ensures Inserted(Listing(old(blocks)), Listing(blocks), DirEntry(ino, kind % 256, name))
      ensures Kept(old(blocks), size, old(dirSize), blocks, dirSize, name, ino)
      ensures forall n: seq<Byte> ::
        LookupDir(blocks, size, dirSize, n) == AppendAnswer(old(blocks), size, name, ino, n)
    {
      var newSize := Bytes(|blocks|, size) + MinRec(|name|);
      AppendResolvesAll(blocks, size, newSize, ino, name, kind);
      AppendEnters(blocks, size, ino, name, kind);
      AppendLists(blocks, size, ino, name, kind);
      AppendKeeps(blocks, size, dirSize, newSize, ino, name, kind);
      blocks, dirSize := blocks + [FreshBlock(size, ino, name, kind)], newSize;
    }

    /** The directory part of ext2_create.  A block is there to append if `room`. */
    method Create(name: seq<Byte>, ino: nat, kind: nat, room: bool) returns (placed: bool, ghost off: nat)
      requires Valid() && |name| <= 255 && ino < 0x1_0000_0000
      modifies this`blocks, this`dirSize
      ensures Valid() && (placed <==> HasSlot(old(blocks), name) || (room && |old(blocks)| < DIRECT))
      ensures if placed then Entered(old(blocks), blocks, size, name, ino) else unchanged(this)
      ensures placed ==> Kept(old(blocks), size, old(dirSize), blocks, dirSize, name, ino)
      ensures placed ==> Inserted(Listing(old(blocks)), Listing(blocks), DirEntry(ino, kind % 256, name))
      ensures HasSlot(old(blocks), name) ==> FirstSlot(old(blocks), name, off) && dirSize == old(dirSize)
      ensures HasSlot(old(blocks), name) ==> blocks == SplitAt(old(blocks), off, ino, name, kind)
      ensures HasSlot(old(blocks), name) ==> forall n: seq<Byte> ::
        LookupDir(blocks, size, dirSize, n) == SplitAnswer(old(blocks), size, dirSize, off, name, ino, n)
      ensures placed && !HasSlot(old(blocks), name) ==>
        dirSize == Bytes(|old(blocks)|, size) + MinRec(|name|) &&
          blocks == old(blocks) + [FreshBlock(size, ino, name, kind)]
      ensures placed && !HasSlot(old(blocks), name) ==> forall n: seq<Byte> ::
        LookupDir(blocks, size, dirSize, n) == AppendAnswer(old(blocks), size, name, ino, n)
    {
      var slot;
      placed, slot := FindLastSlot(name);
      off := slot;
      if placed {
        SplitSlot(name, ino, kind, slot);
      } else if room && |blocks| < DIRECT {
        AppendBlock(name, ino, kind);
        placed := true;
      }
    }
  }

  lemma {:induction false} StaysFound(blocks: seq<Block>, k: nat, size: nat, dirSize: nat, name: seq<Byte>)
    requires k <= |blocks| && LookupDir(blocks[..k], size, dirSize, name).Some?
    ensures LookupDir(blocks, size, dirSize, name) == LookupDir(blocks[..k], size, dirSize, name)
    decreases |blocks|
  {
    if k == |blocks| {
      assert blocks[..k] == blocks;
    } else {
      var m := |blocks| - 1;
      assert blocks[..m][..k] == blocks[..k];
      StaysFound(blocks[..m], k, size, dirSize, name);
    }
  }

  lemma {:induction false} BoundaryStep(b: Block, o: nat, off: nat)
    requires Boundary(b, o, off) && off < |b| && RecordAt(b, off)
    ensures Boundary(b, o, off + RecLen(b, off))
    decreases |b| - o
  {
    if o != off {
      BoundaryAfter(b, o + RecLen(b, o), off);
      BoundaryStep(b, o + RecLen(b, o), off);
    }
  }

  /** Right after an append the directory size ends with the first record.  The next name created in that block is
      entered but not found, and found once the size covers the block: the property fails for every such pair of
      names. */
  method HiddenName(d: Directory, first: seq<Byte>, second: seq<Byte>, a: nat, b: nat) returns (r: Option<nat>)
    requires d.Valid() && |first| <= 255 && |second| <= 255 && a < 0x1_0000_0000 && b < 0x1_0000_0000 && first != second
    requires !HasSlot(d.blocks, first) && |d.blocks| < DIRECT && Entry(d.blocks, d.size, second) == None
    modifies d
    ensures d.Valid() && d.dirSize == Bytes(|old(d.blocks)|, d.size) + MinRec(|first|)
    ensures var f := FreshBlock(d.size, a, first, 1);
      CanSplit(f, 0, second) && d.blocks == old(d.blocks) + [Split(f, 0, b, second, 1)]
    ensures r == d.Resolve(second) == None && Entry(d.blocks, d.size, second) == Some(b)
  {
    var placed, _ := d.Create(first, a, 1, true);
    ghost var blocks, f := d.blocks, FreshBlock(d.size, a, first, 1);
    FreshRecord(d.size, a, first, 1, second);
    assert blocks[|blocks| - 1] == f && CanSplit(f, 0, second) && Boundary(f, 0, 0);
    assert HasSlot(blocks, second) by { assert !NoRoomBefore(f, |f|, second); }
    ghost var off;
    placed, off := d.Create(second, b, 1, true);
    OnlySlot(f, second, off);
    assert !Seen(blocks, d.size, d.dirSize, off);
    r := d.Find(second);
  }

  lemma OnlySlot(b: Block, name: seq<Byte>, off: nat)
    requires Boundary(b, 0, off) && CanSplit(b, 0, name) && NoRoomBefore(b, off, name)
    ensures off == 0
  {
    assert Boundary(b, 0, 0);
  }

  lemma InodeBound(g: nat, i: nat, perGroup: nat, groups: nat)
    requires g < groups && i < perGroup
    ensures g * perGroup + i + 1 <= groups * perGroup
  {
    MulMono(perGroup, g + 1, groups);
    assert (g + 1) * perGroup == g * perGroup + perGroup;
  }

  /** ext2_create: an inode that was not in use and an entry for it, or neither. */
  method CreateFile(v: Volume, d: Directory, name: seq<Byte>, kind: nat, room: bool) returns (ino: nat)
    requires v.Valid() && d.Valid() && |name| <= 255 && |v.bitmaps| * v.perGroup < 0x1_0000_0000
    modifies v, d
    ensures v.Valid() && d.Valid()
    ensures ino == 0 <==> old(v.NoInode()) || !(HasSlot(old(d.blocks), name) || (room && |old(d.blocks)| < DIRECT))
    ensures ino == 0 ==> unchanged(v) && unchanged(d)
    ensures ino != 0 ==> exists g: nat, i: nat ::
      Took(ino, g, i, v.perGroup, old(v.bitmaps), v.bitmaps) && g < |old(v.freeCounts)| && old(v.freeCounts)[g] > 0 &&
        v.freeCounts == old(v.freeCounts)[g := old(v.freeCounts)[g] - 1]
    ensures ino != 0 ==> Entered(old(d.blocks), d.blocks, d.size, name, ino)
    ensures ino != 0 ==> Kept(old(d.blocks), d.size, old(d.dirSize), d.blocks, d.dirSize, name, ino)
    ensures ino != 0 ==> Inserted(Listing(old(d.blocks)), Listing(d.blocks), DirEntry(ino, kind % 256, name))
  {
    ghost var g, i;
    ino, g, i := v.AllocInode();
    if ino == 0 { return; }
    InodeBound(g, i, v.perGroup, |v.bitmaps|);
    var placed;
    ghost var off;
    placed, off := d.Create(name, ino, kind, room);
    if !placed {
      v.Undo(ino, g, i, old(v.bitmaps), old(v.freeCounts));
      ino := 0;
    }
  }
}
