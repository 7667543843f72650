/**
 journal_init, journal_begin, journal_write, journal_commit, journal_rollback and journal_recover,
 with every disk image that a crash could leave behind.
 */
module Journal {
  import opened Basics
  import opened LittleEndian
  import opened JournalCodec
  import opened JournalLog

  const WORD: nat := 0x1_0000_0000
  const LONG: nat := 0x1_0000_0000_0000_0000

  function MakeWrites(homes: seq<nat>, bufs: seq<Block>): (ws: seq<Write>)
    requires |homes| == |bufs|
    ensures |ws| == |homes| && forall i :: 0 <= i < |ws| ==> ws[i] == Write(homes[i], bufs[i])
  {
    seq(|homes|, i requires 0 <= i < |homes| => Write(homes[i], bufs[i]))
  }

  ghost predicate HomesBelow(log: seq<Txn>, start: nat) {
    forall t :: t in log ==> forall w :: w in t.writes ==> w.home < start
  }

  lemma WritesBelow(homes: seq<nat>, bufs: seq<Block>, start: nat)
    requires |homes| == |bufs| && forall x :: x in homes ==> x < start
    ensures forall w :: w in MakeWrites(homes, bufs) ==> w.home < start
  {
    var ws := MakeWrites(homes, bufs);
    forall w | w in ws ensures w.home < start {
      var i :| 0 <= i < |ws| && ws[i] == w;
      assert homes[i] in homes;
    }
  }

  class Journal {
    const size: nat
    const start: nat
    const blocks: nat
    const total: nat
    var disk: Disk
    var head: nat
    var tail: nat
    var sequence: nat
    var dirty: bool
    var initialized: bool
    var active: bool
    var homes: seq<nat>
    var bufs: seq<Block>
    var capacity: nat
    /** Transactions between tail and head. */
    ghost var log: seq<Txn>
    /** Every state the disk has been in: what a crash can leave. */
    var images: seq<Disk>

    ghost predicate Shape()
      reads this
    {
      size >= 512 && 8 <= blocks < LONG - WORD && start <= WORD && start + blocks <= |disk| && sequence < LONG
    }

    /** The transaction in memory. */
    ghost predicate HandleOk()
      reads this
    {
      && |homes| == |bufs| <= capacity && DescFits(capacity, size) && capacity < WORD
      && (forall h :: h in homes ==> h < start)
    }

    ghost function Home(): Disk
      requires start <= |disk|
      reads this
    {
      disk[..start]
    }

    ghost predicate Valid()
      reads this
    {
      && Shape() && HandleOk() && 1 <= tail <= head < blocks
      && Image(disk, start, blocks, head, tail, log, Home()) && HomesBelow(log, start) && Settled(Home(), Flatten(log))
    }

    /** The head has started over behind the tail: recovery finds nothing. */
    ghost predicate Wrapped()
      reads this
    {
      Shape() && HandleOk() && head <= tail && log == [] && Image(disk, start, blocks, head, tail, [], Home())
    }

    method WriteBlock(b: nat, data: Block)
      requires b < |disk|
      modifies this`disk, this`images
      ensures disk == old(disk)[b := data] && images == old(images) + [disk]
    {
      disk := disk[b := data];
      images := images + [disk];
    }

    method WriteSuper()
      requires Shape() && head < LONG && tail < LONG
      modifies this`disk, this`images
      ensures |disk| == |old(disk)| && images == old(images) + [disk]
      ensures IsSuper(disk[start]) && DecSuper(disk[start]) == Super(head, tail, sequence, dirty)
      ensures forall p :: 0 <= p < |disk| && p != start ==> disk[p] == old(disk)[p]
    {
      Widths();
      SuperReads(Super(head, tail, sequence, dirty), size, start, blocks);
      WriteBlock(start, SuperBlock(Super(head, tail, sequence, dirty), size, start, blocks));
    }

    // ---------- Transactions in memory ----------

    method Begin(max: nat) returns (ok: bool)
      requires Valid() && max < WORD
      modifies this`active, this`homes, this`bufs, this`capacity
      ensures Valid() && ok == (initialized && !old(active))
      ensures ok ==> active && homes == [] && bufs == [] && DescFits(capacity, size)
      ensures ok ==>
        var want := if max == 0 then 1 else max; capacity == want || (capacity < want && !DescFits(capacity + 1, size))
      ensures !ok ==> unchanged(this)
    {
      if !initialized || active { return false; }
      var limit := (size - HEADER) / ENTRY;
      var want := if max == 0 then 1 else max;
      active, homes, bufs := true, [], [];
      capacity := if want > limit then limit else want;
      ok := true;
    }

    method AddBlock(block: nat, data: Block) returns (ok: bool)
      requires Valid() && block % WORD < start
      modifies this`homes, this`bufs
      ensures Valid() && ok == (initialized && active && |old(homes)| < capacity)
      ensures if ok then homes == old(homes) + [block % WORD] && bufs == old(bufs) + [data] else unchanged(this)
    {
      if !initialized || !active || |homes| >= capacity { return false; }
      homes, bufs := homes + [block % WORD], bufs + [data];
      ok := true;
    }

    method FreeTransaction()
      requires size >= HEADER
      modifies this`active, this`homes, this`bufs, this`capacity
      ensures HandleOk() && !active && homes == [] && bufs == []
      ensures (old(Valid()) ==> Valid()) && (old(Wrapped()) ==> Wrapped())
    {
      homes, bufs, capacity, active := [], [], 0, false;
    }

    /** Nothing of a rolled-back transaction reaches the disk. */
    method Rollback() returns (ok: bool)
      requires Valid()
      modifies this`active, this`homes, this`bufs, this`capacity
      ensures Valid() && ok == (initialized && old(active)) && (if ok then !active && homes == [] else unchanged(this))
    {
      if !initialized || !active { return false; }
      FreeTransaction();
      ok := true;
    }

    // ---------- Commit ----------

    /** All images since the first n are like d: same pointers, same log, home blocks h. */
    ghost predicate ImagesFrom(n: nat, h: Disk)
      reads this
    {
      AllImages(images, n, start, blocks, head, tail, log, h)
    }

    /** A write past the head; it fails past the end of the device. */
    method LogBlock(b: nat, data: Block, ghost n: nat, ghost h: Disk) returns (ok: bool)
      requires Image(disk, start, blocks, head, tail, log, h) && ImagesFrom(n, h) && start + head <= b && b != start
      modifies this`disk, this`images
      ensures Image(disk, start, blocks, head, tail, log, h) && ImagesFrom(n, h) && ok == (b < |old(disk)|)
      ensures if ok then disk == old(disk)[b := data] && images == old(images) + [disk]
        else disk == old(disk) && images == old(images)
    {
      if b >= |disk| { return false; }
      WritePastHead(disk, start, blocks, head, tail, log, h, b, data);
      WriteBlock(b, data);
      ok := true;
    }

    /** Phase 2: the data blocks. */
    method LogData(base: nat, ghost n: nat, ghost h: Disk) returns (ok: bool)
      requires head >= 1 && base == start + head < |disk| && Image(disk, start, blocks, head, tail, log, h)
      requires ImagesFrom(n, h)
      modifies this`disk, this`images
      ensures Image(disk, start, blocks, head, tail, log, h) && ImagesFrom(n, h) && old(images) <= images
      ensures |disk| == |old(disk)| && disk[base] == old(disk)[base] && (ok <==> base + 1 + |bufs| <= |disk|)
      ensures start < |disk| && disk[start] == old(disk)[start] && Under(images, |old(images)|, start, disk[start])
      ensures ok ==>
        |images| == |old(images)| + |bufs| && forall k :: 0 <= k < |bufs| ==> disk[base + 1 + k] == bufs[k]
    {
      var i := 0;
      while i < |bufs|
        invariant i <= |bufs| && |disk| == |old(disk)| && disk[base] == old(disk)[base] && base + 1 + i <= |disk|
        invariant Image(disk, start, blocks, head, tail, log, h) && ImagesFrom(n, h) && old(images) <= images
        invariant |images| == |old(images)| + i
        invariant start < |disk| && disk[start] == old(disk)[start] && Under(images, |old(images)|, start, disk[start])
        invariant forall k :: 0 <= k < i ==> disk[base + 1 + k] == bufs[k]
      {
        ok := LogBlock(base + 1 + i, bufs[i], n, h);
        if !ok { return; }
        i := i + 1;
      }
      ok := true;
    }

    method MakeDesc(t: Txn) returns (desc: Block)
      requires DescFits(|t.writes|, size) && |t.writes| < WORD && t.id < LONG
      requires forall w :: w in t.writes ==> w.home < WORD
      ensures Describes(desc, t.writes) && RecordId(desc) == t.id && |desc| == size
    {
      Widths();
      DescReads(t, size);
      desc := DescBlock(t, size);
    }

    method MakeCommit(id: nat, junk: seq<Byte>) returns (commit: Block)
      requires id < LONG
      ensures IsCommit(commit) && RecordId(commit) == id && |commit| == 32 + |junk|
    {
      Widths();
      CommitReads(id, junk);
      commit := CommitBlock(id, junk);
    }

    method LogRecords(base: nat, desc: Block, commit: Block, ghost n: nat, ghost h: Disk) returns (ok: bool)
      requires head >= 1 && base == start + head < |disk|
      requires Image(disk, start, blocks, head, tail, log, h) && ImagesFrom(n, h)
      modifies this`disk, this`images
      ensures Image(disk, start, blocks, head, tail, log, h) && ImagesFrom(n, h) && old(images) <= images
      ensures |disk| == |old(disk)| && (ok <==> base + |bufs| + 2 <= |disk|)
      ensures start < |disk| && disk[start] == old(disk)[start] && Under(images, |old(images)|, start, disk[start])
      ensures ok ==> |images| == |old(images)| + |bufs| + 2 && disk[base] == desc && disk[base + 1 + |bufs|] == commit
      ensures ok ==> forall k :: 0 <= k < |bufs| ==> disk[base + 1 + k] == bufs[k]
    {
      ok := LogBlock(base, desc, n, h);
      ok := LogData(base, n, h);
      if !ok { return; }
      ok := LogBlock(base + 1 + |bufs|, commit, n, h);
    }

    /** Phases 1 to 3: descriptor, data and commit record, all past the head. */
    method LogTransaction(t: Txn, junk: seq<Byte>, ghost n: nat, ghost h: Disk) returns (ok: bool)
      requires head >= 1 && |t.writes| == |bufs| && (forall i :: 0 <= i < |bufs| ==> t.writes[i].data == bufs[i])
      requires DescFits(|bufs|, size) && |bufs| < WORD && (forall w :: w in t.writes ==> w.home < WORD) && t.id < LONG
      requires start + head < |disk| && Image(disk, start, blocks, head, tail, log, h) && ImagesFrom(n, h)
      modifies this`disk, this`images
      ensures |disk| == |old(disk)| && Image(disk, start, blocks, head, tail, log, h) && ImagesFrom(n, h)
      ensures old(images) <= images && (ok <==> start + head + |bufs| + 2 <= |disk|)
      ensures start < |disk| && disk[start] == old(disk)[start] && Under(images, |old(images)|, start, disk[start])
      ensures ok ==> Holds(disk, start, head, t) && |images| == |old(images)| + |bufs| + 2
    {
      var desc := MakeDesc(t);
      var commit := MakeCommit(t.id, junk);
      ok := LogRecords(start + head, desc, commit, n, h);
      if ok { HoldsNow(disk, start, head, t, desc, commit); }
    }

    /** One checkpoint write. */
    method CheckpointStep(t: Txn, i: nat, i': nat, ghost h: Disk)
      requires i < |homes| == |bufs| && i' == i + 1 && t.writes == MakeWrites(homes, bufs) && homes[i] < start
      requires Image(disk, start, blocks, head, tail, log, Apply(h, t.writes[..i], 0)) && Holds(disk, start, head, t)
      modifies this`disk, this`images
      ensures |disk| == |old(disk)| && images == old(images) + [disk]
      ensures start < |disk| && disk[start] == old(disk)[start]
      ensures Image(disk, start, blocks, head, tail, log, Apply(h, t.writes[..i'], 0)) && Holds(disk, start, head, t)
    {
      ApplyNext(h, t.writes, i, 0);
      WriteHome(disk, start, blocks, head, tail, log, Apply(h, t.writes[..i], 0), t.writes[i]);
      HoldsFrame(disk, disk[homes[i] := bufs[i]], start, head, t);
      WriteBlock(homes[i], bufs[i]);
    }

    /** Images from n on: after 1, 2, ... checkpoint writes. */
    ghost predicate TornFrom(n: nat, i: nat, h: Disk, ws: seq<Write>)
      requires i <= |ws|
      reads this
    {
      |images| == n + i && forall m ::
        n <= m < n + i ==> Image(images[m], start, blocks, head, tail, log, Apply(h, ws[..m - n + 1], 0))
    }

    method CheckpointTurn(t: Txn, i: nat, i': nat, ghost n: nat, ghost h: Disk)
      requires i < |homes| == |bufs| && i' == i + 1 && t.writes == MakeWrites(homes, bufs) && homes[i] < start
      requires Image(disk, start, blocks, head, tail, log, Apply(h, t.writes[..i], 0)) && Holds(disk, start, head, t)
      requires TornFrom(n, i, h, t.writes)
      modifies this`disk, this`images
      ensures |disk| == |old(disk)| && images == old(images) + [disk] && TornFrom(n, i', h, t.writes)
      ensures start < |disk| && disk[start] == old(disk)[start]
      ensures Image(disk, start, blocks, head, tail, log, Apply(h, t.writes[..i'], 0)) && Holds(disk, start, head, t)
    {
      CheckpointStep(t, i, i', h);
    }

    /** Phase 4: the blocks to their homes, one at a time. */
    method CheckpointLoop(t: Txn, k: nat, ghost n: nat, ghost h: Disk)
      requires k == |homes| == |bufs| && t.writes == MakeWrites(homes, bufs)
      requires (forall i :: 0 <= i < |homes| ==> homes[i] < start)
      requires Image(disk, start, blocks, head, tail, log, Apply(h, t.writes[..0], 0)) && Holds(disk, start, head, t)
      requires TornFrom(n, 0, h, t.writes)
      modifies this`disk, this`images
      ensures |disk| == |old(disk)| && old(images) <= images && TornFrom(n, k, h, t.writes)
      ensures start < |disk| && disk[start] == old(disk)[start] && Under(images, |old(images)|, start, disk[start])
      ensures Image(disk, start, blocks, head, tail, log, Apply(h, t.writes[..k], 0)) && Holds(disk, start, head, t)
    {
      var i := 0;
      while i != k
        invariant i <= k && |disk| == |old(disk)| && old(images) <= images && TornFrom(n, i, h, t.writes)
        invariant start < |disk| && disk[start] == old(disk)[start] && Under(images, |old(images)|, start, disk[start])
        invariant Image(disk, start, blocks, head, tail, log, Apply(h, t.writes[..i], 0)) && Holds(disk, start, head, t)
        decreases k - i
      {
        var i' := i + 1;
        CheckpointTurn(t, i, i', n, h);
        i := i';
      }
    }

    method Checkpoint(t: Txn, ghost n: nat, ghost h: Disk)
      requires |homes| == |bufs| && t.writes == MakeWrites(homes, bufs) && (forall x :: x in homes ==> x < start)
      requires Image(disk, start, blocks, head, tail, log, h) && Holds(disk, start, head, t) && n == |images|
      modifies this`disk, this`images
      ensures |disk| == |old(disk)| && Image(disk, start, blocks, head, tail, log, Apply(h, t.writes, 0))
      ensures Holds(disk, start, head, t)
      ensures TornFrom(n, |homes|, h, t.writes) && old(images) <= images
      ensures start < |disk| && disk[start] == old(disk)[start] && Under(images, |old(images)|, start, disk[start])
    {
      assert t.writes[..|homes|] == t.writes && t.writes[..0] == [];
      assert forall i :: 0 <= i < |homes| ==> homes[i] in homes;
      CheckpointLoop(t, |homes|, n, h);
    }

    /** The pointers onto the disk: home blocks and log are as they were. */
    method SyncSuper(ghost h: Disk)
      requires Shape() && (log != [] ==> 1 <= tail) && head < LONG && tail < LONG
      requires disk[..start] == h && Stored(disk, start, tail, log, head)
      modifies this`disk, this`images
      ensures Shape() && |disk| == |old(disk)| && images == old(images) + [disk]
      ensures Image(disk, start, blocks, head, tail, log, h)
      ensures DecSuper(disk[start]) == Super(head, tail, sequence, dirty)
    {
      ghost var d := disk;
      WriteSuper();
      WriteSuperImage(d, disk, start, blocks, head, tail, log, h);
    }

    /** The oldest transactions are dropped while the head, at next, is too far ahead of the tail.  They are those of
        all, the last of which starts at last. */
    method Evict(next: nat, ghost all: seq<Txn>, ghost last: nat)
      requires blocks >= 8 && 1 <= tail <= last < blocks && all != [] && Encoded(disk, start, tail, all, next)
      requires next == last + |all[|all| - 1].writes| + 2
      modifies this`tail
      ensures next < tail + blocks - 1 && (next < blocks ==> tail == old(tail)) && (tail < blocks || tail == next)
      ensures 1 <= tail <= next && tail == TailAfter(old(tail), next, blocks, all)
    {
      ghost var rest := all;
      while next >= tail + (blocks - 1)
        invariant Evicting(disk, start, blocks, old(tail), tail, next, last, all, rest)
        decreases next + 1 - tail
      {
        EvictStep(disk, start, blocks, old(tail), tail, next, last, all, rest);
        var whole := start + tail < |disk| && IsDesc(disk[start + tail]);
        tail := tail + if whole then DescCount(disk[start + tail]) + 2 else 1;
        rest := rest[1..];
      }
      EncodedLength(disk, start, tail, rest, next);
    }

    /** advance_head without its write: the pointers once transaction t is in.  Past the end of the area the head starts
        over, and what recovery would scan, from tail to head, is empty. */
    method AdvanceHead(t: Txn, ghost h: Disk)
      requires Shape() && 1 <= tail <= head < blocks && start + head + |t.writes| + 2 <= |disk| && |t.writes| < WORD
      requires Image(disk, start, blocks, head, tail, log, h) && Holds(disk, start, head, t)
      modifies this`head, this`tail, this`log
      ensures Shape() && head < LONG && tail < LONG && (log != [] ==> 1 <= tail)
      ensures disk[..start] == h && Stored(disk, start, tail, log, head)
      ensures Moved(blocks, t, old(head), old(tail), old(log), head, tail, log)
    {
      assert Encoded(disk, start, tail, log, head);
      EncodedSnoc(disk, start, tail, log, head, t);
      var next := head + |t.writes| + 2;
      Evict(next, log + [t], head);
      log := log + [t];
      head := next;
      if head >= blocks {
        head := head - blocks;
        if tail >= blocks { tail := tail - blocks; }
        log := [];
      }
    }

    /** Phase 5: the pointers past the new transaction, then clean. */
    method Advance(t: Txn, ghost n: nat, ghost h: Disk)
      requires Shape() && 1 <= tail <= head < blocks && start + head + |t.writes| + 2 <= |disk| && |t.writes| < WORD
      requires n == |images| && dirty
      requires Image(disk, start, blocks, head, tail, log, h) && Holds(disk, start, head, t)
      modifies this`head, this`tail, this`dirty, this`disk, this`images, this`log
      ensures Shape() && |disk| == |old(disk)| && !dirty && old(images) <= images && |images| == n + 2
      ensures Image(disk, start, blocks, head, tail, log, h) && ImagesFrom(n, h)
      ensures images[n + 1] == disk && DecSuper(disk[start]).sequence == sequence
      ensures Flagged(images[n], start, true) && Flagged(disk, start, false)
      ensures Moved(blocks, t, old(head), old(tail), old(log), head, tail, log)
    {
      AdvanceHead(t, h);
      SyncSuper(h);
      dirty := false;
      SyncSuper(h);
    }

    /** The superblock says dirty, pointers as they were. */
    method MarkDirty(ghost n: nat, ghost h: Disk)
      requires Shape() && 1 <= tail <= head < blocks && Image(disk, start, blocks, head, tail, log, h) && n == |images|
      modifies this`dirty, this`disk, this`images
      ensures Shape() && |disk| == |old(disk)| && Image(disk, start, blocks, head, tail, log, h) && ImagesFrom(n, h)
      ensures images == old(images) + [disk] && dirty && Flagged(disk, start, true)
    {
      dirty := true;
      SyncSuper(h);
    }

    /** Phases 0 to 3.  Fails exactly if the records reach past the end of the device. */
    method CommitToJournal(t: Txn, junk: seq<Byte>, ghost n: nat, ghost h: Disk) returns (ok: bool)
      requires Shape() && 1 <= tail <= head < blocks && |homes| == |bufs| && t.writes == MakeWrites(homes, bufs)
      requires DescFits(|homes|, size) && |homes| < WORD && (forall x :: x in homes ==> x < start) && t.id < LONG
      requires Image(disk, start, blocks, head, tail, log, h) && n == |images|
      modifies this`dirty, this`disk, this`images
      ensures Shape() && |disk| == |old(disk)| && Image(disk, start, blocks, head, tail, log, h)
      ensures ImagesFrom(n, h) && old(images) < images && (ok <==> start + head + |homes| + 2 <= |disk|)
      ensures ok ==> Holds(disk, start, head, t) && |images| == n + |homes| + 3
      ensures dirty && Flagged(disk, start, true) && Under(images, n, start, disk[start])
    {
      MarkDirty(n, h);
      WritesBelow(homes, bufs, start);
      ok := LogTransaction(t, junk, n, h);
    }

    /** Phases 4 and 5. */
    method FinishCommit(t: Txn, ghost n: nat, ghost n1: nat, ghost h: Disk)
      requires Shape() && 1 <= tail <= head < blocks && |homes| == |bufs| && t.writes == MakeWrites(homes, bufs)
      requires |homes| < WORD && (forall x :: x in homes ==> x < start) && start + head + |homes| + 2 <= |disk|
      requires Image(disk, start, blocks, head, tail, log, h) && Holds(disk, start, head, t)
      requires ImagesFrom(n, h) && |images| == n1 == n + |homes| + 3
      requires dirty && Flagged(disk, start, true) && Under(images, n, start, disk[start])
      modifies this`dirty, this`disk, this`images, this`head, this`tail, this`log
      ensures Shape() && |disk| == |old(disk)| && Moved(blocks, t, old(head), old(tail), old(log), head, tail, log)
      ensures Image(disk, start, blocks, head, tail, log, Apply(h, t.writes, 0))
      ensures Marked(images, n, start, true) && !dirty && DecSuper(disk[start]).sequence == sequence
      ensures CommitImages(images, start, blocks, n, t.writes, old(head), old(tail), old(log), head, tail, log, h)
    {
      ghost var before := images;
      Checkpoint(t, n1, h);
      ghost var during, s := images, disk[start];
      Advance(t, |images|, Apply(h, t.writes, 0));
      JoinImages(before, during, images, start, blocks, n, n1, t.writes, old(head), old(tail), old(log), head, tail,
        log, h);
      MarksJoin(before, during, images, n, start, s);
    }

    /** All phases. */
    method CommitBlocks(t: Txn, junk: seq<Byte>, ghost n: nat, ghost n1: nat, ghost h: Disk) returns (ok: bool)
      requires Shape() && 1 <= tail <= head < blocks && |homes| == |bufs| && t.writes == MakeWrites(homes, bufs)
      requires DescFits(|homes|, size) && |homes| < WORD && (forall x :: x in homes ==> x < start) && t.id < LONG
      requires Image(disk, start, blocks, head, tail, log, h) && n == |images| && n1 == n + |homes| + 3
      modifies this`dirty, this`disk, this`images, this`head, this`tail, this`log
      ensures Shape() && |disk| == |old(disk)| && (ok <==> start + old(head) + |homes| + 2 <= |disk|)
      ensures !ok ==> head == old(head) && tail == old(tail) && log == old(log) && old(images) < images
      ensures !ok ==> ImagesFrom(n, h) && Image(disk, start, blocks, head, tail, log, h)
      ensures ok ==> Moved(blocks, t, old(head), old(tail), old(log), head, tail, log)
      ensures ok ==> Image(disk, start, blocks, head, tail, log, Apply(h, t.writes, 0))
      ensures Marked(images, n, start, ok) && dirty == !ok && (ok ==> DecSuper(disk[start]).sequence == sequence)
      ensures ok ==>
        CommitImages(images, start, blocks, n, t.writes, old(head), old(tail), old(log), head, tail, log, h)
    {
      ok := CommitToJournal(t, junk, n, h);
      if ok {
        FinishCommit(t, n, n1, h);
      } else {
        UnderMarks(images, n, start, disk[start]);
      }
    }

    method CommitFull(junk: seq<Byte>) returns (ok: bool, ghost t: Txn)
      requires Valid()
      modifies this`dirty, this`disk, this`images, this`head, this`tail, this`log, this`sequence
      ensures t == Txn(old(sequence), MakeWrites(homes, bufs)) && |disk| == |old(disk)|
      ensures sequence == (old(sequence) + 1) % LONG && (ok ==> DecSuper(disk[start]).sequence == sequence)
      ensures (ok <==> start + old(head) + |homes| + 2 <= |disk|) && (Valid() || (ok && Wrapped()))
      ensures Committed(ok, t, images, |old(images)|, start, blocks, old(Home()), old(head), old(tail), old(log),
                        Home(), head, tail, log)
    {
      var txn := Txn(sequence, MakeWrites(homes, bufs));
      sequence := (sequence + 1) % LONG;
      t := txn;
      ghost var h := Home();
      ok := CommitBlocks(txn, junk, |images|, |images| + |homes| + 3, h);
      if ok {
        CheckpointSettles(h, Flatten(old(log)), txn.writes);
        FlattenSnoc(old(log), txn);
        WritesBelow(homes, bufs, start);
      }
    }

    method CommitActive(junk: seq<Byte>) returns (ok: bool, ghost t: Txn)
      requires Valid()
      modifies this`dirty, this`disk, this`images, this`head, this`tail, this`log, this`sequence, this`active
      modifies this`homes, this`bufs, this`capacity
      ensures !active && homes == [] && t == Txn(old(sequence), MakeWrites(old(homes), old(bufs)))
      ensures |disk| == |old(disk)| && sequence == (old(sequence) + 1) % LONG
      ensures (ok <==> start + old(head) + |old(homes)| + 2 <= |disk|) && (Valid() || (ok && Wrapped()))
      ensures Committed(ok, t, images, |old(images)|, start, blocks, old(Home()), old(head), old(tail), old(log),
                        Home(), head, tail, log)
    {
      ok, t := CommitFull(junk);
      FreeTransaction();
    }

    /** journal_commit. */
    method Commit(junk: seq<Byte>) returns (ok: bool, ghost t: Txn)
      requires Valid()
      modifies this`dirty, this`disk, this`images, this`head, this`tail, this`log, this`sequence, this`active
      modifies this`homes, this`bufs, this`capacity
      ensures |disk| == |old(disk)| && (Valid() || (ok && Wrapped()))
      ensures ok <==> initialized && old(active) &&
                      (old(homes) == [] || start + old(head) + |old(homes)| + 2 <= |disk|)
      ensures initialized && old(active) ==> !active && homes == []
      ensures !(initialized && old(active)) || old(homes) == [] ==>
        && disk == old(disk) && images == old(images) && log == old(log) && head == old(head) && tail == old(tail)
        && sequence == old(sequence) && dirty == old(dirty)
      ensures initialized && old(active) && old(homes) != [] ==>
        && t == Txn(old(sequence), MakeWrites(old(homes), old(bufs))) && sequence == (old(sequence) + 1) % LONG
        && Committed(ok, t, images, |old(images)|, start, blocks, old(Home()), old(head), old(tail), old(log), Home(),
                     head, tail, log)
    {
      t := Txn(0, []);
      if !initialized || !active { return false, t; }
      if |homes| == 0 {
        FreeTransaction();
        return true, t;
      }
      ok, t := CommitActive(junk);
    }

    // ---------- Recovery ----------

    /** The disk, and every image since n, still has the log, and recovery of it leaves the blocks final. */
    ghost predicate Redoing(n: nat, final: Disk)
      reads this
    {
      n <= |images| && AllMidway(images + [disk], n, |images| + 1, start, blocks, head, tail, log, final, total)
    }

    /** One entry of a descriptor: copy the block home if it is in range and its checksum is right. */
    method ReplayEntry(desc: Block, pos: nat, i: nat, i': nat, ws: seq<Write>, ghost good: bool, ghost t: Txn,
        ghost h: Disk, ghost rest: seq<Txn>, ghost end: nat, ghost n0: nat, ghost final: Disk, ghost d0: Disk)
      returns (ws': seq<Write>)
      requires i' == i + 1 && start + pos + 1 + i < |disk| && i < DescCount(desc)
      requires good ==> ReplayState(disk, start, total, desc, pos, i, ws, t, h, rest, end)
      requires good ==> Redoing(n0, final) && t in log
      requires Explained(d0, disk, start, tail, end, total)
      requires 0 < total <= start ==> Closes(d0, start, tail, end, pos, desc)
      modifies this`disk, this`images
      ensures Explained(d0, disk, start, tail, end, total)
      ensures |disk| == |old(disk)| && old(images) <= images
      ensures good ==> ReplayState(disk, start, total, desc, pos, i', ws', t, h, rest, end) && Redoing(n0, final)
    {
      var home, data := DescHome(desc, i), disk[start + pos + 1 + i];
      if good {
        ReplayStep(disk, start, total, desc, pos, i, i', ws, t, h, rest, end);
        assert t.writes[i] in t.writes && t.writes[i] == Write(home, data);
      }
      ws' := ws + [Write(home, data)];
      if InRange(home, total) && Checksum(data) == DescSum(desc, i) && home < |disk| {
        CopyExplained(d0, disk, start, tail, end, total, pos, desc, i, home, data);
        ghost var w := Write(home, data);
        if good {
          RedoStep(images, disk, disk[home := data], n0, start, blocks, head, tail, log, final, total, t, w);
        }
        WriteBlock(home, data);
      }
    }

    /** All entries of a descriptor. */
    method ReplayTxn(desc: Block, pos: nat, ghost good: bool, ghost t: Txn, ghost h: Disk, ghost rest: seq<Txn>,
        ghost end: nat, ghost n0: nat, ghost final: Disk, ghost d0: Disk)
      returns (ws: seq<Write>)
      requires start + pos + DescCount(desc) < |disk|
      requires good ==> ReplayState(disk, start, total, desc, pos, 0, [], t, h, rest, end)
      requires good ==> Redoing(n0, final) && t in log
      requires Explained(d0, disk, start, tail, end, total)
      requires 0 < total <= start ==> Closes(d0, start, tail, end, pos, desc)
      modifies this`disk, this`images
      ensures Explained(d0, disk, start, tail, end, total)
      ensures |disk| == |old(disk)| && old(images) <= images
      ensures good ==> ReplayState(disk, start, total, desc, pos, |t.writes|, ws, t, h, rest, end) && Redoing(n0, final)
    {
      ws := [];
      var i, n := 0, DescCount(desc);
      while i != n
        invariant Explained(d0, disk, start, tail, end, total)
        invariant i <= n && |disk| == |old(disk)| && old(images) <= images
        invariant good ==> ReplayState(disk, start, total, desc, pos, i, ws, t, h, rest, end) && Redoing(n0, final)
        decreases n - i
      {
        var i' := i + 1;
        ws := ReplayEntry(desc, pos, i, i', ws, good, t, h, rest, end, n0, final, d0);
        i := i';
      }
    }

    /** A committed transaction at pos: replay it. */
    method ReplayAt(pos: nat, end: nat, ghost good: bool, ghost done: seq<Txn>, ghost rest: seq<Txn>, ghost h: Disk,
        ghost n0: nat, ghost final: Disk, ghost d0: Disk)
      returns (ws: seq<Write>)
      requires start + pos < |disk| && start + pos + 1 + DescCount(disk[start + pos]) < |disk| && pos < end
      requires good ==>
        Replaying(disk, start, pos, end, log, done, rest, h, total) && HomesBelow(log, start) && rest != []
      requires good ==> Redoing(n0, final)
      requires Explained(d0, disk, start, tail, end, total) && Closes(disk, start, tail, end, pos, disk[start + pos])
      modifies this`disk, this`images
      ensures Explained(d0, disk, start, tail, end, total)
      ensures |disk| == |old(disk)| && old(images) <= images && (good ==> ws == rest[0].writes && Redoing(n0, final))
      ensures good ==>
        Replaying(disk, start, pos + |rest[0].writes| + 2, end, log, done + [rest[0]], rest[1..], h, total)
    {
      ghost var t := if good then rest[0] else Txn(0, []);
      ghost var g, later := disk[..start], if good then rest[1..] else [];
      if good { ReplayBegins(disk, start, pos, end, log, done, rest, h, total); }
      var desc := disk[start + pos];
      if 0 < total <= start { ClosesKept(d0, disk, start, tail, end, total, pos, desc); }
      ws := ReplayTxn(desc, pos, good, t, g, later, end, n0, final, d0);
      if good { ReplayEnds(disk, start, pos, end, log, done, rest, h, total, desc, ws, g); }
    }

    /** One look at the journal area: skip a block, stop, skip an uncommitted transaction or replay a committed one. */
    method ScanStep(pos: nat, end: nat, parsed: seq<seq<Write>>, ghost good: bool, ghost done: seq<Txn>,
        ghost rest: seq<Txn>, ghost h: Disk, ghost n0: nat, ghost final: Disk, ghost d0: Disk)
      returns (pos': nat, stop: bool, parsed': seq<seq<Write>>, ghost done': seq<Txn>, ghost rest': seq<Txn>)
      requires pos < end && (good ==> HomesBelow(log, start) && Redoing(n0, final))
      requires good ==> Replaying(disk, start, pos, end, log, done, rest, h, total) && parsed == WritesOf(done)
      requires Explained(d0, disk, start, tail, end, total) && tail <= pos
      modifies this`disk, this`images
      ensures Explained(d0, disk, start, tail, end, total)
      ensures |disk| == |old(disk)| && old(images) <= images && (!stop ==> pos < pos' <= end)
      ensures good ==>
        !stop && Replaying(disk, start, pos', end, log, done', rest', h, total) && parsed' == WritesOf(done')
      ensures good ==> Redoing(n0, final)
    {
      pos', stop, parsed', done', rest' := pos, false, parsed, done, rest;
      if good { FirstRecord(disk, start, pos, rest, end); }
      // Reads past the end of the device fail.
      if start + pos >= |disk| {
        stop := true;
        return;
      }
      var desc := disk[start + pos];
      if !IsDesc(desc) {
        pos' := pos + 1;
        return;
      }
      var commitPos := pos + 1 + DescCount(desc);
      if commitPos >= end || start + commitPos >= |disk| {
        stop := true;
        return;
      }
      pos' := commitPos + 1;
      // The header pointer aliases the buffer just overwritten, so the two sequence numbers compared are one and the
      // same.
      if IsCommit(disk[start + commitPos]) {
        var ws := ReplayAt(pos, end, good, done, rest, h, n0, final, d0);
        parsed' := parsed + [ws];
        if good {
          WritesSnoc(done, rest[0]);
          done', rest' := done + [rest[0]], rest[1..];
        }
      }
    }

    /** The scan from tail to head. */
    method ScanJournal(ghost good: bool, ghost h: Disk, ghost n0: nat, ghost final: Disk)
      returns (parsed: seq<seq<Write>>)
      requires good ==> HomesBelow(log, start) && Replaying(disk, start, tail, head, log, [], log, h, total)
      requires good ==> Redoing(n0, final)
      modifies this`disk, this`images
      ensures Explained(old(disk), disk, start, tail, head, total)
      ensures |disk| == |old(disk)| && old(images) <= images && (good ==> Redoing(n0, final))
      ensures (good ==> parsed == WritesOf(log) && disk[..start] == Apply(h, Flatten(log), total))
    {
      parsed := [];
      ghost var done, rest: seq<Txn> := [], log;
      var pos, stop := tail, false;
      while pos < head && !stop
        invariant Explained(old(disk), disk, start, tail, head, total) && (stop || tail <= pos)
        invariant |disk| == |old(disk)| && old(images) <= images && (stop || pos <= head || pos == tail)
        invariant good ==> Redoing(n0, final)
        invariant good ==>
          !stop && Replaying(disk, start, pos, head, log, done, rest, h, total) && parsed == WritesOf(done)
        decreases if stop then 0 else head - pos + 1
      {
        pos, stop, parsed, done, rest := ScanStep(pos, head, parsed, good, done, rest, h, n0, final, old(disk));
      }
      if good {
        if rest != [] { EncodedLength(disk, start, pos, rest, head); }
        assert rest == [] && done == log;
      }
    }

    /** The journal is empty from here on. */
    method Reset()
      requires Shape() && head < LONG
      modifies this`disk, this`images, this`tail, this`dirty, this`log
      ensures |disk| == |old(disk)| && Shape() && Home() == old(Home()) && log == [] && !dirty
      ensures tail == head && images == old(images) + [disk] && Image(disk, start, blocks, head, head, [], Home())
      ensures forall p :: 0 <= p < |disk| && p != start ==> disk[p] == old(disk)[p]
      ensures HandleOk() && 1 <= head < blocks ==> Valid()
    {
      tail, dirty := head, false;
      log := [];
      ghost var d := disk;
      WriteSuper();
      WriteSuperImage(d, disk, start, blocks, head, tail, [], d[..start]);
    }

    /** The journal area holds the log between tail and head. */
    ghost predicate Readable()
      reads this
    {
      start <= |disk| && Image(disk, start, blocks, head, tail, log, Home()) && HomesBelow(log, start)
    }

    /** journal_recover, whatever the pointers. */
    method Recover() returns (ok: bool, parsed: seq<seq<Write>>)
      requires initialized ==> Shape() && head < LONG
      modifies this`disk, this`images, this`tail, this`dirty, this`log
      ensures ok == initialized && |disk| == |old(disk)| && (!ok ==> unchanged(this))
      ensures ok ==> log == [] && tail == head && !dirty && (HandleOk() && 1 <= head < blocks ==> Valid())
      ensures ok && old(Readable()) ==> parsed == WritesOf(old(log))
      ensures ok && old(Readable()) ==> Home() == Apply(old(Home()), Flatten(old(log)), total)
      ensures ok && old(Readable()) ==>
        RecoverImages(images, |old(images)|, start, blocks, head, old(tail), old(log), Home(), total)
      ensures ok ==> Explained(old(disk), disk[start := old(disk)[start]], start, old(tail), old(head), total)
      ensures ok && old(Valid()) ==> Home() == old(Home())
    {
      if !initialized { return false, []; }
      ghost var good := Readable();
      ghost var h := Home();
      assert [] + log == log;
      if Valid() { ReplaySettled(h, Flatten(log), total); }
      ghost var n, final := |images|, Apply(h, Flatten(log), total);
      if good { RedoNothing(images, disk, start, blocks, head, tail, log, h, total); }
      parsed := ScanJournal(good, h, n, final);
      ghost var before, d := images, disk;
      Reset();
      if good { RedoDone(before, d, disk, n, start, blocks, head, old(tail), old(log), final, total); }
      SuperExplained(old(disk), d, disk, start, old(tail), old(head), total);
      ok := true;
    }

    // ---------- Mounting ----------

    method LoadPointers()
      requires start < |disk|
      modifies this`head, this`tail, this`sequence, this`dirty
      ensures Super(head, tail, sequence, dirty) == DecSuper(disk[start])
    {
      var s := DecSuper(disk[start]);
      head, tail, sequence, dirty := s.head, s.tail, s.sequence, s.dirty;
    }

    /** A new, empty journal; block 0 of the area is its superblock. */
    method Format()
      requires start + blocks <= |disk| && start <= WORD && 8 <= blocks < LONG - WORD && size >= 512
      requires HandleOk()
      modifies this`head, this`tail, this`sequence, this`dirty, this`log, this`disk, this`images
      ensures Valid() && log == [] && head == tail == 1 && sequence == 1 && !dirty
      ensures |disk| == |old(disk)| && forall p :: 0 <= p < |disk| && p != start ==> disk[p] == old(disk)[p]
    {
      head, tail, sequence, dirty := 1, 1, 1, false;
      log := [];
      ghost var d := disk;
      WriteSuper();
      WriteSuperImage(d, disk, start, blocks, head, tail, [], d[..start]);
    }

    /** The superblock on disk says dirty. */
    ghost predicate MarkedDirty()
      requires start < |disk|
      reads this
    {
      IsSuper(disk[start]) && DecSuper(disk[start]).dirty
    }

    /** The journal found on disk, recovered if it is dirty. */
    method Resume() returns (ok: bool)
      requires start + blocks <= |disk| && start <= WORD && 8 <= blocks < LONG - WORD && size >= 512
      requires IsSuper(disk[start]) && HandleOk()
      modifies this`disk, this`images, this`head, this`tail, this`sequence, this`dirty, this`log
      ensures |disk| == |old(disk)| && (ok <==> old(MarkedDirty()) ==> initialized)
      ensures !ok || !old(MarkedDirty()) ==> disk == old(disk)
      ensures ok && !old(MarkedDirty()) ==> Super(head, tail, sequence, dirty) == DecSuper(disk[start])
      ensures ok && old(MarkedDirty()) ==> var s := DecSuper(old(disk)[start]);
        && Super(head, tail, sequence, dirty) == Super(s.head, s.head, s.sequence, false) && log == []
        && Explained(old(disk), disk[start := old(disk)[start]], start, s.tail, s.head, total)
    {
      LoadPointers();
      Widths();
      SuperBounds(disk[start]);
      ok := true;
      if dirty {
        var recovered, _ := Recover();
        ok := recovered;
      }
    }

    /** journal_init.  At boot a dirty journal never mounts: recovery is tried before the flag it tests is set. */
    method Init() returns (ok: bool)
      requires start + blocks <= |disk| && start <= WORD && blocks < LONG - WORD
      modifies this
      ensures |disk| == |old(disk)| && (!ok ==> disk == old(disk) && initialized == old(initialized))
      ensures ok <==> blocks >= 8 && size >= 512 && (old(MarkedDirty()) ==> old(initialized))
      ensures ok ==> initialized && !active && homes == []
      ensures ok && IsSuper(old(disk)[start]) && !old(MarkedDirty()) ==>
        disk == old(disk) && Super(head, tail, sequence, dirty) == DecSuper(disk[start])
      ensures ok && old(MarkedDirty()) ==> var s := DecSuper(old(disk)[start]);
        && Super(head, tail, sequence, dirty) == Super(s.head, s.head, s.sequence, false) && log == []
        && Explained(old(disk), disk[start := old(disk)[start]], start, s.tail, s.head, total)
      ensures ok && !IsSuper(old(disk)[start]) ==>
        && Valid() && log == [] && head == tail == 1 && sequence == 1 && !dirty
        && forall p :: 0 <= p < |disk| && p != start ==> disk[p] == old(disk)[p]
    {
      if blocks < 8 || size < 512 { return false; }
      active, homes, bufs, capacity := false, [], [], 0;
      if IsSuper(disk[start]) {
        ok := Resume();
        if !ok { return; }
      } else {
        Format();
      }
      initialized := true;
      ok := true;
    }

    /** Power comes back with image d on the disk. */
    method PowerOn(d: Disk, ghost l: seq<Txn>, ghost h: Disk)
      requires 8 <= blocks < LONG - WORD && size >= 512 && start <= WORD && start < |d|
      requires Image(d, start, blocks, DecSuper(d[start]).head, DecSuper(d[start]).tail, l, h) && HomesBelow(l, start)
      modifies this
      ensures Shape() && HandleOk() && Readable() && initialized && disk == d && log == l && images == old(images)
      ensures head == DecSuper(d[start]).head < LONG && tail == DecSuper(d[start]).tail
    {
      disk, log := d, l;
      homes, bufs, capacity, active, initialized := [], [], 0, false, true;
      LoadPointers();
      Widths();
      SuperBounds(d[start]);
    }

    /** Power comes back with image d on the disk, and recovery runs with its flag set. */
    method Remount(d: Disk, ghost l: seq<Txn>, ghost h: Disk) returns (parsed: seq<seq<Write>>)
      requires 8 <= blocks < LONG - WORD && size >= 512 && start <= WORD && start < |d|
      requires Image(d, start, blocks, DecSuper(d[start]).head, DecSuper(d[start]).tail, l, h) && HomesBelow(l, start)
      modifies this
      ensures log == [] && |disk| == |d| && parsed == WritesOf(l) && Home() == Apply(h, Flatten(l), total)
      ensures 1 <= head < blocks ==> Valid()
      ensures RecoverImages(images, |old(images)|, start, blocks, head, DecSuper(d[start]).tail, l, Home(), total)
      ensures head == DecSuper(d[start]).head
    {
      PowerOn(d, l, h);
      var ok;
      ok, parsed := Recover();
    }

    /** The disk as power loss right after write m of a commit leaves it. */
    method CommitUntil(junk: seq<Byte>, m: nat) returns (d: Disk, ghost l: seq<Txn>, ghost g: Disk)
      requires Valid() && initialized && active && homes != []
      modifies this
      ensures start < |d| && HomesBelow(l, start)
      ensures Image(d, start, blocks, DecSuper(d[start]).head, DecSuper(d[start]).tail, l, g)
      ensures var ws := MakeWrites(old(homes), old(bufs));
        if start + old(head) + |ws| + 2 <= |old(disk)|
        then AfterCrash(Apply(g, Flatten(l), total), old(Home()), Flatten(old(log)), ws, total, m)
        else Apply(g, Flatten(l), total) == old(Home())
      ensures var n, fits := |old(homes)|, start + old(head) + |old(homes)| + 2 <= |old(disk)|;
        && Flagged(d, start, !(fits && 2 * n + 4 <= m))
        && (fits && 2 * n + 4 <= m ==> g == Apply(old(Home()), MakeWrites(old(homes), old(bufs)), 0))
    {
      l, g := log, Home();
      var n0 := |images|;
      ghost var t;
      var ok;
      ok, t := Commit(junk);
      var last := if n0 + m < |images| then n0 + m else |images| - 1;
      if ok {
        ghost var hd, tl;
        hd, tl, l, g := CrashImage(images, start, blocks, n0, t.writes, old(head), old(tail), l, head, tail, log, g,
                                   total, m, last);
      } else {
        ReplaySettled(g, Flatten(l), total);
      }
      d := images[last];
    }

    /** A commit, power loss right after disk write m of it (or after the last), and recovery.  The writes are the
        dirty superblock, the descriptor, the data blocks, the commit record, the blocks to their homes, and twice
        the superblock.  A commit that would pass the end of the device stops before the first home write. */
    method CrashInCommit(junk: seq<Byte>, m: nat) returns (ghost ws: seq<Write>)
      requires Valid() && initialized && active && homes != []
      modifies this
      ensures ws == MakeWrites(old(homes), old(bufs)) && log == [] && start <= |disk|
      ensures 1 <= head < blocks ==> Valid()
      ensures if start + old(head) + |ws| + 2 <= |old(disk)|
        then AfterCrash(Home(), old(Home()), Flatten(old(log)), ws, total, m) else Home() == old(Home())
    {
      ws := MakeWrites(homes, bufs);
      ghost var l, g;
      var d;
      d, l, g := CommitUntil(junk, m);
      var parsed := Remount(d, l, g);
    }

    /** A commit, power loss right after disk write m of it (or after the last), and journal_init: it mounts exactly if
        all writes were made, since before the last one the superblock says dirty. */
    method InitAfterCrash(junk: seq<Byte>, m: nat) returns (ok: bool)
      requires Valid() && initialized && active && homes != []
      modifies this
      ensures start <= |disk|
      ensures ok <==> start + old(head) + |old(homes)| + 2 <= |old(disk)| && 2 * |old(homes)| + 4 <= m
      ensures ok ==> Home() == Apply(old(Home()), MakeWrites(old(homes), old(bufs)), 0)
    {
      ghost var l, g;
      var d;
      d, l, g := CommitUntil(junk, m);
      disk, initialized := d, false;
      ok := Init();
    }

    /** Power is lost again and again while recovery runs, each time right after one of its disk writes (or after the
        last), and then recovery runs to its end. */
    method CrashesInRecovery(ms: seq<nat>)
      requires Shape() && Readable()
      modifies this
      ensures log == [] && start <= |disk| && Home() == Apply(old(Home()), Flatten(old(log)), total)
      ensures 1 <= head < blocks ==> Valid()
    {
      var d := disk;
      ghost var l, g, hd, tl := log, Home(), head, tail;
      ghost var final := Apply(g, Flatten(l), total);
      for k := 0 to |ms|
        invariant 8 <= blocks < LONG - WORD && size >= 512 && start <= WORD && start < |d|
        invariant Image(d, start, blocks, hd, tl, l, g) && HomesBelow(l, start)
        invariant Apply(g, Flatten(l), total) == final
      {
        var n := |images|;
        var _ := Remount(d, l, g);
        var at := if n + ms[k] < |images| then n + ms[k] else |images| - 1;
        tl, l, g := MidwayImage(images, n, start, blocks, head, tl, l, final, total, at);
        hd := head;
        d := images[at];
      }
      var _ := Remount(d, l, g);
    }
  }
}
