/**
 The journal area as a sequence of encoded transactions, and replay over the home blocks.
 */
module JournalLog {
  import opened Basics
  import opened LittleEndian
  import opened JournalCodec

  type Disk = seq<Block>

  // ---------- Replay ----------

  /** Recovery skips homes past the end of the filesystem, if it knows where that is. */
  predicate InRange(home: nat, total: nat) {
    total == 0 || home < total
  }

  function Put(h: Disk, w: Write, total: nat): (g: Disk)
    ensures |g| == |h|
  {
    if w.home < |h| && InRange(w.home, total) then h[w.home := w.data] else h
  }

  /** Home blocks after the writes, in order. */
  function Apply(h: Disk, ws: seq<Write>, total: nat): (g: Disk)
    ensures |g| == |h|
  {
    if ws == [] then h else Put(Apply(h, ws[..|ws| - 1], total), ws[|ws| - 1], total)
  }

  function LastWrite(ws: seq<Write>, b: nat): Option<Block> {
    if ws == [] then None
    else if ws[|ws| - 1].home == b then Some(ws[|ws| - 1].data)
    else LastWrite(ws[..|ws| - 1], b)
  }

  lemma {:induction false} ApplyAt(h: Disk, ws: seq<Write>, total: nat, b: nat)
    requires b < |h|
    ensures Apply(h, ws, total)[b] == if InRange(b, total) && LastWrite(ws, b).Some? then LastWrite(ws, b).value
      else h[b]
  {
    if ws != [] {
      ApplyAt(h, ws[..|ws| - 1], total, b);
    }
  }

  lemma {:induction false} LastOfTwo(a: seq<Write>, c: seq<Write>, b: nat)
    ensures LastWrite(a + c, b) == if LastWrite(c, b).Some? then LastWrite(c, b) else LastWrite(a, b)
  {
    if c == [] {
      assert a + c == a;
    } else {
      LastOfTwo(a, c[..|c| - 1], b);
      assert (a + c)[..|a + c| - 1] == a + c[..|c| - 1];
    }
  }

  /** The home blocks hold the last write of each block. */
  ghost predicate Settled(h: Disk, ws: seq<Write>) {
    forall b: nat {:trigger LastWrite(ws, b)} :: b < |h| && LastWrite(ws, b).Some? ==> h[b] == LastWrite(ws, b).value
  }

  /** Replaying what is settled changes no block. */
  lemma ReplaySettled(h: Disk, ws: seq<Write>, total: nat)
    requires Settled(h, ws)
    ensures Apply(h, ws, total) == h
  {
    forall b: nat | b < |h| ensures Apply(h, ws, total)[b] == h[b] {
      ApplyAt(h, ws, total, b);
    }
  }

  /** A checkpoint settles the log together with the new transaction. */
  lemma CheckpointSettles(h: Disk, ws: seq<Write>, txn: seq<Write>)
    requires Settled(h, ws)
    ensures Settled(Apply(h, txn, 0), ws + txn)
  {
    forall b: nat | b < |h| && LastWrite(ws + txn, b).Some?
      ensures Apply(h, txn, 0)[b] == LastWrite(ws + txn, b).value
    {
      ApplyAt(h, txn, 0, b);
      LastOfTwo(ws, txn, b);
    }
  }

  // ---------- Crash in the middle of a checkpoint ----------

  /** Replay writes block b. */
  predicate Held(ws: seq<Write>, total: nat, b: nat) {
    LastWrite(ws, b).Some? && InRange(b, total)
  }

  /** Block b after a crash past some checkpoint writes and recovery of the older log: new only if it was written
      and replay does not write it. */
  lemma TornCheckpoint(h: Disk, ws: seq<Write>, some: seq<Write>, total: nat, b: nat)
    requires Settled(h, ws) && b < |h|
    ensures Apply(Apply(h, some, 0), ws, total)[b] ==
      if LastWrite(some, b).Some? && !Held(ws, total, b) then LastWrite(some, b).value else h[b]
  {
    ApplyAt(h, some, 0, b);
    ApplyAt(Apply(h, some, 0), ws, total, b);
  }

  /** Every block written so far is written again by replay, or was written with the contents it had. */
  ghost predicate Harmless(h: Disk, ws: seq<Write>, some: seq<Write>, total: nat) {
    forall b: nat :: b < |h| && LastWrite(some, b).Some? && !Held(ws, total, b) ==> LastWrite(some, b).value == h[b]
  }

  /** Exactly then a torn checkpoint is undone by replay of the older log. */
  lemma TornIsOld(h: Disk, ws: seq<Write>, some: seq<Write>, total: nat)
    requires Settled(h, ws)
    ensures Apply(Apply(h, some, 0), ws, total) == h <==> Harmless(h, ws, some, total)
  {
    var r := Apply(Apply(h, some, 0), ws, total);
    forall b: nat | b < |h|
      ensures r[b] == if LastWrite(some, b).Some? && !Held(ws, total, b) then LastWrite(some, b).value else h[b]
    {
      TornCheckpoint(h, ws, some, total, b);
    }
    if Harmless(h, ws, some, total) {
      assert r == h;
    }
  }

  /** The home blocks r that recovery leaves, when power is lost after disk write m of a commit of the writes ws over
      home blocks h with the log's writes older: the old blocks before the first home write, the new ones once the new
      head is on disk, and in between the blocks written so far under the replayed log. */
  ghost predicate AfterCrash(r: Disk, h: Disk, older: seq<Write>, ws: seq<Write>, total: nat, m: nat) {
    && (m < |ws| + 3 ==> r == h)
    && (|ws| + 3 <= m < 2 * |ws| + 3 ==> Torn(r, h, older, ws[..m - |ws| - 2], total))
    && (2 * |ws| + 3 <= m ==> r == Apply(h, ws, 0))
  }

  /** Home blocks with some writes home and the older log replayed over them; the old ones exactly if harmless. */
  ghost predicate Torn(r: Disk, h: Disk, older: seq<Write>, some: seq<Write>, total: nat) {
    r == Apply(Apply(h, some, 0), older, total) && (r == h <==> Harmless(h, older, some, total))
  }

  /** Two blocks of any size, an empty log, and a crash after one of two checkpoint writes: neither the old
      contents nor the new ones. */
  lemma TornExample(x: Block, y: Block, total: nat)
    requires |x| == |y| >= 512 && x != y
    ensures var h, txn := [x, x], [Write(0, y), Write(1, y)];
      var r := Apply(Apply(h, txn[..1], 0), [], total);
      Settled(h, []) && r != h && r != Apply(h, txn, 0)
  {
    var h, txn := [x, x], [Write(0, y), Write(1, y)];
    var r := Apply(Apply(h, txn[..1], 0), [], total);
    TornCheckpoint(h, [], txn[..1], total, 0);
    TornCheckpoint(h, [], txn[..1], total, 1);
    assert txn[..1] == [txn[0]];
    ApplyAt(h, txn, 0, 1);
    assert r[0] == y && r[1] == x;
  }

  // ---------- Replaying twice ----------

  lemma {:induction false} Rewrites(ws: seq<Write>, w: Write)
    requires w in ws
    ensures LastWrite(ws, w.home).Some?
  {
    if ws[|ws| - 1].home != w.home {
      Rewrites(ws[..|ws| - 1], w);
    }
  }

  /** A write that replay makes again anyway makes no difference to what replay leaves. */
  lemma PutReplayed(h: Disk, w: Write, ws: seq<Write>, total: nat)
    requires w in ws
    ensures Apply(Put(h, w, total), ws, total) == Apply(h, ws, total)
  {
    forall b: nat | b < |h| ensures Apply(Put(h, w, total), ws, total)[b] == Apply(h, ws, total)[b] {
      ApplyAt(h, ws, total, b);
      ApplyAt(Put(h, w, total), ws, total, b);
      Rewrites(ws, w);
    }
  }

  // ---------- The journal area ----------

  function Flatten(log: seq<Txn>): seq<Write> {
    if log == [] then [] else Flatten(log[..|log| - 1]) + log[|log| - 1].writes
  }

  lemma FlattenSnoc(log: seq<Txn>, t: Txn)
    ensures Flatten(log + [t]) == Flatten(log) + t.writes
  {
    assert (log + [t])[..|log|] == log;
  }

  lemma {:induction false} InFlatten(log: seq<Txn>, t: Txn, w: Write)
    requires t in log && w in t.writes
    ensures w in Flatten(log)
  {
    var k := |log| - 1;
    if t in log[..k] { InFlatten(log[..k], t, w); } else { assert log[k] == t; }
  }

  /** Blocks from pos on, n + 2 of them, hold transaction t. */
  ghost predicate Holds(d: Disk, start: nat, pos: nat, t: Txn) {
    var n := |t.writes|;
    && start + pos + n + 2 <= |d|
    && Describes(d[start + pos], t.writes) && IsCommit(d[start + pos + 1 + n])
    && RecordId(d[start + pos]) == t.id == RecordId(d[start + pos + 1 + n])
    && forall i :: 0 <= i < n ==> d[start + pos + 1 + i] == t.writes[i].data
  }

  /** The journal area from pos to end holds exactly the log. */
  ghost predicate Encoded(d: Disk, start: nat, pos: nat, log: seq<Txn>, end: nat)
    decreases |log|
  {
    if log == [] then pos == end
    else Holds(d, start, pos, log[0]) && Encoded(d, start, pos + |log[0].writes| + 2, log[1..], end)
  }

  lemma {:induction false} EncodedLength(d: Disk, start: nat, pos: nat, log: seq<Txn>, end: nat)
    requires Encoded(d, start, pos, log, end)
    ensures pos <= end && (log != [] ==> pos + |log[0].writes| + 2 <= end)
    decreases |log|
  {
    if log != [] {
      EncodedLength(d, start, pos + |log[0].writes| + 2, log[1..], end);
    }
  }

  /** Writes outside the area leave the log alone. */
  lemma {:induction false} EncodedFrame(d: Disk, d': Disk, start: nat, pos: nat, log: seq<Txn>, end: nat)
    requires Encoded(d, start, pos, log, end) && |d'| == |d|
    requires forall p :: start + pos <= p < start + end && p < |d| ==> d'[p] == d[p]
    ensures Encoded(d', start, pos, log, end)
    decreases |log|
  {
    if log != [] {
      EncodedLength(d, start, pos, log, end);
      EncodedFrame(d, d', start, pos + |log[0].writes| + 2, log[1..], end);
    }
  }

  lemma {:induction false} EncodedSnoc(d: Disk, start: nat, pos: nat, log: seq<Txn>, mid: nat, t: Txn)
    requires Encoded(d, start, pos, log, mid) && Holds(d, start, mid, t)
    ensures Encoded(d, start, pos, log + [t], mid + |t.writes| + 2)
    decreases |log|
  {
    if log == [] {
      assert (log + [t])[1..] == [];
    } else {
      EncodedSnoc(d, start, pos + |log[0].writes| + 2, log[1..], mid, t);
      assert (log + [t])[1..] == log[1..] + [t];
    }
  }

  /** The last transaction of the log ends where the log ends. */
  lemma {:induction false} LastStarts(d: Disk, start: nat, pos: nat, log: seq<Txn>, end: nat)
    requires Encoded(d, start, pos, log, end) && log != []
    ensures pos + |log[|log| - 1].writes| + 2 <= end
    decreases |log|
  {
    if |log| > 1 {
      LastStarts(d, start, pos + |log[0].writes| + 2, log[1..], end);
    }
  }

  /** A scan from pos to end finds exactly the log: the transactions encoded there, or nothing if it ends at once. */
  ghost predicate Stored(d: Disk, start: nat, pos: nat, log: seq<Txn>, end: nat) {
    if log == [] then end <= pos else Encoded(d, start, pos, log, end)
  }

  // ---------- Images ----------

  /** Image d mounts with these pointers, holds the log between them, and has these home blocks. */
  ghost predicate Image(d: Disk, start: nat, blocks: nat, head: nat, tail: nat, log: seq<Txn>, h: Disk) {
    && start + blocks <= |d| && start < |d| && d[..start] == h
    && IsSuper(d[start]) && DecSuper(d[start]).head == head && DecSuper(d[start]).tail == tail
    && (log != [] ==> tail >= 1) && Stored(d, start, tail, log, head)
  }

  /** All images from n on have these pointers, this log and these home blocks. */
  ghost predicate AllImages(images: seq<Disk>, n: nat, start: nat, blocks: nat, head: nat, tail: nat, log: seq<Txn>,
                            h: Disk) {
    forall i :: n <= i < |images| ==> Image(images[i], start, blocks, head, tail, log, h)
  }

  /** Blocks that transactions take in the journal area. */
  function Span(ts: seq<Txn>): nat {
    if ts == [] then 0 else |ts[0].writes| + 2 + Span(ts[1..])
  }

  /** The tail once the oldest transactions have made way for a head at next. */
  function TailAfter(tail: nat, next: nat, blocks: nat, log: seq<Txn>): (r: nat)
    ensures tail <= r
    decreases |log|
  {
    if log == [] || next + 1 < tail + blocks then tail
    else TailAfter(tail + |log[0].writes| + 2, next, blocks, log[1..])
  }

  /** No more of them than have to: with the first k dropped and the tail behind TailAfter, the head is too far off. */
  lemma {:induction false} KeepsMost(tail: nat, next: nat, blocks: nat, log: seq<Txn>, k: nat)
    requires k <= |log| && tail + Span(log[..k]) < TailAfter(tail, next, blocks, log)
    ensures next + 1 >= tail + Span(log[..k]) + blocks
    decreases k
  {
    if k > 0 {
      assert log[..k][1..] == log[1..][..k - 1];
      KeepsMost(tail + |log[0].writes| + 2, next, blocks, log[1..], k - 1);
    }
  }

  /** The pointers before and after transaction t: it joins the log if it ends before the end of the area; otherwise the
      head has started over, behind the tail, and recovery finds nothing any more. */
  ghost predicate Moved(blocks: nat, t: Txn, head0: nat, tail0: nat, log0: seq<Txn>, head: nat, tail: nat,
                        log: seq<Txn>) {
    var next := head0 + |t.writes| + 2;
    if next < blocks then head == next && tail == tail0 && log == log0 + [t]
    else
      && head == next - blocks && head <= tail && log == []
      && var r := TailAfter(tail0, next, blocks, log0 + [t]); tail == if r >= blocks then r - blocks else r
  }

  /** Images m0 up to n1 have the home blocks h; then there is one per checkpoint write; then finished ones. */
  ghost predicate CrashImages(images: seq<Disk>, start: nat, blocks: nat, m0: nat, n1: nat, ws: seq<Write>, head0: nat,
                              tail0: nat, log0: seq<Txn>, head: nat, tail: nat, log: seq<Txn>, h: Disk) {
    && n1 == m0 + |ws| + 3 && |images| == n1 + |ws| + 2
    && (forall m :: m0 <= m < n1 ==> Image(images[m], start, blocks, head0, tail0, log0, h))
    && (forall m :: n1 <= m < n1 + |ws| ==>
          Image(images[m], start, blocks, head0, tail0, log0, Apply(h, ws[..m - n1 + 1], 0)))
    && (forall m :: n1 + |ws| <= m < |images| ==> Image(images[m], start, blocks, head, tail, log, Apply(h, ws, 0)))
  }

  /** The images of a commit: dirty superblock, descriptor, data blocks and commit record leave the home blocks alone;
      then one image per checkpoint write; then two superblocks with the new pointers. */
  ghost predicate CommitImages(images: seq<Disk>, start: nat, blocks: nat, m0: nat, ws: seq<Write>, head0: nat,
                               tail0: nat, log0: seq<Txn>, head: nat, tail: nat, log: seq<Txn>, h: Disk) {
    CrashImages(images, start, blocks, m0, m0 + |ws| + 3, ws, head0, tail0, log0, head, tail, log, h)
  }

  // ---------- The dirty flag ----------

  /** The superblock of d says dirty, or not. */
  ghost predicate Flagged(d: Disk, start: nat, dirty: bool) {
    start < |d| && DecSuper(d[start]).dirty == dirty
  }

  /** All images from n on have this superblock. */
  ghost predicate Under(images: seq<Disk>, n: nat, start: nat, s: Block) {
    forall i :: n <= i < |images| ==> start < |images[i]| && images[i][start] == s
  }

  /** All images of a commit from n on are marked dirty, but for the last one if the commit succeeds. */
  ghost predicate Marked(images: seq<Disk>, n: nat, start: nat, ok: bool) {
    forall i :: n <= i < |images| ==> Flagged(images[i], start, !(ok && i == |images| - 1))
  }

  lemma UnderJoin(pre: seq<Disk>, all: seq<Disk>, n: nat, start: nat, s: Block)
    requires pre <= all && Under(pre, n, start, s) && Under(all, |pre|, start, s)
    ensures Under(all, n, start, s)
  {
    forall i | n <= i < |all| ensures start < |all[i]| && all[i][start] == s {
      if i < |pre| { assert all[i] == pre[i]; }
    }
  }

  lemma UnderMarks(images: seq<Disk>, n: nat, start: nat, s: Block)
    requires Under(images, n, start, s) && DecSuper(s).dirty
    ensures Marked(images, n, start, false)
  {
  }

  lemma MarksJoin(pre: seq<Disk>, mid: seq<Disk>, all: seq<Disk>, n: nat, start: nat, s: Block)
    requires pre <= mid <= all && |all| == |mid| + 2 && Under(pre, n, start, s) && Under(mid, |pre|, start, s)
    requires DecSuper(s).dirty && Flagged(all[|mid|], start, true) && Flagged(all[|mid| + 1], start, false)
    ensures Marked(all, n, start, true)
  {
    UnderJoin(pre, mid, n, start, s);
    forall i | n <= i < |all| ensures Flagged(all[i], start, i != |all| - 1) {
      if i < |mid| { assert all[i] == mid[i]; }
    }
  }

  /** A commit of t from home blocks h0: either all of it, or nothing but writes that recovery does not see. */
  ghost predicate Committed(ok: bool, t: Txn, images: seq<Disk>, n: nat, start: nat, blocks: nat, h0: Disk, head0: nat,
                            tail0: nat, log0: seq<Txn>, h: Disk, head: nat, tail: nat, log: seq<Txn>) {
    && Marked(images, n, start, ok)
    && if ok then
         && h == Apply(h0, t.writes, 0) && Moved(blocks, t, head0, tail0, log0, head, tail, log)
         && CommitImages(images, start, blocks, n, t.writes, head0, tail0, log0, head, tail, log, h0)
       else
         && h == h0 && head == head0 && tail == tail0 && log == log0
         && n < |images| && AllImages(images, n, start, blocks, head, tail, log, h)
  }

  /** The images of the three parts of a commit, in one sequence. */
  lemma JoinImages(pre: seq<Disk>, mid: seq<Disk>, all: seq<Disk>, start: nat, blocks: nat, m0: nat, n1: nat,
                   ws: seq<Write>, head0: nat, tail0: nat, log0: seq<Txn>, head: nat, tail: nat, log: seq<Txn>, h: Disk)
    requires pre <= mid <= all && n1 == |pre| == m0 + |ws| + 3 && |mid| == n1 + |ws| && |all| == |mid| + 2
    requires forall m :: m0 <= m < n1 ==> Image(pre[m], start, blocks, head0, tail0, log0, h)
    requires forall m :: n1 <= m < n1 + |ws| ==>
      Image(mid[m], start, blocks, head0, tail0, log0, Apply(h, ws[..m - n1 + 1], 0))
    requires forall m :: |mid| <= m < |all| ==> Image(all[m], start, blocks, head, tail, log, Apply(h, ws, 0))
    ensures CommitImages(all, start, blocks, m0, ws, head0, tail0, log0, head, tail, log, h)
  {
    assert forall m :: m0 <= m < n1 ==> all[m] == pre[m];
    assert forall m :: n1 <= m < |mid| ==> all[m] == mid[m];
  }

  /** A disk on which recovery of the log is under way: it still has the log, and recovery leaves the blocks final. */
  ghost predicate Midway(d: Disk, start: nat, blocks: nat, head: nat, tail: nat, log: seq<Txn>, final: Disk,
      total: nat) {
    && start <= |d| && Image(d, start, blocks, head, tail, log, d[..start])
    && Apply(d[..start], Flatten(log), total) == final
  }

  /** All images from n to m are such disks. */
  ghost predicate AllMidway(images: seq<Disk>, n: nat, m: nat, start: nat, blocks: nat, head: nat, tail: nat,
      log: seq<Txn>, final: Disk, total: nat) {
    m <= |images| && forall i :: n <= i < m ==> Midway(images[i], start, blocks, head, tail, log, final, total)
  }

  /** The images of a recovery: such disks, then the reset superblock with everything home. */
  ghost predicate RecoverImages(images: seq<Disk>, n: nat, start: nat, blocks: nat, head: nat, tail: nat,
      log: seq<Txn>, final: Disk, total: nat) {
    && n < |images| && AllMidway(images, n, |images| - 1, start, blocks, head, tail, log, final, total)
    && Image(images[|images| - 1], start, blocks, head, head, [], final)
  }

  /** One more block of the log home. */
  lemma MidwayStep(d: Disk, start: nat, blocks: nat, head: nat, tail: nat, log: seq<Txn>, final: Disk, total: nat,
      t: Txn, w: Write)
    requires Midway(d, start, blocks, head, tail, log, final, total) && w.home < start && InRange(w.home, total)
    requires t in log && w in t.writes
    ensures Midway(d[w.home := w.data], start, blocks, head, tail, log, final, total)
  {
    WriteHome(d, start, blocks, head, tail, log, d[..start], w);
    InFlatten(log, t, w);
    PutReplayed(d[..start], w, Flatten(log), total);
    assert Put(d[..start], w, total) == Put(d[..start], w, 0) == d[w.home := w.data][..start];
  }

  /** The same for the images since n and the disk. */
  lemma RedoStep(images: seq<Disk>, d: Disk, d': Disk, n: nat, start: nat, blocks: nat, head: nat, tail: nat,
      log: seq<Txn>, final: Disk, total: nat, t: Txn, w: Write)
    requires AllMidway(images + [d], n, |images| + 1, start, blocks, head, tail, log, final, total) && n <= |images|
    requires w.home < start && InRange(w.home, total) && t in log && w in t.writes
    requires w.home < |d| && d' == d[w.home := w.data]
    ensures AllMidway(images + [d'] + [d'], n, |images| + 2, start, blocks, head, tail, log, final, total)
  {
    assert (images + [d])[|images|] == d;
    MidwayStep(d, start, blocks, head, tail, log, final, total, t, w);
    forall i | n <= i < |images| + 2
      ensures Midway((images + [d'] + [d'])[i], start, blocks, head, tail, log, final, total)
    {
      if i < |images| { assert (images + [d'] + [d'])[i] == (images + [d])[i]; }
    }
  }

  lemma RedoDone(images: seq<Disk>, d: Disk, d': Disk, n: nat, start: nat, blocks: nat, head: nat, tail: nat,
      log: seq<Txn>, final: Disk, total: nat)
    requires AllMidway(images + [d], n, |images| + 1, start, blocks, head, tail, log, final, total) && n <= |images|
    requires Image(d', start, blocks, head, head, [], final)
    ensures RecoverImages(images + [d'], n, start, blocks, head, tail, log, final, total)
  {
    forall i | n <= i < |images| ensures Midway((images + [d'])[i], start, blocks, head, tail, log, final, total) {
      assert (images + [d'])[i] == (images + [d])[i];
    }
  }

  lemma RedoNothing(images: seq<Disk>, d: Disk, start: nat, blocks: nat, head: nat, tail: nat, log: seq<Txn>, h: Disk,
      total: nat)
    requires Image(d, start, blocks, head, tail, log, h)
    ensures AllMidway(images + [d], |images|, |images| + 1, start, blocks, head, tail, log,
                      Apply(h, Flatten(log), total), total)
  {
  }

  /** What power loss during recovery leaves: recovery of it gives the same blocks. */
  lemma MidwayImage(images: seq<Disk>, n: nat, start: nat, blocks: nat, head: nat, tail: nat, log: seq<Txn>,
      final: Disk, total: nat, at: nat)
    returns (tl: nat, l: seq<Txn>, g: Disk)
    requires RecoverImages(images, n, start, blocks, head, tail, log, final, total) && n <= at < |images|
    ensures Image(images[at], start, blocks, head, tl, l, g) && Apply(g, Flatten(l), total) == final
    ensures l == log || l == []
  {
    if at < |images| - 1 {
      tl, l, g := tail, log, images[at][..start];
    } else {
      tl, l, g := head, [], final;
    }
  }

  /** Writing past the head changes nothing that recovery looks at. */
  lemma WritePastHead(d: Disk, start: nat, blocks: nat, head: nat, tail: nat, log: seq<Txn>, h: Disk, b: nat,
      data: Block)
    requires Image(d, start, blocks, head, tail, log, h) && start + head <= b < |d| && b != start
    ensures Image(d[b := data], start, blocks, head, tail, log, h)
  {
    if log != [] {
      EncodedLength(d, start, tail, log, head);
      EncodedFrame(d, d[b := data], start, tail, log, head);
    }
    assert d[b := data][..start] == d[..start];
  }

  /** A write to a home block. */
  lemma WriteHome(d: Disk, start: nat, blocks: nat, head: nat, tail: nat, log: seq<Txn>, h: Disk, w: Write)
    requires Image(d, start, blocks, head, tail, log, h) && w.home < start
    ensures Image(d[w.home := w.data], start, blocks, head, tail, log, Put(h, w, 0))
  {
    if log != [] { EncodedFrame(d, d[w.home := w.data], start, tail, log, head); }
    assert d[w.home := w.data][..start] == Put(h, w, 0);
  }

  /** A new superblock. */
  lemma WriteSuperImage(d: Disk, d': Disk, start: nat, blocks: nat, head: nat, tail: nat, log: seq<Txn>, h: Disk)
    requires start + blocks <= |d| && start < |d| == |d'| && (log != [] ==> tail >= 1) && d[..start] == h
    requires Stored(d, start, tail, log, head)
    requires IsSuper(d'[start]) && DecSuper(d'[start]).head == head && DecSuper(d'[start]).tail == tail
    requires forall p :: 0 <= p < |d| && p != start ==> d'[p] == d[p]
    ensures Image(d', start, blocks, head, tail, log, h)
  {
    if log != [] { EncodedFrame(d, d', start, tail, log, head); }
    assert d'[..start] == d[..start];
  }

  lemma ApplyNext(h: Disk, ws: seq<Write>, i: nat, total: nat)
    requires i < |ws|
    ensures Apply(h, ws[..i + 1], total) == Put(Apply(h, ws[..i], total), ws[i], total)
  {
    assert ws[..i + 1][..i] == ws[..i];
  }

  lemma HoldsFrame(d: Disk, d': Disk, start: nat, pos: nat, t: Txn)
    requires Holds(d, start, pos, t) && |d'| == |d| && forall p :: start + pos <= p < |d| ==> d'[p] == d[p]
    ensures Holds(d', start, pos, t)
  {
  }

  lemma HoldsNow(d: Disk, start: nat, pos: nat, t: Txn, desc: Block, commit: Block)
    requires start + pos + |t.writes| + 2 <= |d| && d[start + pos] == desc && d[start + pos + 1 + |t.writes|] == commit
    requires Describes(desc, t.writes) && IsCommit(commit) && RecordId(desc) == t.id == RecordId(commit)
    requires forall i :: 0 <= i < |t.writes| ==> d[start + pos + 1 + i] == t.writes[i].data
    ensures Holds(d, start, pos, t)
  {
  }

  lemma {:induction false} ApplyTwo(h: Disk, a: seq<Write>, c: seq<Write>, total: nat)
    ensures Apply(h, a + c, total) == Apply(Apply(h, a, total), c, total)
  {
    if c == [] {
      assert a + c == a;
    } else {
      ApplyTwo(h, a, c[..|c| - 1], total);
      assert (a + c)[..|a + c| - 1] == a + c[..|c| - 1];
    }
  }

  /** The transactions of a log, without their numbers. */
  function WritesOf(log: seq<Txn>): (r: seq<seq<Write>>)
    ensures |r| == |log|
  {
    seq(|log|, i requires 0 <= i < |log| => log[i].writes)
  }

  /** How far recovery of a well-formed journal area has come. */
  ghost predicate Replaying(d: Disk, start: nat, pos: nat, end: nat, log: seq<Txn>, done: seq<Txn>, rest: seq<Txn>,
      h: Disk, total: nat) {
    && start < |d| && done + rest == log && Stored(d, start, pos, rest, end) &&
      d[..start] == Apply(h, Flatten(done), total)
  }

  lemma WritesSnoc(log: seq<Txn>, t: Txn)
    ensures WritesOf(log + [t]) == WritesOf(log) + [t.writes]
  {
  }

  /** What the scan sees at the start of a transaction. */
  lemma FirstRecord(d: Disk, start: nat, pos: nat, rest: seq<Txn>, end: nat)
    requires Stored(d, start, pos, rest, end) && pos < end
    ensures rest != [] && start + pos < |d| && IsDesc(d[start + pos])
    ensures DescCount(d[start + pos]) == |rest[0].writes|
    ensures var at := pos + 1 + |rest[0].writes|; at < end && start + at < |d| && IsCommit(d[start + at])
  {
    EncodedLength(d, start, pos, rest, end);
  }

  /** Dropping transactions of all from tail0 on has come to tail, with rest left; the last one starts at last. */
  ghost predicate Evicting(d: Disk, start: nat, blocks: nat, tail0: nat, tail: nat, next: nat, last: nat,
                           all: seq<Txn>, rest: seq<Txn>) {
    && all != [] && 1 <= tail && (next < blocks ==> tail == tail0) && Encoded(d, start, tail, rest, next)
    && (rest == [] || (tail <= last && rest[|rest| - 1] == all[|all| - 1]))
    && TailAfter(tail, next, blocks, rest) == TailAfter(tail0, next, blocks, all)
  }

  lemma EvictStep(d: Disk, start: nat, blocks: nat, tail0: nat, tail: nat, next: nat, last: nat, all: seq<Txn>,
      rest: seq<Txn>)
    requires Evicting(d, start, blocks, tail0, tail, next, last, all, rest) && 8 <= blocks && next + 1 >= tail + blocks
    requires next == last + |all[|all| - 1].writes| + 2
    ensures rest != [] && start + tail < |d| && IsDesc(d[start + tail]) && tail < next
    ensures DescCount(d[start + tail]) == |rest[0].writes|
    ensures Evicting(d, start, blocks, tail0, tail + |rest[0].writes| + 2, next, last, all, rest[1..])
  {
    FirstRecord(d, start, tail, rest, next);
    var tail', rest' := tail + |rest[0].writes| + 2, rest[1..];
    if rest' != [] { LastStarts(d, start, tail', rest', next); }
  }

  lemma ReplayedOne(d: Disk, start: nat, pos: nat, end: nat, log: seq<Txn>, done: seq<Txn>, rest: seq<Txn>, h: Disk,
      total: nat, g: Disk)
    requires start < |d| && done + rest == log && rest != [] && g == Apply(h, Flatten(done), total)
    requires Encoded(d, start, pos, rest[1..], end) && d[..start] == Apply(g, rest[0].writes, total)
    ensures Replaying(d, start, pos, end, log, done + [rest[0]], rest[1..], h, total)
  {
    FlattenSnoc(done, rest[0]);
    ApplyTwo(h, Flatten(done), rest[0].writes, total);
  }

  /** Replay of t from h has come to entry i; what follows in the journal area is rest. */
  ghost predicate ReplayState(d: Disk, start: nat, total: nat, desc: Block, pos: nat, i: nat, ws: seq<Write>, t: Txn,
      h: Disk, rest: seq<Txn>, end: nat) {
    && start < |d| && i <= |t.writes| && ws == t.writes[..i] && (forall w :: w in t.writes ==> w.home < start)
    && Describes(desc, t.writes) && Holds(d, start, pos, t) && d[..start] == Apply(h, t.writes[..i], total)
    && Encoded(d, start, pos + |t.writes| + 2, rest, end)
  }

  /** Replay of the first transaction that is left begins. */
  lemma ReplayBegins(d: Disk, start: nat, pos: nat, end: nat, log: seq<Txn>, done: seq<Txn>, rest: seq<Txn>, h: Disk,
      total: nat)
    requires Replaying(d, start, pos, end, log, done, rest, h, total) && rest != []
    requires forall t :: t in log ==> forall w :: w in t.writes ==> w.home < start
    ensures rest[0] in log && start + pos < |d|
    ensures ReplayState(d, start, total, d[start + pos], pos, 0, [], rest[0], d[..start], rest[1..], end)
  {
    assert log[|done|] == rest[0];
    assert rest[0].writes[..0] == [];
  }

  /** And ends. */
  lemma ReplayEnds(d: Disk, start: nat, pos: nat, end: nat, log: seq<Txn>, done: seq<Txn>, rest: seq<Txn>, h: Disk,
      total: nat, desc: Block, ws: seq<Write>, g: Disk)
    requires rest != [] && done + rest == log && g == Apply(h, Flatten(done), total)
    requires ReplayState(d, start, total, desc, pos, |rest[0].writes|, ws, rest[0], g, rest[1..], end)
    ensures ws == rest[0].writes
    ensures Replaying(d, start, pos + |rest[0].writes| + 2, end, log, done + [rest[0]], rest[1..], h, total)
  {
    assert rest[0].writes[..|rest[0].writes|] == rest[0].writes;
    ReplayedOne(d, start, pos + |rest[0].writes| + 2, end, log, done, rest, h, total, g);
  }

  /** Disk after replaying one entry. */
  function Copied(d: Disk, home: nat, data: Block, sum: nat, total: nat): (d': Disk)
    ensures |d'| == |d|
  {
    if InRange(home, total) && Checksum(data) == sum && home < |d| then d[home := data] else d
  }

  /** A block in range with the right checksum goes home; what follows in the journal area is untouched. */
  lemma CopiedHome(d: Disk, start: nat, w: Write, total: nat, g: Disk)
    requires start <= |d| && w.home < start && d[..start] == g
    ensures var d' := Copied(d, w.home, w.data, Checksum(w.data), total);
      d'[..start] == Put(g, w, total) && forall p :: start <= p < |d| ==> d'[p] == d[p]
  {
  }

  lemma ReplayStep(d: Disk, start: nat, total: nat, desc: Block, pos: nat, i: nat, i': nat, ws: seq<Write>, t: Txn,
      h: Disk, rest: seq<Txn>, end: nat)
    requires ReplayState(d, start, total, desc, pos, i, ws, t, h, rest, end) && i < |t.writes| && i' == i + 1
    ensures start + pos + 1 + i < |d| && Write(DescHome(desc, i), d[start + pos + 1 + i]) == t.writes[i]
    ensures var d' := Copied(d, t.writes[i].home, t.writes[i].data, DescSum(desc, i), total);
      ReplayState(d', start, total, desc, pos, i', ws + [t.writes[i]], t, h, rest, end) && d'[start] == d[start]
  {
    var w := t.writes[i];
    var d' := Copied(d, w.home, w.data, DescSum(desc, i), total);
    assert w in t.writes && t.writes[..i'] == t.writes[..i] + [w];
    ApplyNext(h, t.writes, i, total);
    CopiedHome(d, start, w, total, Apply(h, t.writes[..i], total));
    EncodedFrame(d, d', start, pos + |t.writes| + 2, rest, end);
    HoldsFrame(d, d', start, pos, t);
  }

  /** What recovery finds on the image of a crash, and what it makes of it. */
  lemma CrashImage(images: seq<Disk>, start: nat, blocks: nat, n0: nat, ws: seq<Write>, head0: nat, tail0: nat,
      log0: seq<Txn>, head: nat, tail: nat, log: seq<Txn>, h: Disk, total: nat, m: nat, last: nat)
    returns (hd: nat, tl: nat, l: seq<Txn>, g: Disk)
    requires CommitImages(images, start, blocks, n0, ws, head0, tail0, log0, head, tail, log, h)
    requires Settled(h, Flatten(log0)) && Settled(Apply(h, ws, 0), Flatten(log))
    requires last == if n0 + m < |images| then n0 + m else |images| - 1
    ensures last < |images| && Image(images[last], start, blocks, hd, tl, l, g) && (l == log0 || l == log)
    ensures AfterCrash(Apply(g, Flatten(l), total), h, Flatten(log0), ws, total, m)
    ensures 2 * |ws| + 3 <= m ==> g == Apply(h, ws, 0)
  {
    hd, tl, l, g := head0, tail0, log0, h;
    var n1 := n0 + |ws| + 3;
    if last < n1 {
      ReplaySettled(h, Flatten(log0), total);
    } else if last < n1 + |ws| {
      g := Apply(h, ws[..last - n1 + 1], 0);
      TornIsOld(h, Flatten(log0), ws[..last - n1 + 1], total);
    } else {
      hd, tl, l, g := head, tail, log, Apply(h, ws, 0);
      ReplaySettled(g, Flatten(log), total);
    }
  }

  // ---------- Recovery of any journal area ----------

  /** Between lo and hi there is a descriptor at pos, and behind the blocks it announces a commit record. */
  predicate Closes(d: Disk, start: nat, lo: nat, hi: nat, pos: nat, desc: Block) {
    && lo <= pos && pos + 1 + DescCount(desc) < hi && start + pos + 1 + DescCount(desc) < |d|
    && d[start + pos] == desc && IsDesc(desc) && IsCommit(d[start + pos + 1 + DescCount(desc)])
  }

  /** The journal area holds data for block b: entry i of a committed transaction, with its checksum. */
  predicate Recorded(d: Disk, start: nat, lo: nat, hi: nat, pos: nat, i: nat, b: nat, data: Block) {
    && start + pos < |d| && Closes(d, start, lo, hi, pos, d[start + pos]) && i < DescCount(d[start + pos])
    && DescHome(d[start + pos], i) == b && d[start + pos + 1 + i] == data
    && Checksum(data) == DescSum(d[start + pos], i)
  }

  /** Block b of d is that of d0, or what the journal area of d0 has recorded for it. */
  ghost predicate Explains(d0: Disk, d: Disk, start: nat, lo: nat, hi: nat, total: nat, b: nat)
    requires b < |d0| == |d|
  {
    d[b] == d0[b] || (b < total && exists pos: nat, i: nat :: Recorded(d0, start, lo, hi, pos, i, b, d[b]))
  }

  /** Recovery with a file system range that ends before the journal invents nothing. */
  ghost predicate Explained(d0: Disk, d: Disk, start: nat, lo: nat, hi: nat, total: nat) {
    |d| == |d0| && (0 < total <= start ==> forall b: nat :: b < |d| ==> Explains(d0, d, start, lo, hi, total, b))
  }

  lemma ClosesKept(d0: Disk, d: Disk, start: nat, lo: nat, hi: nat, total: nat, pos: nat, desc: Block)
    requires Explained(d0, d, start, lo, hi, total) && Closes(d, start, lo, hi, pos, desc) && 0 < total <= start
    ensures Closes(d0, start, lo, hi, pos, desc)
  {
    assert Explains(d0, d, start, lo, hi, total, start + pos);
    assert Explains(d0, d, start, lo, hi, total, start + pos + 1 + DescCount(desc));
  }

  lemma CopyExplained(d0: Disk, d: Disk, start: nat, lo: nat, hi: nat, total: nat, pos: nat, desc: Block, i: nat,
      home: nat, data: Block)
    requires Explained(d0, d, start, lo, hi, total) && (0 < total <= start ==> Closes(d0, start, lo, hi, pos, desc))
    requires i < DescCount(desc) && home == DescHome(desc, i) && start + pos + 1 + i < |d|
    requires data == d[start + pos + 1 + i] && home < |d| && InRange(home, total) && Checksum(data) == DescSum(desc, i)
    ensures Explained(d0, d[home := data], start, lo, hi, total)
  {
    if 0 < total <= start {
      var d' := d[home := data];
      assert Explains(d0, d, start, lo, hi, total, start + pos + 1 + i);
      assert Recorded(d0, start, lo, hi, pos, i, home, data);
      forall b: nat | b < |d'| ensures Explains(d0, d', start, lo, hi, total, b) {
        assert Explains(d0, d, start, lo, hi, total, b);
      }
    }
  }

  /** The superblock apart, writing it changes nothing. */
  lemma SuperExplained(d0: Disk, d: Disk, d': Disk, start: nat, lo: nat, hi: nat, total: nat)
    requires Explained(d0, d, start, lo, hi, total) && start < |d| == |d'|
    requires forall p :: 0 <= p < |d| && p != start ==> d'[p] == d[p]
    ensures Explained(d0, d'[start := d0[start]], start, lo, hi, total)
  {
    var e := d'[start := d0[start]];
    if 0 < total <= start {
      forall b: nat | b < |e| ensures Explains(d0, e, start, lo, hi, total, b) {
        assert Explains(d0, d, start, lo, hi, total, b);
      }
    }
  }
}
