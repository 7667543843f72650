/**
 The pipe ring: each locked section of pipe_read and pipe_write is one step, taken in any order by
 any number of readers and writers.
 */
module Pipe {
  import opened Basics

  const PIPE_SIZE: nat := 4096

  // ---------- What a pipe is: a bounded queue of bytes with two ends ----------

  datatype Queue = Queue(bytes: seq<Byte>, readOpen: bool, writeOpen: bool)

  /** The locked sections: of pipe_read, at the entry of pipe_write, in its loop, and of pipe_close. */
  datatype Op = ReadOp(n: nat) | EnterOp | WriteOp(src: seq<Byte>) | CloseOp(readEnd: bool)

  /** What a section ends with.  Sleep and Full block the caller; Broken is the error for a closed read end. */
  datatype Turn = Data(bytes: seq<Byte>) | Eof | Sleep | Ready | Took(n: nat) | Broken | Full | Shut(freed: bool)

  function Min(a: nat, b: nat): nat {
    if a <= b then a else b
  }

  function Answer(q: Queue, op: Op): Turn {
    match op
    case ReadOp(n) =>
      if q.bytes != [] then Data(q.bytes[..Min(n, |q.bytes|)]) else if q.writeOpen then Sleep else Eof
    case EnterOp => if q.readOpen then Ready else Broken
    case WriteOp(src) =>
      if src == [] || |q.bytes| < PIPE_SIZE then Took(Min(|src|, Room(q))) else if q.readOpen then Full else Broken
    case CloseOp(readEnd) => Shut(if readEnd then !q.writeOpen else !q.readOpen)
  }

  function Room(q: Queue): nat {
    if |q.bytes| < PIPE_SIZE then PIPE_SIZE - |q.bytes| else 0
  }

  function After(q: Queue, op: Op): Queue {
    match op
    case ReadOp(n) => q.(bytes := q.bytes[Min(n, |q.bytes|)..])
    case EnterOp => q
    case WriteOp(src) => q.(bytes := q.bytes + src[..Min(|src|, Room(q))])
    case CloseOp(readEnd) => if readEnd then q.(readOpen := false) else q.(writeOpen := false)
  }

  /** The answers to a sequence of sections, and the queue they leave. */
  function Answers(q: Queue, ops: seq<Op>): (turns: seq<Turn>)
    ensures |turns| == |ops|
    decreases |ops|
  {
    if ops == [] then [] else [Answer(q, ops[0])] + Answers(After(q, ops[0]), ops[1..])
  }

  function Final(q: Queue, ops: seq<Op>): Queue
    decreases |ops|
  {
    if ops == [] then q else Final(After(q, ops[0]), ops[1..])
  }

  /** The bytes a section returns, and the bytes it takes. */
  function Out(turn: Turn): seq<Byte> {
    if turn.Data? then turn.bytes else []
  }

  function In(op: Op, turn: Turn): seq<Byte> {
    if op.WriteOp? && turn.Took? then op.src[..Min(turn.n, |op.src|)] else []
  }

  function Returned(turns: seq<Turn>): seq<Byte> {
    if turns == [] then [] else Out(turns[0]) + Returned(turns[1..])
  }

  function Taken(ops: seq<Op>, turns: seq<Turn>): seq<Byte>
    requires |ops| == |turns|
  {
    if ops == [] then [] else In(ops[0], turns[0]) + Taken(ops[1..], turns[1..])
  }

  lemma OneStep(q: Queue, op: Op)
    requires |q.bytes| <= PIPE_SIZE
    ensures Out(Answer(q, op)) + After(q, op).bytes == q.bytes + In(op, Answer(q, op))
    ensures |After(q, op).bytes| <= PIPE_SIZE
  {
  }

  /** Nothing is lost, added or reordered: what was stored and what was taken is what was returned and is stored. */
  lemma {:induction false} Conserved(q: Queue, ops: seq<Op>)
    requires |q.bytes| <= PIPE_SIZE
    ensures Returned(Answers(q, ops)) + Final(q, ops).bytes == q.bytes + Taken(ops, Answers(q, ops))
    ensures |Final(q, ops).bytes| <= PIPE_SIZE
    decreases |ops|
  {
    if ops == [] {
      assert Returned([]) + q.bytes == q.bytes == q.bytes + Taken([], []);
    } else {
      var q1, turn, rest := After(q, ops[0]), Answer(q, ops[0]), ops[1..];
      var tail := Answers(q1, rest);
      OneStep(q, ops[0]);
      Conserved(q1, rest);
      assert Answers(q, ops)[1..] == tail;
      Regroup(Out(turn), q.bytes, In(ops[0], turn), q1.bytes, Returned(tail), Final(q1, rest).bytes, Taken(rest, tail));
    }
  }

  lemma {:induction false} AnswersAt(q: Queue, ops: seq<Op>, i: nat)
    requires i < |ops|
    ensures Answers(q, ops)[i] == Answer(Final(q, ops[..i]), ops[i]) && Answers(q, ops)[..i] == Answers(q, ops[..i])
    decreases |ops|
  {
    if i > 0 {
      AnswersAt(After(q, ops[0]), ops[1..], i - 1);
      assert ops[..i][1..] == ops[1..][..i - 1];
    }
  }

  /** The end of the stream is reported only with the write end closed and every byte taken so far returned. */
  lemma EofMeans(q: Queue, ops: seq<Op>, i: nat)
    requires |q.bytes| <= PIPE_SIZE && i < |ops| && Answers(q, ops)[i] == Eof
    ensures !Final(q, ops[..i]).writeOpen
    ensures Returned(Answers(q, ops)[..i]) == q.bytes + Taken(ops[..i], Answers(q, ops)[..i])
  {
    AnswersAt(q, ops, i);
    Conserved(q, ops[..i]);
  }

  /** The answer of a read in terms of what was returned and taken before: the oldest bytes not yet returned, as many
      as asked for; with none left, end of file exactly if the write end was closed. */
  lemma ReadMeans(q: Queue, ops: seq<Op>, i: nat)
    requires |q.bytes| <= PIPE_SIZE && i < |ops| && ops[i].ReadOp?
    ensures var turns, n := Answers(q, ops), ops[i].n;
      var all, done := q.bytes + Taken(ops[..i], turns[..i]), |Returned(turns[..i])|;
      && done <= |all| <= done + PIPE_SIZE && Returned(turns[..i]) == all[..done]
      && (done < |all| ==> turns[i] == Data(all[done..if done + n <= |all| then done + n else |all|]))
      && (done == |all| ==> (turns[i] == Eof <==> Closed(q, ops, i, false)) && (turns[i] == Eof || turns[i] == Sleep))
  {
    AnswersAt(q, ops, i);
    Conserved(q, ops[..i]);
    EndsAfter(q, ops[..i]);
    ClosedBefore(q, ops, i, false);
    var turns := Answers(q, ops);
    var all, back, left := q.bytes + Taken(ops[..i], turns[..i]), Returned(turns[..i]), Final(q, ops[..i]).bytes;
    assert back + left == all;
    assert all[|back|..] == left;
    var n := Min(ops[i].n, |left|);
    assert left[..n] == all[|back|..|back| + n];
  }

  /** Whether an end of the pipe was closed at the start or by one of the first i sections. */
  ghost predicate Closed(q: Queue, ops: seq<Op>, i: nat, readEnd: bool)
    requires i <= |ops|
  {
    !(if readEnd then q.readOpen else q.writeOpen) || exists j :: 0 <= j < i && ops[j] == CloseOp(readEnd)
  }

  lemma ClosedBefore(q: Queue, ops: seq<Op>, i: nat, readEnd: bool)
    requires i <= |ops|
    ensures Closed(q, ops[..i], |ops[..i]|, readEnd) <==> Closed(q, ops, i, readEnd)
  {
    if j :| 0 <= j < i && ops[j] == CloseOp(readEnd) { assert ops[..i][j] == CloseOp(readEnd); }
  }

  /** An end is open exactly if nobody closed it. */
  lemma {:induction false} EndsAfter(q: Queue, ops: seq<Op>)
    ensures Final(q, ops).readOpen <==> !Closed(q, ops, |ops|, true)
    ensures Final(q, ops).writeOpen <==> !Closed(q, ops, |ops|, false)
    decreases |ops|
  {
    if ops != [] {
      EndsAfter(After(q, ops[0]), ops[1..]);
      ClosedFirst(q, ops, true);
      ClosedFirst(q, ops, false);
    }
  }

  lemma ClosedFirst(q: Queue, ops: seq<Op>, readEnd: bool)
    requires ops != []
    ensures Closed(q, ops, |ops|, readEnd) <==> Closed(After(q, ops[0]), ops[1..], |ops| - 1, readEnd)
  {
    if j :| 0 <= j < |ops| && ops[j] == CloseOp(readEnd) {
      if j > 0 { assert ops[1..][j - 1] == CloseOp(readEnd); }
    }
    if j :| 0 <= j < |ops| - 1 && ops[1..][j] == CloseOp(readEnd) { assert ops[j + 1] == CloseOp(readEnd); }
  }

  /** A write is refused at entry exactly if the read end was closed before; in its loop it takes as much as there is
      room for, and with no room it blocks or, with the read end closed, fails. */
  lemma WriteMeans(q: Queue, ops: seq<Op>, i: nat)
    requires |q.bytes| <= PIPE_SIZE && i < |ops|
    ensures var turns := Answers(q, ops);
      var stored := |q.bytes + Taken(ops[..i], turns[..i])| - |Returned(turns[..i])|;
      && 0 <= stored <= PIPE_SIZE
      && (ops[i].EnterOp? ==> turns[i] == if Closed(q, ops, i, true) then Broken else Ready)
      && (ops[i].WriteOp? && (|ops[i].src| == 0 || stored < PIPE_SIZE) ==>
            turns[i] == Took(if |ops[i].src| <= PIPE_SIZE - stored then |ops[i].src| else PIPE_SIZE - stored))
      && (ops[i].WriteOp? && |ops[i].src| > 0 && stored == PIPE_SIZE ==>
            turns[i] == if Closed(q, ops, i, true) then Broken else Full)
  {
    AnswersAt(q, ops, i);
    Conserved(q, ops[..i]);
    EndsAfter(q, ops[..i]);
    ClosedBefore(q, ops, i, true);
  }

  /** The ring is freed by the close that leaves both ends closed. */
  lemma CloseMeans(q: Queue, ops: seq<Op>, i: nat)
    requires i < |ops| && ops[i].CloseOp?
    ensures Answers(q, ops)[i] == Shut(Closed(q, ops, i + 1, true) && Closed(q, ops, i + 1, false))
  {
    AnswersAt(q, ops, i);
    EndsAfter(q, ops[..i]);
    ClosedBefore(q, ops, i, true);
    ClosedBefore(q, ops, i, false);
    var end := ops[i].readEnd;
    assert ops[i] == CloseOp(end);
    assert Closed(q, ops, i + 1, end);
    assert Closed(q, ops, i + 1, !end) <==> Closed(q, ops, i, !end);
  }

  lemma EofAll(q: Queue, ops: seq<Op>)
    requires q.bytes == []
    ensures var turns := Answers(q, ops);
      forall i :: 0 <= i < |ops| && turns[i] == Eof ==> Returned(turns[..i]) == Taken(ops[..i], turns[..i])
  {
    var turns := Answers(q, ops);
    forall i | 0 <= i < |ops| && turns[i] == Eof ensures Returned(turns[..i]) == Taken(ops[..i], turns[..i]) {
      EofMeans(q, ops, i);
      assert [] + Taken(ops[..i], turns[..i]) == Taken(ops[..i], turns[..i]);
    }
  }

  // ---------- The ring ----------

  /** The slot i places after head. */
  function Slot(head: nat, i: nat): (s: nat)
    ensures s < PIPE_SIZE
  {
    (head + i) % PIPE_SIZE
  }

  /** The bytes in the ring, oldest first. */
  function Stored(buf: seq<Byte>, head: nat, count: nat): (s: seq<Byte>)
    requires |buf| == PIPE_SIZE
    ensures |s| == count && forall i :: 0 <= i < count ==> s[i] == buf[Slot(head, i)]
  {
    seq(count, i requires 0 <= i < count => buf[Slot(head, i)])
  }

  lemma StoredRest(buf: seq<Byte>, head: nat, count: nat, n: nat)
    requires |buf| == PIPE_SIZE && head < PIPE_SIZE && n <= count <= PIPE_SIZE
    ensures Stored(buf, Slot(head, n), count - n) == Stored(buf, head, count)[n..]
  {
    var s, t := Stored(buf, Slot(head, n), count - n), Stored(buf, head, count)[n..];
    forall i | 0 <= i < count - n ensures s[i] == t[i] {
      SlotFurther(head, n, i);
    }
  }

  lemma SlotFurther(head: nat, n: nat, i: nat)
    ensures Slot(Slot(head, n), i) == Slot(head, n + i)
  {
  }

  /** n bytes from head: up to the end of the buffer, then from its start. */
  lemma StoredSplit(buf: seq<Byte>, head: nat, n: nat)
    requires |buf| == PIPE_SIZE && head < PIPE_SIZE && n <= PIPE_SIZE
    ensures var first := if PIPE_SIZE - head > n then n else PIPE_SIZE - head;
      Stored(buf, head, n) == buf[head..head + first] + buf[..n - first]
  {
    var first := if PIPE_SIZE - head > n then n else PIPE_SIZE - head;
    var s := buf[head..head + first] + buf[..n - first];
    forall i | 0 <= i < n ensures Stored(buf, head, n)[i] == s[i] {
    }
  }

  /** Taking the n oldest bytes out, in one piece or around the end. */
  lemma TakeOldest(buf: seq<Byte>, head: nat, count: nat, n: nat, first: nat, head': nat, count': nat)
    requires |buf| == PIPE_SIZE && head < PIPE_SIZE && n <= count <= PIPE_SIZE
    requires first == (if PIPE_SIZE - head > n then n else PIPE_SIZE - head) && head' == Slot(head, n)
    requires count' == count - n
    ensures buf[head..head + first] + buf[..n - first] == Stored(buf, head, count)[..n]
    ensures Stored(buf, head', count') == Stored(buf, head, count)[n..] && Slot(head', count') == Slot(head, count)
  {
    StoredSplit(buf, head, n);
    assert Stored(buf, head, n) == Stored(buf, head, count)[..n];
    StoredRest(buf, head, count, n);
    TailStays(head, count, n, head', count');
  }

  /** The buffer with src written from slot at on, around the end. */
  function RingPut(buf: seq<Byte>, at: nat, src: seq<Byte>): (b: seq<Byte>)
    requires |buf| == PIPE_SIZE && at < PIPE_SIZE && |src| <= PIPE_SIZE
    ensures |b| == PIPE_SIZE
    ensures forall s ::
      0 <= s < PIPE_SIZE ==> b[s] == (var k := (s + PIPE_SIZE - at) % PIPE_SIZE; if k < |src| then src[k] else buf[s])
  {
    seq(PIPE_SIZE, s requires 0 <= s < PIPE_SIZE => (var k :=
      (s + PIPE_SIZE - at) % PIPE_SIZE; if k < |src| then src[k] else buf[s]))
  }

  /** Which byte of a write of n bytes at a slot goes to slot s: by the first copy, by the second, or none. */
  lemma RingSlot(at: nat, n: nat, first: nat, s: nat)
    requires at < PIPE_SIZE && n <= PIPE_SIZE && s < PIPE_SIZE
    requires first == if PIPE_SIZE - at > n then n else PIPE_SIZE - at
    ensures var k := (s + PIPE_SIZE - at) % PIPE_SIZE;
      && (at <= s < at + first ==> k == s - at < n)
      && (s < n - first ==> s < at && k == first + s < n)
      && (!(at <= s < at + first) && s >= n - first ==> k >= n)
  {
  }

  /** Bytes put after the stored ones. */
  lemma StoredMore(buf: seq<Byte>, head: nat, count: nat, at: nat, src: seq<Byte>, count': nat)
    requires |buf| == PIPE_SIZE && head < PIPE_SIZE && count' == count + |src| <= PIPE_SIZE && at == Slot(head, count)
    ensures Stored(RingPut(buf, at, src), head, count') == Stored(buf, head, count) + src
  {
    var s, t := Stored(RingPut(buf, at, src), head, count'), Stored(buf, head, count) + src;
    forall i | 0 <= i < count' ensures s[i] == t[i] {
      SlotBack(head, count, at, i);
    }
  }

  /** How far slot i from head is past slot at. */
  lemma SlotBack(head: nat, count: nat, at: nat, i: nat)
    requires head < PIPE_SIZE && at == Slot(head, count) && count <= PIPE_SIZE && i < PIPE_SIZE
    ensures (Slot(head, i) + PIPE_SIZE - at) % PIPE_SIZE == if i >= count then i - count else PIPE_SIZE - count + i
  {
  }

  lemma TailStays(head: nat, count: nat, n: nat, head': nat, count': nat)
    requires head < PIPE_SIZE && n <= count <= PIPE_SIZE && head' == Slot(head, n) && count' == count - n
    ensures Slot(head', count') == Slot(head, count)
  {
  }

  lemma TailMoves(head: nat, count: nat, n: nat, tail: nat, count': nat)
    requires head < PIPE_SIZE && tail == Slot(head, count) && count' == count + n
    ensures Slot(tail, n) == Slot(head, count')
  {
  }

  class Ring {
    const buf: array<Byte>
    var head: nat
    var tail: nat
    var count: nat
    var readOpen: bool
    var writeOpen: bool

    ghost predicate Valid()
      reads this, buf
    {
      buf.Length == PIPE_SIZE && head < PIPE_SIZE && count <= PIPE_SIZE && tail == Slot(head, count)
    }

    ghost function Contents(): Queue
      requires Valid()
      reads this, buf
    {
      Queue(Stored(buf[..], head, count), readOpen, writeOpen)
    }

    constructor ()
      ensures Valid() && fresh(buf) && Contents() == Queue([], true, true)
    {
      buf := new Byte[PIPE_SIZE](_ => 0);
      head, tail, count := 0, 0, 0;
      readOpen, writeOpen := true, true;
    }

    /** The locked section of pipe_read for n bytes. */
    method Read(n: nat) returns (turn: Turn)
      requires Valid()
      modifies this`head, this`count
      ensures Valid() && turn == Answer(old(Contents()), ReadOp(n)) && Contents() == After(old(Contents()), ReadOp(n))
    {
      if count == 0 {
        return if writeOpen then Sleep else Eof;
      }
      var toRead := if n > count then count else n;
      var first := if PIPE_SIZE - head > toRead then toRead else PIPE_SIZE - head;
      var bytes := buf[..][head..head + first] + buf[..][..toRead - first];
      var head', count' := (head + toRead) % PIPE_SIZE, count - toRead;
      TakeOldest(buf[..], head, count, toRead, first, head', count');
      head, count := head', count';
      turn := Data(bytes);
    }

    /** memcpy of src into the buffer at an offset. */
    method CopyIn(at: nat, src: seq<Byte>)
      requires at + |src| <= buf.Length
      modifies buf
      ensures forall s :: 0 <= s < buf.Length ==> buf[s] == if at <= s < at + |src| then src[s - at] else old(buf[s])
    {
      var i := 0;
      while i < |src|
        invariant i <= |src|
        invariant forall s :: 0 <= s < buf.Length ==> buf[s] == if at <= s < at + i then src[s - at] else old(buf[s])
      {
        buf[at + i] := src[i];
        i := i + 1;
      }
    }

    /** The two copies, up to the end of the buffer and from its start. */
    method CopyRing(at: nat, src: seq<Byte>)
      requires buf.Length == PIPE_SIZE && at < PIPE_SIZE && |src| <= PIPE_SIZE
      modifies buf
      ensures buf[..] == RingPut(old(buf[..]), at, src)
    {
      var first := if PIPE_SIZE - at > |src| then |src| else PIPE_SIZE - at;
      CopyIn(at, src[..first]);
      if |src| > first {
        CopyIn(0, src[first..]);
      }
      forall s | 0 <= s < PIPE_SIZE ensures buf[s] == RingPut(old(buf[..]), at, src)[s] {
        RingSlot(at, |src|, first, s);
      }
    }

    /** The locked section at the entry of pipe_write. */
    method Enter() returns (turn: Turn)
      requires Valid()
      ensures turn == Answer(Contents(), EnterOp)
    {
      turn := if readOpen then Ready else Broken;
    }

    /** One locked section in the loop of pipe_write: as much of src as there is room for. */
    method Write(src: seq<Byte>) returns (turn: Turn)
      requires Valid()
      modifies this`tail, this`count, buf
      ensures Valid() && turn == Answer(old(Contents()), WriteOp(src))
      ensures Contents() == After(old(Contents()), WriteOp(src))
    {
      if |src| == 0 { return Took(0); }
      if count == PIPE_SIZE {
        assert src[..0] == [];
        return if readOpen then Full else Broken;
      }
      var space := PIPE_SIZE - count;
      var n := if |src| > space then space else |src|;
      var bytes, count' := src[..n], count + n;
      StoredMore(buf[..], head, count, tail, bytes, count');
      TailMoves(head, count, n, tail, count');
      CopyRing(tail, bytes);
      tail, count := (tail + n) % PIPE_SIZE, count';
      turn := Took(n);
    }

    /** pipe_close; true if both ends are closed now and the ring is freed. */
    method Close(readEnd: bool) returns (turn: Turn)
      requires Valid()
      modifies this`readOpen, this`writeOpen
      ensures Valid() && turn == Answer(old(Contents()), CloseOp(readEnd))
      ensures Contents() == After(old(Contents()), CloseOp(readEnd))
    {
      if readEnd { readOpen := false; } else { writeOpen := false; }
      turn := Shut(!readOpen && !writeOpen);
    }

    method Serve(op: Op) returns (turn: Turn)
      requires Valid()
      modifies this`head, this`tail, this`count, this`readOpen, this`writeOpen, buf
      ensures Valid() && turn == Answer(old(Contents()), op) && Contents() == After(old(Contents()), op)
    {
      match op {
        case ReadOp(n) => turn := Read(n);
        case EnterOp => turn := Enter();
        case WriteOp(src) => turn := Write(src);
        case CloseOp(readEnd) => turn := Close(readEnd);
      }
    }
  }

  // ---------- Whole runs ----------

  lemma {:induction false} AnswersSnoc(q: Queue, ops: seq<Op>, op: Op)
    ensures Answers(q, ops + [op]) == Answers(q, ops) + [Answer(Final(q, ops), op)]
    ensures Final(q, ops + [op]) == After(Final(q, ops), op)
    decreases |ops|
  {
    if ops == [] {
      assert (ops + [op])[1..] == [];
    } else {
      AnswersSnoc(After(q, ops[0]), ops[1..], op);
      assert (ops + [op])[1..] == ops[1..] + [op];
    }
  }

  /** A ring from its creation on, serving the operations in turn. */
  method Drive(ops: seq<Op>) returns (ring: Ring, turns: seq<Turn>)
    ensures ring.Valid() && fresh(ring)
    ensures turns == Answers(Queue([], true, true), ops) && ring.Contents() == Final(Queue([], true, true), ops)
  {
    ring := new Ring();
    ghost var empty := Queue([], true, true);
    turns := [];
    var i := 0;
    while i < |ops|
      invariant 0 <= i <= |ops| && ring.Valid() && fresh(ring) && fresh(ring.buf)
      invariant turns == Answers(empty, ops[..i]) && ring.Contents() == Final(empty, ops[..i])
    {
      AnswersSnoc(empty, ops[..i], ops[i]);
      assert ops[..i + 1] == ops[..i] + [ops[i]];
      var turn := ring.Serve(ops[i]);
      turns := turns + [turn];
      i := i + 1;
    }
    assert ops[..i] == ops;
  }

  /** Any interleaving of locked sections answers as the queue does. */
  method Run(ops: seq<Op>) returns (turns: seq<Turn>, stored: seq<Byte>)
    ensures turns == Answers(Queue([], true, true), ops) && stored == Final(Queue([], true, true), ops).bytes
    ensures Returned(turns) + stored == Taken(ops, turns) && |stored| <= PIPE_SIZE
    ensures forall i :: 0 <= i < |ops| && turns[i] == Eof ==> Returned(turns[..i]) == Taken(ops[..i], turns[..i])
  {
    var ring;
    ring, turns := Drive(ops);
    Conserved(Queue([], true, true), ops);
    EofAll(Queue([], true, true), ops);
    stored := Stored(ring.buf[..], ring.head, ring.count);
  }
}
