/**
 The NVMe completion ring: a device that posts completions with a phase tag, as in section 4.6 of the NVM
 Express Base Specification 1.4, and the driver's head and phase.
 */
module Nvme {
  import opened Basics

  datatype Completion = Completion(command: nat, phase: bool)

  // ---------- Positions in the ring ----------

  lemma StepDiv(k: nat, n: nat)
    requires n > 0
    ensures if (k + 1) % n == 0 then (k + 1) / n == k / n + 1 && k % n + 1 == n
      else (k + 1) / n == k / n && (k + 1) % n == k % n + 1
  {
    var q, r := k / n, k % n;
    assert k + 1 == n * q + (r + 1);
    if r + 1 == n {
      assert k + 1 == n * (q + 1);
      DivIs(k + 1, n, q + 1, 0);
    } else {
      DivIs(k + 1, n, q, r + 1);
    }
  }

  /** One lap later: same slot, next round. */
  lemma LapDiv(k: nat, n: nat)
    requires n > 0
    ensures (k + n) / n == k / n + 1 && (k + n) % n == k % n
  {
    var q, r := k / n, k % n;
    assert k + n == n * (q + 1) + r;
    DivIs(k + n, n, q + 1, r);
  }

  /** Within a lap slots do not repeat. */
  lemma SlotsApart(i: nat, j: nat, n: nat)
    requires n > 0 && i < j < i + n
    ensures i % n != j % n
  {
    var p, q := i / n, j / n;
    assert i == n * p + i % n && j == n * q + j % n;
    if p < q { MulMono(n, p + 1, q); }
    if q < p { MulMono(n, q + 1, p); }
  }

  /** The tag of completion number k: set in the first lap, inverted with each wrap. */
  function PhaseOf(k: nat, n: nat): bool
    requires n > 0
  {
    (k / n) % 2 == 0
  }

  // ---------- The ring as a value ----------

  /** The last entries posted are in their slots, and slots not reached yet still have the tag clear. */
  ghost predicate RingOk(ring: seq<Completion>, posted: seq<nat>) {
    && |ring| > 0
    && (forall k: nat {:trigger posted[k]} ::
      k < |posted| <= k + |ring| ==> ring[k % |ring|] == Completion(posted[k], PhaseOf(k, |ring|)))
    && (forall s :: |posted| <= s < |ring| ==> !ring[s].phase)
  }

  lemma PostKeeps(ring: seq<Completion>, posted: seq<nat>, command: nat, n: nat, at: nat)
    requires RingOk(ring, posted) && n == |posted| && at == n % |ring|
    ensures at < |ring| && RingOk(ring[at := Completion(command, PhaseOf(n, |ring|))], posted + [command])
  {
    var size := |ring|;
    var ring', posted' := ring[at := Completion(command, PhaseOf(n, size))], posted + [command];
    forall k: nat | k < |posted'| <= k + size ensures ring'[k % size] == Completion(posted'[k], PhaseOf(k, size)) {
      if k < n { SlotsApart(k, n, size); assert posted'[k] == posted[k]; }
    }
    forall s | |posted'| <= s < size ensures !ring'[s].phase {
      DivIs(n, size, 0, n);
    }
  }

  /** The slot of completion number k shows the tag of its round exactly when k has been posted. */
  lemma FreshIff(ring: seq<Completion>, posted: seq<nat>, k: nat)
    requires RingOk(ring, posted) && k <= |posted| < k + |ring|
    ensures ring[k % |ring|].phase == PhaseOf(k, |ring|) <==> k < |posted|
    ensures k < |posted| ==> ring[k % |ring|].command == posted[k]
  {
    var size := |ring|;
    if k == |posted| {
      if k >= size {
        LapDiv(k - size, size);
        assert ring[(k - size) % size] == Completion(posted[k - size], PhaseOf(k - size, size));
      } else {
        DivIs(k, size, 0, k);
      }
    } else {
      assert ring[k % size] == Completion(posted[k], PhaseOf(k, size));
    }
  }

  // ---------- What the queue is for ----------

  /** Commands wait in posting order.  The device has not been told yet of the last lag commands taken. */
  datatype Queue = Queue(waiting: seq<nat>, lag: nat)
  datatype Op = PostOp(command: nat) | PollOp | BellOp
  datatype Result = Posted(ok: bool) | Polled(command: Option<nat>) | Told(any: bool)

  /** The device posts while fewer than n - 1 slots are in use as far as it knows. */
  function Answer(q: Queue, n: nat, op: Op): Result {
    match op
    case PostOp(_) => Posted(|q.waiting| + q.lag + 1 < n)
    case PollOp => Polled(if q.waiting == [] then None else Some(q.waiting[0]))
    case BellOp => Told(q.lag > 0)
  }

  function After(q: Queue, n: nat, op: Op): Queue {
    match op
    case PostOp(command) => if |q.waiting| + q.lag + 1 < n then Queue(q.waiting + [command], q.lag) else q
    case PollOp => if q.waiting == [] then q else Queue(q.waiting[1..], q.lag + 1)
    case BellOp => if q.lag > 0 then Queue(q.waiting, q.lag - 1) else q
  }

  // ---------- Device and driver ----------

  class CompletionQueue {
    const size: nat
    const ring: array<Completion>
    /** The driver's side: where to look next, and the tag a new entry there has. */
    var head: nat
    var phase: bool
    /** Doorbell writes on their way to the device, oldest first. */
    var bells: seq<nat>
    /** The device's side: where to post next, with which tag, and the head it was last told. */
    var tail: nat
    var tag: bool
    var known: nat
    /** Commands in posting order; how many the driver has taken; how many of these the device knows of. */
    ghost var posted: seq<nat>
    ghost var taken: nat
    ghost var told: nat

    ghost predicate Valid()
      reads this, ring
    {
      && size >= 2 && ring.Length == size && told <= taken <= |posted| < told + size
      && head == taken % size && phase == PhaseOf(taken, size)
      && tail == |posted| % size && tag == PhaseOf(|posted|, size) && known == told % size
      && BellsOk(bells, told, taken, size) && RingOk(ring[..], posted)
    }

    /** What the driver and the device make of the ring: the commands that wait, and how many of those taken the
        device does not know of. */
    ghost function View(): Queue
      requires told <= taken <= |posted|
      reads this
    {
      Queue(posted[taken..], taken - told)
    }

    /** nvme_queue_init: entries zeroed, phase 1. */
    constructor (n: nat)
      requires n >= 2
      ensures Valid() && fresh(ring) && size == n && View() == Queue([], 0)
    {
      size := n;
      ring := new Completion[n](_ => Completion(0, false));
      head, phase, tail, tag, known := 0, true, 0, true, 0;
      bells, posted, taken, told := [], [], 0, 0;
    }

    /** The device posts a completion unless the queue is full as far as it knows. */
    method Post(command: nat) returns (ok: bool)
      requires Valid()
      modifies this`tail, this`tag, this`posted, ring
      ensures Valid() && Posted(ok) == Answer(old(View()), size, PostOp(command))
      ensures View() == After(old(View()), size, PostOp(command))
    {
      ok := (tail + 1) % size != known;
      FullIff(|posted|, told, size, tail, known);
      if !ok { return; }
      PostKeeps(ring[..], posted, command, |posted|, tail);
      StepPhase(|posted|, size, tail);
      ring[tail] := Completion(command, tag);
      tail := (tail + 1) % size;
      if tail == 0 { tag := !tag; }
      posted := posted + [command];
    }

    /** One look of nvme_wait_completion at the slot under the head. */
    method Poll() returns (result: Option<Completion>)
      requires Valid()
      modifies this`head, this`phase, this`taken, this`bells
      ensures Valid() && (result.None? ==> unchanged(this))
      ensures Polled(if result.Some? then Some(result.value.command) else None) == Answer(old(View()), size, PollOp)
      ensures View() == After(old(View()), size, PollOp)
    {
      var entry := ring[head];
      FreshIff(ring[..], posted, taken);
      if entry.phase != phase { return None; }
      StepPhase(taken, size, head);
      head := (head + 1) % size;
      if head == 0 { phase := !phase; }
      taken := taken + 1;
      bells := bells + [head];
      result := Some(entry);
    }

    /** The oldest doorbell write reaches the device. */
    method Deliver() returns (any: bool)
      requires Valid()
      modifies this`bells, this`known, this`told
      ensures Valid() && Told(any) == Answer(old(View()), size, BellOp)
      ensures View() == After(old(View()), size, BellOp)
    {
      any := |bells| > 0;
      if any {
        known, bells, told := bells[0], bells[1..], told + 1;
      }
    }
  }

  /** One doorbell write for each completion taken that the device does not know of, each with the head after it. */
  ghost predicate BellsOk(bells: seq<nat>, told: nat, taken: nat, size: nat)
    requires size > 0
  {
    |bells| == taken - told && forall i, k: nat {:trigger bells[i], k % size} ::
      0 <= i < |bells| && k == told + i + 1 ==> bells[i] == k % size
  }

  /** Head or tail one further, with its tag inverted at the wrap. */
  lemma StepPhase(k: nat, n: nat, at: nat)
    requires n > 0 && at == k % n
    ensures (k + 1) % n == (at + 1) % n
    ensures PhaseOf(k + 1, n) == if (at + 1) % n == 0 then !PhaseOf(k, n) else PhaseOf(k, n)
  {
    StepDiv(k, n);
    if at + 1 == n { DivIs(at + 1, n, 1, 0); } else { DivIs(at + 1, n, 0, at + 1); }
  }

  /** The slot after the tail is the head exactly when all slots but one are in use. */
  lemma FullIff(k: nat, told: nat, n: nat, tail: nat, known: nat)
    requires n >= 2 && told <= k < told + n && tail == k % n && known == told % n
    ensures (tail + 1) % n == known <==> k + 1 == told + n
  {
    StepPhase(k, n, tail);
    if k + 1 == told + n { LapDiv(told, n); } else { SlotsApart(told, k + 1, n); }
  }

  // ---------- Whole runs ----------

  function Answers(q: Queue, n: nat, ops: seq<Op>): (results: seq<Result>)
    ensures |results| == |ops|
    decreases |ops|
  {
    if ops == [] then [] else [Answer(q, n, ops[0])] + Answers(After(q, n, ops[0]), n, ops[1..])
  }

  function Final(q: Queue, n: nat, ops: seq<Op>): Queue
    decreases |ops|
  {
    if ops == [] then q else Final(After(q, n, ops[0]), n, ops[1..])
  }

  lemma {:induction false} AnswersSnoc(q: Queue, n: nat, ops: seq<Op>, op: Op)
    ensures Answers(q, n, ops + [op]) == Answers(q, n, ops) + [Answer(Final(q, n, ops), n, op)]
    ensures Final(q, n, ops + [op]) == After(Final(q, n, ops), n, op)
    decreases |ops|
  {
    if ops == [] {
      assert (ops + [op])[1..] == [];
    } else {
      AnswersSnoc(After(q, n, ops[0]), n, ops[1..], op);
      assert (ops + [op])[1..] == ops[1..] + [op];
    }
  }

  /** The command a step posts, and the one it takes. */
  function In(op: Op, r: Result): seq<nat> {
    if op.PostOp? && r == Posted(true) then [op.command] else []
  }

  function Out(r: Result): seq<nat> {
    if r.Polled? && r.command.Some? then [r.command.value] else []
  }

  function PostedBy(ops: seq<Op>, results: seq<Result>): seq<nat>
    requires |ops| == |results|
  {
    if ops == [] then [] else In(ops[0], results[0]) + PostedBy(ops[1..], results[1..])
  }

  function TakenBy(results: seq<Result>): seq<nat> {
    if results == [] then [] else Out(results[0]) + TakenBy(results[1..])
  }

  lemma OneStep(q: Queue, n: nat, op: Op)
    ensures Out(Answer(q, n, op)) + After(q, n, op).waiting == q.waiting + In(op, Answer(q, n, op))
  {
  }

  /** Each command posted is taken once, in posting order, or still waits. */
  lemma {:induction false} OnceInOrder(q: Queue, n: nat, ops: seq<Op>)
    ensures TakenBy(Answers(q, n, ops)) + Final(q, n, ops).waiting == q.waiting + PostedBy(ops, Answers(q, n, ops))
    decreases |ops|
  {
    if ops == [] {
      assert TakenBy([]) + q.waiting == q.waiting == q.waiting + PostedBy([], []);
    } else {
      var next, r, rest := After(q, n, ops[0]), Answer(q, n, ops[0]), ops[1..];
      var tail := Answers(next, n, rest);
      OneStep(q, n, ops[0]);
      OnceInOrder(next, n, rest);
      assert Answers(q, n, ops)[1..] == tail;
      Regroup(Out(r), q.waiting, In(ops[0], r), next.waiting, TakenBy(tail), Final(next, n, rest).waiting,
        PostedBy(rest, tail));
    }
  }

  /** However late the doorbell: the ring never holds more than n - 1 commands the device takes for waiting. */
  lemma {:induction false} NeverOverfull(q: Queue, n: nat, ops: seq<Op>)
    requires |q.waiting| + q.lag < n
    ensures |Final(q, n, ops).waiting| + Final(q, n, ops).lag < n
    decreases |ops|
  {
    if ops != [] { NeverOverfull(After(q, n, ops[0]), n, ops[1..]); }
  }

  /** Doorbell writes that arrived. */
  function Bells(results: seq<Result>): nat {
    if results == [] then 0 else (if results[0] == Told(true) then 1 else 0) + Bells(results[1..])
  }

  lemma {:induction false} AnswersAt(q: Queue, n: nat, ops: seq<Op>, i: nat)
    requires i < |ops|
    ensures Answers(q, n, ops)[i] == Answer(Final(q, n, ops[..i]), n, ops[i])
    ensures Answers(q, n, ops)[..i] == Answers(q, n, ops[..i])
    decreases |ops|
  {
    if i > 0 {
      AnswersAt(After(q, n, ops[0]), n, ops[1..], i - 1);
      assert ops[..i][1..] == ops[1..][..i - 1];
    }
  }

  /** The device lags behind by the completions taken whose doorbell writes have not arrived. */
  lemma {:induction false} LagAfter(q: Queue, n: nat, ops: seq<Op>)
    ensures var results := Answers(q, n, ops);
      Final(q, n, ops).lag == q.lag + |TakenBy(results)| - Bells(results)
    decreases |ops|
  {
    if ops != [] {
      LagAfter(After(q, n, ops[0]), n, ops[1..]);
      assert Answers(q, n, ops)[1..] == Answers(After(q, n, ops[0]), n, ops[1..]);
    }
  }

  /** Every answer in terms of what was posted, taken and told before: a poll takes the oldest command not yet taken,
      whenever there is one; a command is posted exactly if fewer than n - 1 are posted that the device has not been
      told are taken; and a doorbell write arrives exactly if one is under way. */
  lemma AnswersMean(q: Queue, n: nat, ops: seq<Op>, i: nat)
    requires i < |ops|
    ensures var results := Answers(q, n, ops);
      var all, taken := q.waiting + PostedBy(ops[..i], results[..i]), |TakenBy(results[..i])|;
      var told := Bells(results[..i]);
      && taken <= |all| && TakenBy(results[..i]) == all[..taken] && told <= q.lag + taken
      && (ops[i].PollOp? ==> results[i] == Polled(if taken < |all| then Some(all[taken]) else None))
      && (ops[i].PostOp? ==> results[i] == Posted(|all| + q.lag + 1 < n + told))
      && (ops[i].BellOp? ==> results[i] == Told(told < q.lag + taken))
  {
    AnswersAt(q, n, ops, i);
    OnceInOrder(q, n, ops[..i]);
    LagAfter(q, n, ops[..i]);
    var results := Answers(q, n, ops);
    var all, out, left :=
      q.waiting + PostedBy(ops[..i], results[..i]), TakenBy(results[..i]), Final(q, n, ops[..i]).waiting;
    assert out + left == all;
    assert all[..|out|] == out && all[|out|..] == left;
  }

  method Step(q: CompletionQueue, op: Op) returns (r: Result)
    requires q.Valid()
    modifies q, q.ring
    ensures q.Valid() && r == Answer(old(q.View()), q.size, op) && q.View() == After(old(q.View()), q.size, op)
  {
    match op {
      case PostOp(command) =>
        var ok := q.Post(command);
        r := Posted(ok);
      case PollOp =>
        var c := q.Poll();
        r := Polled(if c.Some? then Some(c.value.command) else None);
      case BellOp =>
        var any := q.Deliver();
        r := Told(any);
    }
  }

  /** Any interleaving of device, driver and doorbell writes under way answers as the queue does. */
  method Run(n: nat, ops: seq<Op>) returns (results: seq<Result>)
    requires n >= 2
    ensures results == Answers(Queue([], 0), n, ops)
    ensures TakenBy(results) + Final(Queue([], 0), n, ops).waiting == PostedBy(ops, results)
  {
    var q := new CompletionQueue(n);
    ghost var q0 := Queue([], 0);
    results := [];
    var i := 0;
    while i < |ops|
      invariant 0 <= i <= |ops| && q.Valid() && fresh(q) && fresh(q.ring) && q.size == n
      invariant results == Answers(q0, n, ops[..i]) && q.View() == Final(q0, n, ops[..i])
    {
      AnswersSnoc(q0, n, ops[..i], ops[i]);
      assert ops[..i + 1] == ops[..i] + [ops[i]];
      var r := Step(q, ops[i]);
      results := results + [r];
      i := i + 1;
    }
    assert ops[..i] == ops;
    OnceInOrder(q0, n, ops);
    assert [] + PostedBy(ops, results) == PostedBy(ops, results);
  }
}
