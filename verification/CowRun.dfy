/**
 Whole runs: every interleaving of fork, loads, stores, mapping, unmapping and exit over the lazily copied
 memory answers exactly as a machine whose fork copies every page at once.
 */
module CowRun {
  import opened Basics
  import opened PageWalk
  import opened PageFlat
  import opened PageClone
  import opened ForkCost
  import opened CowState
  import opened CowProgress
  import opened AddressSpace

  // ---------- The eager machine ----------

  /** One address space: its contents page by page, and the pages that are mapped. */
  datatype Space = Space(read: nat -> Page, mapped: set<nat>)
  type Spaces = map<nat, Space>

  datatype Op = Fork(root: nat) | Load(root: nat, v: nat, off: nat) | Store(root: nat, v: nat, off: nat, b: bv8)
              | Map(root: nat, v: nat) | Unmap(root: nat, v: nat) | Exit(root: nat)

  /** What an operation answered; Refused means out of memory, or an access outside the user half. */
  datatype Answer = Child(id: nat) | Byte(b: bv8) | Done | Refused

  function Overwrite(f: nat -> Page, v: nat, p: Page): nat -> Page {
    w => if w == v then p else f(w)
  }

  /** Page v is mapped and holds p. */
  function Put(s: Space, v: nat, p: Page): Space {
    Space(Overwrite(s.read, v, p), s.mapped + {v})
  }

  /** The eager machine can give this answer. */
  predicate Answers(m: Spaces, op: Op, a: Answer) {
    a == Refused || (op.root in m &&
      match op
      case Fork(_) => a.Child? && a.id !in m
      case Load(r, v, off) => off < 4096 && a == Byte(m[r].read(v)[off])
      case Store(_, _, off, _) => off < 4096 && a == Done
      case Map(_, _) => a == Done
      case Unmap(_, _) => a == Done
      case Exit(_) => a == Done)
  }

  /** And goes on like this: fork copies the whole address space. */
  function Next(m: Spaces, op: Op, a: Answer): Spaces {
    if a == Refused || op.root !in m then m
    else match op
      case Fork(r) => if a.Child? then m[a.id := m[r]] else m
      case Load(r, v, _) => m[r := m[r].(mapped := m[r].mapped + {v})]
      case Store(r, v, off, b) => m[r := Put(m[r], v, PutByte(m[r].read(v), off, b))]
      case Map(r, v) => m[r := Put(m[r], v, ZeroPage())]
      case Unmap(r, v) => m[r := Space(Overwrite(m[r].read, v, ZeroPage()), m[r].mapped - {v})]
      case Exit(r) => m - {r}
  }

  predicate Explains(m: Spaces, ops: seq<Op>, log: seq<Answer>)
    requires |ops| == |log|
    decreases |ops|
  {
    ops == [] || (Answers(m, ops[0], log[0]) && Explains(Next(m, ops[0], log[0]), ops[1..], log[1..]))
  }

  function After(m: Spaces, ops: seq<Op>, log: seq<Answer>): Spaces
    requires |ops| == |log|
    decreases |ops|
  {
    if ops == [] then m else After(Next(m, ops[0], log[0]), ops[1..], log[1..])
  }

  // ---------- Agreement ----------

  /** Every address space reads everywhere in its user half what the eager machine holds there. */
  ghost predicate Reads(c: Cow, m: Spaces) {
    forall r: nat, v: nat {:trigger m[r].read(v)} {:trigger View(c, (r, v))} ::
      r in m && UserPage(v) ==> View(c, (r, v)) == m[r].read(v)
  }

  /** And maps there what that has mapped. */
  ghost predicate Maps(l: Leaves, m: Spaces) {
    forall r: nat, v: nat {:trigger v in m[r].mapped} {:trigger (r, v) in l} ::
      r in m && UserPage(v) ==> ((r, v) in l <==> v in m[r].mapped)
  }

  ghost predicate Agree(c: Cow, pl: Places, m: Spaces) {
    (forall r :: r in m <==> IsRoot(pl, r)) && Reads(c, m) && Maps(c.leaf, m)
  }

  lemma MapsSame(l: Leaves, l': Leaves, m: Spaces)
    requires Maps(l, m) && l'.Keys == l.Keys
    ensures Maps(l', m)
  {
    forall r: nat, v: nat | r in m && UserPage(v) ensures (r, v) in l' <==> v in m[r].mapped {
      assert (r, v) in l'.Keys <==> (r, v) in l.Keys;
    }
  }

  /** One page more, or one less. */
  lemma MapsPut(l: Leaves, l': Leaves, m: Spaces, root: nat, v: nat, s: Space)
    requires Maps(l, m) && root in m
    requires (l'.Keys == l.Keys + {(root, v)} && s.mapped == m[root].mapped + {v}) ||
             (l'.Keys == l.Keys - {(root, v)} && s.mapped == m[root].mapped - {v})
    ensures Maps(l', m[root := s])
  {
    forall r: nat, w: nat | r in m && UserPage(w) ensures (r, w) in l' <==> w in m[root := s][r].mapped {
      assert (r, w) in l <==> w in m[r].mapped;
      assert (r, w) in l'.Keys <==> (r, w) in l';
    }
  }

  lemma MapsFork(l: Leaves, l': Leaves, m: Spaces, root: nat, child: nat)
    requires Maps(l, m) && root in m && child !in m
    requires forall r: nat, v: nat :: (r, v) in l' <==> if r == child then (root, v) in l else (r, v) in l
    ensures Maps(l', m[child := m[root]])
  {
    var m' := m[child := m[root]];
    forall r: nat, v: nat | r in m' && UserPage(v) ensures (r, v) in l' <==> v in m'[r].mapped {
      assert (root, v) in l <==> v in m[root].mapped;
    }
  }

  lemma AgreeSame(c: Cow, pl: Places, c': Cow, pl': Places, m: Spaces)
    requires Agree(c, pl, m) && SameViews(c, c') && SameRoots(pl, pl') && c'.leaf.Keys == c.leaf.Keys
    ensures Agree(c', pl', m)
  {
    MapsSame(c.leaf, c'.leaf, m);
  }

  lemma AgreeFork(c: Cow, pl: Places, c': Cow, pl': Places, m: Spaces, root: nat, child: nat)
    requires Agree(c, pl, m) && Counted(c) && Forked(c, c', root, child) && root in m && child !in m
    requires forall r :: IsRoot(pl', r) <==> r == child || IsRoot(pl, r)
    ensures Agree(c', pl', m[child := m[root]])
  {
    ForkReads(c, c', m, root, child);
    forall r: nat, v: nat ensures (r, v) in c'.leaf <==> if r == child then (root, v) in c.leaf else (r, v) in c.leaf {
      ForkedKeys(c, c', root, child, (r, v));
    }
    MapsFork(c.leaf, c'.leaf, m, root, child);
  }

  lemma ForkReads(c: Cow, c': Cow, m: Spaces, root: nat, child: nat)
    requires Reads(c, m) && Counted(c) && Forked(c, c', root, child) && root in m && child !in m
    ensures Reads(c', m[child := m[root]])
  {
    var m' := m[child := m[root]];
    forall r: nat, v: nat | r in m' && UserPage(v) ensures View(c', (r, v)) == m'[r].read(v) {
      ForkedView(c, c', root, child, (r, v));
    }
  }

  lemma AgreeExit(c: Cow, pl: Places, c': Cow, pl': Places, m: Spaces, root: nat)
    requires Agree(c, pl, m) && Counted(c) && TornDown(c, c', root) && root in m
    requires forall r :: IsRoot(pl', r) <==> r != root && IsRoot(pl, r)
    ensures Agree(c', pl', m - {root})
  {
    var m' := m - {root};
    forall r: nat, v: nat | r in m' && UserPage(v) ensures View(c', (r, v)) == m'[r].read(v) {
      TornDownView(c, c', root, (r, v));
    }
    forall r: nat, v: nat | r in m' && UserPage(v) ensures (r, v) in c'.leaf <==> v in m'[r].mapped {
      assert (r, v) in c.leaf <==> v in m[r].mapped;
    }
  }

  /** Page v of root reads p and is mapped; everything else is as it was. */
  lemma AgreePut(c: Cow, pl: Places, c': Cow, pl': Places, m: Spaces, root: nat, v: nat, p: Page)
    requires Agree(c, pl, m) && root in m && SameRoots(pl, pl') && c'.leaf.Keys == c.leaf.Keys + {(root, v)}
    requires forall k :: View(c', k) == if k == (root, v) then p else View(c, k)
    ensures Agree(c', pl', m[root := Put(m[root], v, p)])
  {
    MapsPut(c.leaf, c'.leaf, m, root, v, Put(m[root], v, p));
  }

  lemma AgreeMap(c: Cow, pl: Places, c': Cow, pl': Places, m: Spaces, root: nat, v: nat, ok: bool)
    requires Agree(c, pl, m) && root in m && SameRoots(pl, pl') && FreshAt(c, c', (root, v), ok)
    ensures Agree(c', pl', if ok then Next(m, Map(root, v), Done) else m)
  {
    if ok { AgreePut(c, pl, c', pl', m, root, v, ZeroPage()); } else { AgreeSame(c, pl, c', pl', m); }
  }

  lemma AgreeLoad(c: Cow, pl: Places, c': Cow, pl': Places, m: Spaces, root: nat, v: nat, off: nat, b: bv8)
    requires Agree(c, pl, m) && root in m && SameRoots(pl, pl') && SameViews(c, c')
    requires c'.leaf.Keys == c.leaf.Keys + {(root, v)}
    ensures Agree(c', pl', Next(m, Load(root, v, off), Byte(b)))
  {
    MapsPut(c.leaf, c'.leaf, m, root, v, m[root].(mapped := m[root].mapped + {v}));
  }

  /** What a store costs and adds depends on whether the page is mapped, which both machines agree on. */
  lemma StoreMapped(c: Cow, m: Spaces, root: nat, v: nat, off: nat, b: bv8)
    requires Maps(c.leaf, m) && root in m && UserPage(v)
    ensures (root, v) in c.leaf <==> Mapped(m, root, v)
    ensures NewSlack(c, (root, v)) == Extra(m, Store(root, v, off, b))
  {
    assert (root, v) in c.leaf <==> v in m[root].mapped;
  }

  lemma AgreeStored(c: Cow, pl: Places, c': Cow, pl': Places, m: Spaces, root: nat, v: nat, off: nat, b: bv8)
    requires Agree(c, pl, m) && root in m && UserPage(v) && SameRoots(pl, pl')
    requires StoredByte(c, c', (root, v), off, b, true)
    ensures Agree(c', pl', Next(m, Store(root, v, off, b), Done))
  {
    assert View(c, (root, v)) == m[root].read(v);
    AgreePut(c, pl, c', pl', m, root, v, PutByte(m[root].read(v), off, b));
  }

  lemma AgreeStore(c: Cow, pl: Places, c': Cow, pl': Places, m: Spaces, root: nat, v: nat, off: nat, b: bv8, ok: bool)
    requires Agree(c, pl, m) && root in m && UserPage(v) && SameRoots(pl, pl')
    requires StoredByte(c, c', (root, v), off, b, ok)
    ensures Agree(c', pl', if ok then Next(m, Store(root, v, off, b), Done) else m)
    ensures Accounted(c, c', Extra(m, Store(root, v, off, b))) && ((root, v) in c.leaf <==> Mapped(m, root, v))
  {
    StoreMapped(c, m, root, v, off, b);
    if ok { AgreeStored(c, pl, c', pl', m, root, v, off, b); } else { AgreeSame(c, pl, c', pl', m); }
  }

  lemma AgreeClear(c: Cow, c': Cow, pl: Places, m: Spaces, root: nat, v: nat)
    requires Agree(c, pl, m) && root in m && Counted(c) && Sole(c.leaf) && c' == ClearStep(c, (root, v))
    ensures Agree(c', pl, Next(m, Unmap(root, v), Done)) && Counted(c') && Sole(c'.leaf)
  {
    ClearKeeps(c, (root, v));
    var s := Space(Overwrite(m[root].read, v, ZeroPage()), m[root].mapped - {v});
    assert c'.leaf.Keys == c.leaf.Keys - {(root, v)};
    MapsPut(c.leaf, c'.leaf, m, root, v, s);
    ReadsPut(c, c', m, root, v, ZeroPage(), s);
  }

  lemma ReadsPut(c: Cow, c': Cow, m: Spaces, root: nat, v: nat, p: Page, s: Space)
    requires Reads(c, m) && root in m && s.read == Overwrite(m[root].read, v, p)
    requires forall k :: View(c', k) == if k == (root, v) then p else View(c, k)
    ensures Reads(c', m[root := s])
  {
  }

  /** One address space that reads zero everywhere. */
  function Boot(root: nat): Spaces {
    map[root := Space(_ => ZeroPage(), {})]
  }

  lemma AgreeBoot(c: Cow, pl: Places, root: nat)
    requires (forall r :: IsRoot(pl, r) <==> r == root) && (forall k :: View(c, k) == ZeroPage()) && c.leaf == map[]
    ensures Agree(c, pl, Boot(root)) && Boot(root).Keys == {root}
  {
  }

  /** The address spaces there are after an operation. */
  function NextLive(live: set<nat>, op: Op, a: Answer): set<nat> {
    if a == Refused || op.root !in live then live
    else if op.Fork? && a.Child? then live + {a.id}
    else if op.Exit? then live - {op.root}
    else live
  }

  lemma NextKeys(m: Spaces, op: Op, a: Answer)
    ensures Next(m, op, a).Keys == NextLive(m.Keys, op, a)
  {
  }

  // ---------- Frames ----------

  /** An operation on an address space that is not there, or on a page or byte that is not the user's. */
  ghost predicate Misused(m: Spaces, op: Op) {
    op.root !in m ||
    match op
    case Fork(_) => false
    case Load(_, v, off) => !UserPage(v) || off >= 4096
    case Store(_, v, off, _) => !UserPage(v) || off >= 4096
    case Map(_, v) => !UserPage(v)
    case Unmap(_, v) => !UserPage(v)
    case Exit(_) => false
  }

  /** Page v of address space r is mapped. */
  predicate Mapped(m: Spaces, r: nat, v: nat) {
    r in m && v in m[r].mapped
  }

  /** The frames an operation may take when no address space has more than `tables` tables: a fork one for each
      table; a load from a mapped page none and a store to it one; any other access or mapping one for the page and
      one for each table below the PML4. */
  function Cost(m: Spaces, op: Op, tables: nat): nat {
    match op
    case Fork(_) => tables
    case Load(r, v, _) => if Mapped(m, r, v) then 0 else 4
    case Store(r, v, _, _) => if Mapped(m, r, v) then 1 else 4
    case Map(_, _) => 4
    case Unmap(_, _) => 0
    case Exit(_) => 0
  }

  /** The operation takes frames, and might take more than there are. */
  predicate TooDear(m: Spaces, op: Op, tables: nat, room: int) {
    Cost(m, op, tables) > 0 && room < Cost(m, op, tables)
  }

  /** An operation is refused only if it is misused, or if it takes frames and might take more than are left of
      `room`. */
  ghost predicate Afforded(m: Spaces, ops: seq<Op>, log: seq<Answer>, room: int, tables: nat)
    requires |ops| == |log|
    decreases |ops|
  {
    ops != [] ==>
    && (log[0] == Refused ==> Misused(m, ops[0]) || TooDear(m, ops[0], tables, room))
    && Afforded(Next(m, ops[0], log[0]), ops[1..], log[1..], room - Cost(m, ops[0], tables), tables + 4)
  }

  /** The frames a whole sequence may take. */
  function Budget(ops: seq<Op>, tables: nat): nat {
    if ops == [] then 0 else Cost(map[], ops[0], tables) + Budget(ops[1..], tables + 4)
  }

  /** The answers of a run without a refusal. */
  ghost predicate Served(m: Spaces, ops: seq<Op>, log: seq<Answer>)
    requires |ops| == |log|
    decreases |ops|
  {
    ops != [] ==>
    && (log[0] == Refused ==> Misused(m, ops[0]))
    && Served(Next(m, ops[0], log[0]), ops[1..], log[1..])
  }

  /** With the budget of the whole sequence in the pool nothing is refused but misuse. */
  lemma {:induction false} EnoughFrames(m: Spaces, ops: seq<Op>, log: seq<Answer>, room: int, tables: nat)
    requires |ops| == |log| && Afforded(m, ops, log, room, tables) && room >= Budget(ops, tables)
    ensures Served(m, ops, log)
    decreases |ops|
  {
    if ops != [] {
      EnoughFrames(Next(m, ops[0], log[0]), ops[1..], log[1..], room - Cost(m, ops[0], tables), tables + 4);
    }
  }

  /** Fewer frames can only be refused more. */
  lemma {:induction false} RoomMono(m: Spaces, ops: seq<Op>, log: seq<Answer>, room: int, less: int, tables: nat)
    requires |ops| == |log| && Afforded(m, ops, log, room, tables) && less <= room
    ensures Afforded(m, ops, log, less, tables)
    decreases |ops|
  {
    if ops != [] {
      var c := Cost(m, ops[0], tables);
      RoomMono(Next(m, ops[0], log[0]), ops[1..], log[1..], room - c, less - c, tables + 4);
    }
  }

  /** The pool that excuses a refusal: fewer frames than the tables of a fork, fewer than four for a page that is not
      mapped, and none at all for a store to a mapped page that is shared and read-only.  Nothing excuses the refusal
      of a load from a mapped page, of unmapping or of exit. */
  ghost predicate Excused(c: Cow, free: set<nat>, op: Op, tables: nat) {
    match op
    case Fork(_) => |free| < tables
    case Load(r, v, _) => (r, v) !in c.leaf && |free| < 4
    case Store(r, v, _, _) => Starved(c, free, (r, v))
    case Map(_, _) => |free| < 4
    case Unmap(_, _) => false
    case Exit(_) => false
  }

  // ---------- Counts ----------

  /** References beside its leaves that a page new in memory has: none for the copy of a shared page, one otherwise. */
  function Extra(m: Spaces, op: Op): nat {
    if op.Store? && Mapped(m, op.root, op.v) then 0 else 1
  }

  /** How an operation moves the counts: exactly with the leaves, but unmapping leaves the count of the page. */
  ghost predicate Balanced(c0: Cow, c: Cow, m: Spaces, op: Op, a: Answer) {
    if op.Unmap? && a != Refused then c == ClearStep(c0, (op.root, op.v)) else Accounted(c0, c, Extra(m, op))
  }

  /** No page has more than n references beside its leaves. */
  ghost predicate Within(c: Cow, n: nat) {
    forall x :: x in c.data && x in c.ref ==> Slack(c, x) <= n
  }

  /** Page x has a reference that no address space will ever give back. */
  ghost predicate Pinned(c: Cow, x: nat) {
    x in c.data && x in c.ref && Slack(c, x) >= 1
  }

  function Unmaps(ops: seq<Op>): nat {
    if ops == [] then 0 else (if ops[0].Unmap? then 1 else 0) + Unmaps(ops[1..])
  }

  lemma BalancedWithin(c0: Cow, c: Cow, m: Spaces, op: Op, a: Answer, n: nat)
    requires Balanced(c0, c, m, op, a) && Counted(c0) && n >= 1 && Within(c0, n)
    ensures Within(c, n + if op.Unmap? then 1 else 0)
  {
    forall x | x in c.data && x in c.ref ensures Slack(c, x) <= n + if op.Unmap? then 1 else 0 {
      if op.Unmap? && a != Refused {
        ClearAccount(c0, (op.root, op.v), x);
      } else if x in c0.data {
        assert CountKept(c0, c, x);
      }
    }
  }

  /** A page with such a reference never goes back to the pool. */
  lemma BalancedPins(c0: Cow, c: Cow, m: Spaces, op: Op, a: Answer, x: nat)
    requires Balanced(c0, c, m, op, a) && Counted(c0) && Pinned(c0, x)
    ensures Pinned(c, x)
  {
    if op.Unmap? && a != Refused {
      ClearAccount(c0, (op.root, op.v), x);
    } else {
      assert CountKept(c0, c, x);
    }
  }

  // ---------- Runs ----------

  /** One operation: the answer and state of the eager machine, a refusal only for misuse or an excuse, no more frames
      taken than it may cost, no address space more than four tables larger, and counts moved with the leaves. */
  method Step(mem: Memory, live: set<nat>, op: Op, ghost m: Spaces, ghost tables: nat)
    returns (a: Answer, live': set<nat>)
    requires mem.Valid() && Agree(mem.C(), mem.places, m) && live == m.Keys && Bounded(mem.places, tables)
    modifies mem
    ensures mem.Valid() && Answers(m, op, a) && Agree(mem.C(), mem.places, Next(m, op, a))
    ensures live' == Next(m, op, a).Keys && Balanced(old(mem.C()), mem.C(), m, op, a)
    ensures a == Refused ==> Misused(m, op) || Excused(old(mem.C()), old(mem.free), op, tables)
    ensures |mem.free| + Cost(m, op, tables) >= |old(mem.free)| && Bounded(mem.places, tables + 4)
  {
    a, live' := Refused, live;
    if op.root in live {
      match op {
        case Fork(r) => a := ForkStep(mem, r, m, tables);
        case Load(r, v, off) => a := LoadStep(mem, r, v, off, m, tables);
        case Store(r, v, off, b) => a := StoreStep(mem, r, v, off, b, m, tables);
        case Map(r, v) => a := MapFreshStep(mem, r, v, m, tables);
        case Unmap(r, v) => a := UnmapStep(mem, r, v, m);
        case Exit(r) =>
          ExitStep(mem, r, m, tables);
          a := Done;
      }
      NextKeys(m, op, a);
      live' := NextLive(live, op, a);
    } else {
      SameAccounted(mem.C(), mem.C(), Extra(m, op));
    }
  }

  method ExitStep(mem: Memory, r: nat, ghost m: Spaces, ghost tables: nat)
    requires mem.Valid() && Agree(mem.C(), mem.places, m) && r in m && Bounded(mem.places, tables)
    modifies mem
    ensures mem.Valid() && Agree(mem.C(), mem.places, m - {r}) && Balanced(old(mem.C()), mem.C(), m, Exit(r), Done)
    ensures |mem.free| >= |old(mem.free)| && Bounded(mem.places, tables)
  {
    mem.FreeSpace(r);
    AgreeExit(old(mem.C()), old(mem.places), mem.C(), mem.places, m, r);
    ConservedAccounted(old(mem.C()), mem.C(), Extra(m, Exit(r)));
    FewerBounded(old(mem.places), mem.places, tables);
    SmallerSet(old(mem.free), mem.free);
  }

  method ForkStep(mem: Memory, r: nat, ghost m: Spaces, ghost tables: nat) returns (a: Answer)
    requires mem.Valid() && Agree(mem.C(), mem.places, m) && r in m && Bounded(mem.places, tables)
    modifies mem
    ensures mem.Valid() && Answers(m, Fork(r), a) && Agree(mem.C(), mem.places, Next(m, Fork(r), a))
    ensures Balanced(old(mem.C()), mem.C(), m, Fork(r), a) && (a == Refused ==> |old(mem.free)| < tables)
    ensures |mem.free| + tables >= |old(mem.free)| && Bounded(mem.places, tables)
  {
    ghost var c, pl := mem.C(), mem.places;
    assert |Owned(pl, r)| <= tables;
    var ok, child := mem.Fork(r);
    ConservedAccounted(c, mem.C(), 1);
    if ok {
      AgreeFork(c, pl, mem.C(), mem.places, m, r, child);
      a := Child(child);
    } else {
      AgreeSame(c, pl, mem.C(), mem.places, m);
      a := Refused;
    }
  }

  method LoadStep(mem: Memory, r: nat, v: nat, off: nat, ghost m: Spaces, ghost tables: nat) returns (a: Answer)
    requires mem.Valid() && Agree(mem.C(), mem.places, m) && r in m && Bounded(mem.places, tables)
    modifies mem
    ensures mem.Valid() && Answers(m, Load(r, v, off), a) && Agree(mem.C(), mem.places, Next(m, Load(r, v, off), a))
    ensures Balanced(old(mem.C()), mem.C(), m, Load(r, v, off), a)
    ensures a == Refused ==> Misused(m, Load(r, v, off)) || ((r, v) !in old(mem.C()).leaf && |old(mem.free)| < 4)
    ensures |mem.free| + Cost(m, Load(r, v, off), tables) >= |old(mem.free)| && Bounded(mem.places, tables + 4)
  {
    a := Refused;
    ghost var c, pl := mem.C(), mem.places;
    SameAccounted(c, c, 1);
    if UserPage(v) && off < 4096 {
      assert (r, v) in c.leaf <==> v in m[r].mapped;
      var ok, b := mem.Load(r, v, off);
      SpentBounded(pl, old(mem.free), mem.places, mem.free, 4, tables);
      if ok {
        AgreeLoad(c, pl, mem.C(), mem.places, m, r, v, off, b);
        a := Byte(b);
      } else {
        AgreeSame(c, pl, mem.C(), mem.places, m);
      }
    }
  }

  method MapFreshStep(mem: Memory, r: nat, v: nat, ghost m: Spaces, ghost tables: nat) returns (a: Answer)
    requires mem.Valid() && Agree(mem.C(), mem.places, m) && r in m && Bounded(mem.places, tables)
    modifies mem
    ensures mem.Valid() && Agree(mem.C(), mem.places, Next(m, Map(r, v), a))
    ensures Balanced(old(mem.C()), mem.C(), m, Map(r, v), a)
    ensures a == Done || (a == Refused && (Misused(m, Map(r, v)) || |old(mem.free)| < 4))
    ensures |mem.free| + 4 >= |old(mem.free)| && Bounded(mem.places, tables + 4)
  {
    a := Refused;
    ghost var c, pl := mem.C(), mem.places;
    SameAccounted(c, c, 1);
    if UserPage(v) {
      var ok := mem.MapFresh(r, v);
      SpentBounded(pl, old(mem.free), mem.places, mem.free, 4, tables);
      AgreeMap(c, pl, mem.C(), mem.places, m, r, v, ok);
      if ok { a := Done; }
    }
  }

  method UnmapStep(mem: Memory, r: nat, v: nat, ghost m: Spaces) returns (a: Answer)
    requires mem.Valid() && Agree(mem.C(), mem.places, m) && r in m
    modifies mem
    ensures mem.Valid() && Agree(mem.C(), mem.places, Next(m, Unmap(r, v), a))
    ensures Balanced(old(mem.C()), mem.C(), m, Unmap(r, v), a)
    ensures a == Done || (a == Refused && Misused(m, Unmap(r, v)))
    ensures mem.free == old(mem.free) && mem.places == old(mem.places)
  {
    a := Refused;
    ghost var c := mem.C();
    SameAccounted(c, c, 1);
    if UserPage(v) {
      UserOwner(r, v);
      mem.UnmapPage(r, v);
      AgreeClear(c, mem.C(), mem.places, m, r, v);
      a := Done;
    }
  }

  method StoreStep(mem: Memory, r: nat, v: nat, off: nat, b: bv8, ghost m: Spaces, ghost tables: nat)
    returns (a: Answer)
    requires mem.Valid() && Agree(mem.C(), mem.places, m) && r in m && Bounded(mem.places, tables)
    modifies mem
    ensures mem.Valid() && Answers(m, Store(r, v, off, b), a)
    ensures Agree(mem.C(), mem.places, Next(m, Store(r, v, off, b), a))
    ensures Balanced(old(mem.C()), mem.C(), m, Store(r, v, off, b), a)
    ensures a == Refused ==> Misused(m, Store(r, v, off, b)) || Starved(old(mem.C()), old(mem.free), (r, v))
    ensures |mem.free| + Cost(m, Store(r, v, off, b), tables) >= |old(mem.free)| && Bounded(mem.places, tables + 4)
  {
    a := Refused;
    ghost var c, pl := mem.C(), mem.places;
    SameAccounted(c, c, Extra(m, Store(r, v, off, b)));
    if UserPage(v) && off < 4096 {
      var ok := mem.StoreByte(r, v, off, b);
      SpentBounded(pl, old(mem.free), mem.places, mem.free, StoreCost(c, (r, v)), tables);
      AgreeStore(c, pl, mem.C(), mem.places, m, r, v, off, b, ok);
      if ok { a := Done; }
    }
  }

  /** What excuses a refusal is a pool too small for what the operation may cost. */
  lemma ExcusedCost(c: Cow, pl: Places, free: set<nat>, m: Spaces, op: Op, tables: nat)
    requires Agree(c, pl, m) && !Misused(m, op) && Excused(c, free, op, tables)
    ensures TooDear(m, op, tables, |free|)
  {
    if op.Load? || op.Store? { assert (op.root, op.v) in c.leaf <==> op.v in m[op.root].mapped; }
  }

  /** A first step, then a run. */
  lemma RunCons(m: Spaces, ops: seq<Op>, a: Answer, rest: seq<Answer>, had: nat, left: nat, tables: nat)
    requires ops != [] && |rest| == |ops| - 1 && Answers(m, ops[0], a)
    requires Explains(Next(m, ops[0], a), ops[1..], rest)
    requires Afforded(Next(m, ops[0], a), ops[1..], rest, left, tables + 4)
    requires left + Cost(m, ops[0], tables) >= had
    requires a == Refused ==> Misused(m, ops[0]) || TooDear(m, ops[0], tables, had)
    ensures Explains(m, ops, [a] + rest) && Afforded(m, ops, [a] + rest, had, tables)
    ensures After(m, ops, [a] + rest) == After(Next(m, ops[0], a), ops[1..], rest)
  {
    assert ([a] + rest)[1..] == rest;
    RoomMono(Next(m, ops[0], a), ops[1..], rest, left, had - Cost(m, ops[0], tables), tables + 4);
  }

  /** No page has more references beside its leaves than at the start, but for one per unmapping; and a page that had
      one keeps it. */
  ghost predicate Ledger(c0: Cow, c: Cow, unmaps: nat) {
    && (forall n: nat :: n >= 1 && Within(c0, n) ==> Within(c, n + unmaps))
    && (forall x :: Pinned(c0, x) ==> Pinned(c, x))
  }

  lemma LedgerStep(c0: Cow, c: Cow, m: Spaces, op: Op, a: Answer)
    requires Balanced(c0, c, m, op, a) && Counted(c0)
    ensures Ledger(c0, c, if op.Unmap? then 1 else 0)
  {
    forall n: nat | n >= 1 && Within(c0, n) ensures Within(c, n + if op.Unmap? then 1 else 0) {
      BalancedWithin(c0, c, m, op, a, n);
    }
    forall x | Pinned(c0, x) ensures Pinned(c, x) { BalancedPins(c0, c, m, op, a, x); }
  }

  lemma LedgerChain(c0: Cow, c1: Cow, c2: Cow, j: nat, k: nat, n: nat)
    requires Ledger(c0, c1, j) && Ledger(c1, c2, k) && n == j + k
    ensures Ledger(c0, c2, n)
  {
    forall i: nat | i >= 1 && Within(c0, i) ensures Within(c2, i + n) {
      assert Within(c1, i + j);
      assert i + n == i + j + k;
    }
  }

  /** Any sequence of operations, from any agreeing start. */
  method Run(mem: Memory, live: set<nat>, ops: seq<Op>, ghost m: Spaces, ghost tables: nat) returns (log: seq<Answer>)
    requires mem.Valid() && Agree(mem.C(), mem.places, m) && live == m.Keys && Bounded(mem.places, tables)
    modifies mem
    ensures mem.Valid() && |log| == |ops| && Explains(m, ops, log) && Agree(mem.C(), mem.places, After(m, ops, log))
    ensures Afforded(m, ops, log, |old(mem.free)|, tables) && Ledger(old(mem.C()), mem.C(), Unmaps(ops))
    decreases ops
  {
    if ops == [] { return []; }
    ghost var c0, pl0, f0 := mem.C(), mem.places, mem.free;
    var a, live' := Step(mem, live, ops[0], m, tables);
    if a == Refused && !Misused(m, ops[0]) { ExcusedCost(c0, pl0, f0, m, ops[0], tables); }
    ghost var c1, next, left := mem.C(), Next(m, ops[0], a), |mem.free|;
    LedgerStep(c0, c1, m, ops[0], a);
    var rest := Run(mem, live', ops[1..], next, tables + 4);
    RunCons(m, ops, a, rest, |f0|, left, tables);
    LedgerChain(c0, c1, mem.C(), if ops[0].Unmap? then 1 else 0, Unmaps(ops[1..]), Unmaps(ops));
    log := [a] + rest;
  }

  /** From one empty address space, over any number of frames.  With the budget of the sequence in the pool every
      operation is served. */
  method RunFromBoot(frames: set<nat>, root: nat, ops: seq<Op>) returns (log: seq<Answer>)
    requires root in frames
    ensures |log| == |ops| && Explains(Boot(root), ops, log)
    ensures Afforded(Boot(root), ops, log, |frames| - 1, 1)
    ensures |frames| > Budget(ops, 1) ==> Served(Boot(root), ops, log)
  {
    var mem := new Memory(frames, root);
    ghost var room := |mem.free|;
    assert room == |frames| - 1;
    BootBounded(mem.places, root);
    AgreeBoot(mem.C(), mem.places, root);
    ghost var m := Boot(root);
    log := Run(mem, {root}, ops, m, 1);
    if |frames| > Budget(ops, 1) { EnoughFrames(m, ops, log, room, 1); }
  }

  lemma BootBounded(pl: Places, root: nat)
    requires pl == map[root := Place(Private(root), 3, 0)]
    ensures Bounded(pl, 1)
  {
    forall r ensures |Owned(pl, r)| <= 1 {
      SmallerSet(Owned(pl, r), {root});
    }
  }
}
