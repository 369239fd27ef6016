/** Group commit as a protocol: any number of file-system operations interleave begin_op, log_write and
    end_op; the last one out commits block by block; the machine may crash between any two block
    writes, also while it recovers from an earlier crash.  log_write is two steps, because it tests its
    guard before it takes the log's lock: several writers can pass the guard together.  The state
    carries a history of the calls that survive, so that recovered disks can be compared with the
    effect of whole operations. */
module LogProtocol {
  import opened RedoLog

  type OpId = nat

  datatype Event =
    | Begin(op: OpId)
    | Write(op: OpId, block: int, data: Block)
    | End(op: OpId)

  // ---------- histories ----------

  /** The plain meaning of a history: its writes, one after the other, on the disk d. */
  function Apply(d: Disk, h: seq<Event>): (r: Disk)
    ensures |r| == |d|
  {
    if h == [] then d else
      var r := Apply(d, h[..|h| - 1]);
      match h[|h| - 1]
      case Write(_, b, v) => if 0 <= b < |d| then r[b := v] else r
      case _ => r
  }

  function Begun(h: seq<Event>): set<OpId> {
    if h == [] then {} else
      var r := Begun(h[..|h| - 1]);
      if h[|h| - 1].Begin? then r + {h[|h| - 1].op} else r
  }

  /** Operations between their begin_op and their end_op. */
  function InProgress(h: seq<Event>): set<OpId> {
    if h == [] then {} else
      var r := InProgress(h[..|h| - 1]);
      match h[|h| - 1]
      case Begin(op) => r + {op}
      case Write(_, _, _) => r
      case End(op) => r - {op}
  }

  /** Each operation begins once, and writes and ends only while in progress. */
  predicate WellFormed(h: seq<Event>) {
    h == [] ||
    (var i := h[..|h| - 1];
     WellFormed(i)
     && match h[|h| - 1]
        case Begin(op) => op !in Begun(i)
        case Write(op, _, _) => op in InProgress(i)
        case End(op) => op in InProgress(i))
  }

  /** The calls of the operations in ops, in their order. */
  function CallsOf(h: seq<Event>, ops: set<OpId>): seq<Event> {
    if h == [] then [] else
      var r := CallsOf(h[..|h| - 1], ops);
      if h[|h| - 1].op in ops then r + [h[|h| - 1]] else r
  }

  lemma Snoc(h: seq<Event>, e: Event)
    ensures (h + [e])[..|h| + 1 - 1] == h && (h + [e])[|h|] == e
  {
  }

  lemma {:induction false} WellFormedPrefix(h: seq<Event>, p: nat)
    requires WellFormed(h) && p <= |h|
    ensures WellFormed(h[..p])
  {
    if p < |h| {
      assert h[..|h| - 1][..p] == h[..p];
      WellFormedPrefix(h[..|h| - 1], p);
    } else {
      assert h[..p] == h;
    }
  }

  lemma {:induction false} InProgressBegun(h: seq<Event>)
    ensures InProgress(h) <= Begun(h)
  {
    if h != [] {
      InProgressBegun(h[..|h| - 1]);
    }
  }

  lemma {:induction false} BegunGrows(h: seq<Event>, p: nat)
    requires p <= |h|
    ensures Begun(h[..p]) <= Begun(h)
  {
    if p < |h| {
      assert h[..|h| - 1][..p] == h[..p];
      BegunGrows(h[..|h| - 1], p);
    } else {
      assert h[..p] == h;
    }
  }

  /** An operation that has ended stays ended. */
  lemma {:induction false} EndedStaysEnded(h: seq<Event>, p: nat)
    requires WellFormed(h) && p <= |h| && InProgress(h[..p]) == {}
    ensures InProgress(h) !! Begun(h[..p])
  {
    if p < |h| {
      assert h[..|h| - 1][..p] == h[..p];
      EndedStaysEnded(h[..|h| - 1], p);
      BegunGrows(h[..|h| - 1], p);
    } else {
      assert h[..p] == h;
    }
  }

  lemma {:induction false} CallsOfAll(h: seq<Event>, ops: set<OpId>)
    requires WellFormed(h) && Begun(h) <= ops
    ensures CallsOf(h, ops) == h
  {
    if h != [] {
      InProgressBegun(h[..|h| - 1]);
      CallsOfAll(h[..|h| - 1], ops);
    }
  }

  /** A prefix in which every operation has ended consists of whole operations. */
  lemma {:induction false} QuietPrefixIsWhole(h: seq<Event>, p: nat)
    requires WellFormed(h) && p <= |h| && InProgress(h[..p]) == {}
    ensures CallsOf(h, Begun(h[..p])) == h[..p]
  {
    if p == |h| {
      assert h[..p] == h;
      CallsOfAll(h, Begun(h));
    } else {
      var i := h[..|h| - 1];
      assert i[..p] == h[..p];
      QuietPrefixIsWhole(i, p);
      EndedStaysEnded(i, p);
      BegunGrows(i, p);
    }
  }

  lemma {:induction false} BegunThenEnded(h: seq<Event>, op: OpId)
    requires op in Begun(h) && op !in InProgress(h)
    ensures End(op) in h
  {
    var i := h[..|h| - 1];
    assert h == i + [h[|h| - 1]];
    if h[|h| - 1] != End(op) {
      BegunThenEnded(i, op);
    }
  }

  // ---------- states and steps ----------

  /** cleared: inside log_write, past its guard. */
  datatype Op = Op(id: OpId, written: set<int>, added: nat, cleared: bool)

  /** Where the log is: open to operations, or at block write i of write_log (the header write is the
      one after the last slot) or of install_trans (the erasure is the one after the last block).
      Recovery at boot is install_trans with nothing pinned. */
  datatype Phase = Running | WritingLog(i: nat) | Installing(i: nat)

  datatype State = State(
    disk: Disk,
    dirty: map<int, Block>,
    lh: seq<int>,
    ops: seq<Op>,           // |ops| is log.outstanding
    phase: Phase,           // log.committing is phase != Running
    booted: bool,
    history: seq<Event>,
    settled: nat)           // how much of the history a crash now would preserve
  {
    function View(b: int): Block
      requires 0 <= b < |disk|
    {
      if b in dirty then dirty[b] else disk[b]
    }
  }

  /** The machine starts on a disk with a readable log header and begins to recover. */
  ghost predicate Init(l: Layout, d0: Disk, s: State) {
    && RecoversTo(l, s.disk, d0)
    && s == State(s.disk, map[], Logged(l, s.disk), [], Installing(0), false, [], 0)
  }

  predicate BeginStep(s: State, t: State, op: OpId) {
    && s.phase.Running?
    && |s.lh| + (|s.ops| + 1) * MAXOPBLOCKS <= LOGSIZE
    && op !in Begun(s.history)
    && t == s.(ops := s.ops + [Op(op, {}, 0, false)], history := s.history + [Begin(op)])
  }

  /** log_write by operation number k: its guard, without the lock.  Where it fails the kernel stops. */
  predicate GuardStep(l: Layout, s: State, t: State, k: nat) {
    && l.Valid() && s.phase.Running? && k < |s.ops| && !s.ops[k].cleared
    && |s.lh| < l.Capacity()
    && t == s.(ops := s.ops[k := s.ops[k].(cleared := true)])
  }

  /** The rest of log_write, under the lock.  A list that already fills the header's array has no entry
      for one block more, and appending it is not a step. */
  predicate AppendStep(l: Layout, s: State, t: State, k: nat, b: int, v: Block) {
    && l.Valid() && s.phase.Running? && k < |s.ops| && s.ops[k].cleared && l.Home(b)
    && (b in s.lh || |s.lh| < LOGSIZE)
    && var o := s.ops[k];
    var isNew := b !in s.lh;
    t == s.(dirty := s.dirty[b := v],
            lh := if isNew then s.lh + [b] else s.lh,
            ops := s.ops[k := Op(o.id, o.written + {b}, if isNew then o.added + 1 else o.added, false)],
            history := s.history + [Write(o.id, b, v)])
  }

  predicate EndStep(s: State, t: State, k: nat) {
    && s.phase.Running? && k < |s.ops| && !s.ops[k].cleared
    && var rest := s.ops[..k] + s.ops[k + 1..];
    var h := s.history + [End(s.ops[k].id)];
    t == s.(ops := rest, history := h,
            phase := if rest == [] && s.lh != [] then WritingLog(0) else Running,
            settled := if rest == [] && s.lh == [] then |h| else s.settled)
  }

  /** Nothing here keeps the slots inside the log: that is for the guard to see to. */
  predicate LogStep(l: Layout, s: State, t: State) {
    && OnDisk(l, s.disk) && s.phase.WritingLog?
    && var i := s.phase.i;
    if i < |s.lh| then
      && 0 <= s.lh[i] < |s.disk| && l.start + 1 + i < |s.disk|
      && t == s.(disk := s.disk[l.start + 1 + i := s.View(s.lh[i])], dirty := s.dirty - {l.start + 1 + i},
                 phase := WritingLog(i + 1))
    else
      && |s.lh| < WORDS
      && t == s.(disk := s.disk[l.start := EncodeHead(s.disk[l.start], s.lh)],
                 phase := Installing(0), settled := |s.history|)
  }

  predicate InstallStep(l: Layout, s: State, t: State) {
    && OnDisk(l, s.disk) && s.phase.Installing?
    && var i := s.phase.i;
    if i < |s.lh| then
      && 0 <= s.lh[i] < |s.disk| && l.start + 1 + i < |s.disk|
      && t == s.(disk := s.disk[s.lh[i] := s.View(l.start + 1 + i)], dirty := s.dirty - {s.lh[i]},
                 phase := Installing(i + 1))
    else
      t == s.(disk := s.disk[l.start := EncodeHead(s.disk[l.start], [])], lh := [],
              phase := Running, booted := true)
  }

  /** Memory is lost, and with it the operations that a crash now does not preserve; the machine boots
      and reads the header. */
  predicate CrashStep(l: Layout, s: State, t: State) {
    && OnDisk(l, s.disk) && 0 <= s.disk[l.start].words[0] <= LOGSIZE && s.settled <= |s.history|
    && t == State(s.disk, map[], HeadBlocks(s.disk[l.start]), [], Installing(0), false, s.history[..s.settled], s.settled)
  }

  /** Every operation writes at most `budget` different blocks. */
  ghost predicate Next(l: Layout, budget: nat, s: State, t: State) {
    || (exists op :: BeginStep(s, t, op))
    || (exists k: nat :: GuardStep(l, s, t, k))
    || (exists k: nat, b, v :: AppendStep(l, s, t, k, b, v) && |t.ops[k].written| <= budget)
    || (exists k: nat :: EndStep(s, t, k))
    || LogStep(l, s, t)
    || InstallStep(l, s, t)
    || CrashStep(l, s, t)
  }

  ghost predicate Run(l: Layout, d0: Disk, budget: nat, ss: seq<State>) {
    && |ss| > 0 && Init(l, d0, ss[0])
    && forall i | 0 < i < |ss| :: Next(l, budget, ss[i - 1], ss[i])
  }

  // ---------- the invariant ----------

  ghost function Ids(ops: seq<Op>): set<OpId> {
    set o | o in ops :: o.id
  }

  ghost predicate Bookkeeping(l: Layout, s: State) {
    && WellFormed(s.history) && s.settled <= |s.history|
    && InProgress(s.history[..s.settled]) == {}
    && Ids(s.ops) == InProgress(s.history)
    && (forall i, j | 0 <= i < j < |s.ops| :: s.ops[i].id != s.ops[j].id)
    && (!s.phase.Running? ==> s.ops == [])
    && (s.phase.Running? && s.ops == [] ==> s.settled == |s.history|)
    && (s.phase.Installing? ==> s.settled == |s.history|)
  }

  ghost predicate ViewIs(l: Layout, s: State, d: Disk) {
    |s.disk| == |d| == l.blocks && forall b | l.Home(b) :: s.View(b) == d[b]
  }

  /** What each phase knows of the header, the slots and the pinned buffers. */
  ghost predicate PhaseOk(l: Layout, s: State) {
    && GoodHead(l, s.disk) && GoodList(l, s.lh)
    && match s.phase
       case Running =>
         s.booted && s.disk[l.start].words[0] == 0 && s.dirty.Keys == Elems(s.lh)
       case WritingLog(i) =>
         && s.booted && s.disk[l.start].words[0] == 0 && s.dirty.Keys == Elems(s.lh) && i <= |s.lh|
         && forall j | 0 <= j < i :: s.disk[l.start + 1 + j] == s.dirty[s.lh[j]]
       case Installing(i) =>
         && i <= |s.lh| && s.dirty.Keys <= Elems(s.lh[i..])
         && Logged(l, s.disk) == s.lh
         && forall j | 0 <= j < i :: s.disk[s.lh[j]] == s.disk[l.start + 1 + j]
  }

  ghost predicate Storage(l: Layout, d0: Disk, s: State)
    requires s.settled <= |s.history|
  {
    && RecoversTo(l, s.disk, Apply(d0, s.history[..s.settled]))
    && (s.booted ==> ViewIs(l, s, Apply(d0, s.history)))
    && PhaseOk(l, s)
  }

  ghost predicate Inv(l: Layout, d0: Disk, s: State) {
    s.settled <= |s.history| && Bookkeeping(l, s) && Storage(l, d0, s)
  }

  lemma InitInv(l: Layout, d0: Disk, s: State)
    requires Init(l, d0, s)
    ensures Inv(l, d0, s)
  {
  }

  lemma BeginInv(l: Layout, d0: Disk, s: State, t: State, op: OpId)
    requires Inv(l, d0, s) && BeginStep(s, t, op)
    ensures Inv(l, d0, t)
  {
    Snoc(s.history, Begin(op));
    assert t.history[..t.settled] == s.history[..s.settled];
    InProgressBegun(s.history);
    assert forall o | o in t.ops :: o in s.ops || o == Op(op, {}, 0, false);
    assert t.ops[|s.ops|] == Op(op, {}, 0, false);
    assert forall o | o in s.ops :: o in t.ops;
  }

  lemma SameIds(ops: seq<Op>, k: nat, o: Op)
    requires k < |ops| && o.id == ops[k].id
    ensures Ids(ops[k := o]) == Ids(ops)
  {
    var more := ops[k := o];
    forall x: OpId
      ensures x in Ids(ops) <==> x in Ids(more)
    {
      if x in Ids(ops) {
        var i :| 0 <= i < |ops| && ops[i].id == x;
        assert more[i].id == x;
        assert more[i] in more;
      }
      if x in Ids(more) {
        var i :| 0 <= i < |more| && more[i].id == x;
        assert ops[i] in ops;
      }
    }
  }

  lemma GuardInv(l: Layout, d0: Disk, s: State, t: State, k: nat)
    requires Inv(l, d0, s) && GuardStep(l, s, t, k)
    ensures Inv(l, d0, t)
  {
    SameIds(s.ops, k, t.ops[k]);
  }

  lemma WriteBookkeeping(l: Layout, s: State, t: State, k: nat, b: int, v: Block)
    requires Bookkeeping(l, s) && AppendStep(l, s, t, k, b, v)
    ensures Bookkeeping(l, t)
  {
    var o := s.ops[k];
    Snoc(s.history, Write(o.id, b, v));
    assert t.history[..t.settled] == s.history[..s.settled];
    assert o in s.ops;
    SameIds(s.ops, k, t.ops[k]);
  }

  lemma LogOneMore(l: Layout, bs: seq<int>, b: int)
    requires l.Valid() && GoodList(l, bs) && (b in bs || |bs| < l.Capacity()) && l.Home(b)
    ensures var cs := if b in bs then bs else bs + [b]; GoodList(l, cs) && Elems(cs) == Elems(bs) + {b}
  {
  }

  lemma ViewAfterLogWrite(l: Layout, s: State, t: State, d: Disk, b: int, v: Block)
    requires ViewIs(l, s, d) && l.Home(b) && t.disk == s.disk && t.dirty == s.dirty[b := v]
    ensures ViewIs(l, t, d[b := v])
  {
    forall c | l.Home(c)
      ensures t.View(c) == d[b := v][c]
    {
      assert s.View(c) == d[c];
    }
  }

  lemma WriteHistory(d0: Disk, h: seq<Event>, op: OpId, b: int, v: Block, p: nat)
    requires p <= |h| && 0 <= b < |d0|
    ensures (h + [Write(op, b, v)])[..p] == h[..p] && Apply(d0, h + [Write(op, b, v)]) == Apply(d0, h)[b := v]
  {
    Snoc(h, Write(op, b, v));
  }

  lemma WriteStorage(l: Layout, d0: Disk, s: State, t: State, k: nat, b: int, v: Block)
    requires s.settled <= |s.history| && Storage(l, d0, s) && AppendStep(l, s, t, k, b, v) && |t.lh| <= l.Capacity()
    ensures Storage(l, d0, t)
  {
    WriteHistory(d0, s.history, s.ops[k].id, b, v, s.settled);
    WritePhase(l, s, t, k, b, v);
    ViewAfterLogWrite(l, s, t, Apply(d0, s.history), b, v);
  }

  lemma WritePhase(l: Layout, s: State, t: State, k: nat, b: int, v: Block)
    requires PhaseOk(l, s) && AppendStep(l, s, t, k, b, v) && |t.lh| <= l.Capacity()
    ensures PhaseOk(l, t)
  {
    LogOneMore(l, s.lh, b);
    assert t.dirty.Keys == s.dirty.Keys + {b};
  }

  /** The operations left when number k ends. */
  lemma RestIds(ops: seq<Op>, rest: seq<Op>, k: nat)
    requires k < |ops| && rest == ops[..k] + ops[k + 1..]
    requires forall i, j | 0 <= i < j < |ops| :: ops[i].id != ops[j].id
    ensures Ids(rest) == Ids(ops) - {ops[k].id}
    ensures forall i, j | 0 <= i < j < |rest| :: rest[i].id != rest[j].id
  {
    forall i | 0 <= i < |rest|
      ensures rest[i] == ops[if i < k then i else i + 1]
    {
    }
    forall x: OpId
      ensures x in Ids(rest) <==> x in Ids(ops) && x != ops[k].id
    {
      if x in Ids(ops) && x != ops[k].id {
        var i :| 0 <= i < |ops| && ops[i].id == x;
        assert ops[i] == rest[if i < k then i else i - 1];
        assert ops[i] in rest;
      }
      if x in Ids(rest) {
        var i :| 0 <= i < |rest| && rest[i].id == x;
        assert ops[if i < k then i else i + 1] in ops;
      }
    }
  }

  lemma EndBookkeeping(l: Layout, s: State, t: State, k: nat)
    requires Bookkeeping(l, s) && EndStep(s, t, k)
    ensures Bookkeeping(l, t)
  {
    var o := s.ops[k];
    Snoc(s.history, End(o.id));
    assert o in s.ops;
    assert t.history[..s.settled] == s.history[..s.settled];
    assert t.history[..|t.history|] == t.history;
    RestIds(s.ops, t.ops, k);
    assert Ids([]) == {};
  }

  lemma EndStorage(l: Layout, d0: Disk, s: State, t: State, k: nat)
    requires s.settled <= |s.history| && Storage(l, d0, s) && EndStep(s, t, k)
    ensures t.settled <= |t.history| && Storage(l, d0, t)
  {
    Snoc(s.history, End(s.ops[k].id));
    if t.settled == |t.history| {
      assert t.history[..t.settled] == t.history;
    } else {
      assert t.history[..t.settled] == s.history[..s.settled];
    }
    if s.lh == [] {
      EmptyIsDurable(l, s, Apply(d0, s.history));
    }
  }

  /** With nothing logged, the home blocks are on disk already. */
  lemma EmptyIsDurable(l: Layout, s: State, d: Disk)
    requires OnDisk(l, s.disk) && s.disk[l.start].words[0] == 0 && s.lh == [] && s.dirty.Keys == Elems(s.lh) && ViewIs(l, s, d)
    ensures RecoversTo(l, s.disk, d)
  {
    RecoverEmpty(l, s.disk);
    forall b | l.Home(b)
      ensures s.disk[b] == d[b]
    {
      assert s.View(b) == d[b] && b !in s.dirty.Keys;
    }
  }

  lemma EndInv(l: Layout, d0: Disk, s: State, t: State, k: nat)
    requires Inv(l, d0, s) && EndStep(s, t, k)
    ensures Inv(l, d0, t)
  {
    EndBookkeeping(l, s, t, k);
    EndStorage(l, d0, s, t, k);
  }

  lemma SlotStepInv(l: Layout, d0: Disk, s: State, t: State)
    requires Inv(l, d0, s) && LogStep(l, s, t) && s.phase.i < |s.lh|
    ensures Inv(l, d0, t)
  {
    var i := s.phase.i;
    NotPinned(l, s, l.start + 1 + i);
    SlotWrite(l, s.disk, i, s.View(s.lh[i]));
    SlotPhase(l, s, t);
  }

  lemma SlotPhase(l: Layout, s: State, t: State)
    requires PhaseOk(l, s) && LogStep(l, s, t) && s.phase.i < |s.lh| && s.dirty - {l.start + 1 + s.phase.i} == s.dirty
    requires GoodHead(l, t.disk)
    ensures PhaseOk(l, t)
  {
  }

  /** Only home blocks are pinned. */
  lemma NotPinned(l: Layout, s: State, x: int)
    requires l.Valid() && GoodList(l, s.lh) && s.dirty.Keys <= Elems(s.lh) && !l.Home(x)
    ensures x !in s.dirty && s.dirty - {x} == s.dirty
  {
    assert forall b | b in s.lh :: l.Home(b);
  }

  /** Putting one block of the right contents on disk and unpinning it changes nothing for readers. */
  lemma ViewAfterWrite(l: Layout, s: State, t: State, d: Disk, x: int)
    requires ViewIs(l, s, d) && 0 <= x < |s.disk| && |t.disk| == |s.disk|
    requires forall b | 0 <= b < |s.disk| && b != x :: t.disk[b] == s.disk[b]
    requires t.dirty == s.dirty - {x} && (l.Home(x) ==> t.disk[x] == d[x])
    ensures ViewIs(l, t, d)
  {
    forall b | l.Home(b)
      ensures t.View(b) == d[b]
    {
      assert s.View(b) == d[b];
    }
  }

  lemma HeadDurable(l: Layout, s: State, d: Disk)
    requires OnDisk(l, s.disk) && GoodList(l, s.lh) && s.dirty.Keys == Elems(s.lh) && ViewIs(l, s, d)
    requires forall j | 0 <= j < |s.lh| :: s.disk[l.start + 1 + j] == s.dirty[s.lh[j]]
    ensures var e := s.disk[l.start := EncodeHead(s.disk[l.start], s.lh)];
            RecoversTo(l, e, d) && Logged(l, e) == s.lh
  {
    HeadWrite(l, s.disk, s.lh, s.dirty);
    var e := s.disk[l.start := EncodeHead(s.disk[l.start], s.lh)];
    forall b | l.Home(b)
      ensures Recover(l, e)[b] == d[b]
    {
      assert s.View(b) == d[b];
    }
  }

  lemma CopyDurable(l: Layout, s: State, d: Disk, i: nat)
    requires RecoversTo(l, s.disk, d) && Logged(l, s.disk) == s.lh && i < |s.lh|
    requires forall j | 0 <= j < i :: s.disk[s.lh[j]] == s.disk[l.start + 1 + j]
    ensures var e := s.disk[s.lh[i] := s.disk[l.start + 1 + i]];
            && RecoversTo(l, e, d) && Logged(l, e) == s.lh && e[s.lh[i]] == d[s.lh[i]]
            && forall j | 0 <= j < i + 1 :: e[s.lh[j]] == e[l.start + 1 + j]
  {
    InstallStepStorage(l, s.disk, s.lh, i);
    RecoverAt(l, s.disk);
    assert Recover(l, s.disk)[Logged(l, s.disk)[i]] == s.disk[l.start + 1 + i];
  }

  lemma HeadPhase(l: Layout, s: State, t: State)
    requires PhaseOk(l, s) && LogStep(l, s, t) && s.phase.i >= |s.lh|
    ensures PhaseOk(l, t)
  {
    HeadGood(l, s.disk, s.lh);
    assert s.lh[0..] == s.lh;
  }

  lemma HeadStorage(l: Layout, d0: Disk, s: State, t: State)
    requires s.settled <= |s.history| && Storage(l, d0, s) && LogStep(l, s, t) && s.phase.i >= |s.lh|
    ensures Storage(l, d0, t)
  {
    HeadDurable(l, s, Apply(d0, s.history));
    assert t.history[..t.settled] == t.history;
    HeadPhase(l, s, t);
    NotPinned(l, s, l.start);
    ViewAfterWrite(l, s, t, Apply(d0, s.history), l.start);
  }

  lemma InstallStepStorage(l: Layout, d: Disk, lh: seq<int>, i: nat)
    requires GoodHead(l, d) && Logged(l, d) == lh && i < |lh|
    requires forall j | 0 <= j < i :: d[lh[j]] == d[l.start + 1 + j]
    ensures var e := d[lh[i] := d[l.start + 1 + i]];
            && RecoversTo(l, e, Recover(l, d)) && Logged(l, e) == lh
            && forall j | 0 <= j < i + 1 :: e[lh[j]] == e[l.start + 1 + j]
  {
    CopyIsInstall(l, d, lh, i);
    PartInstalled(l, d, i + 1);
    CopyIsHome(l, d, lh, i);
  }

  lemma CopyIsHome(l: Layout, d: Disk, lh: seq<int>, i: nat)
    requires OnDisk(l, d) && GoodList(l, lh) && i < |lh|
    requires forall j | 0 <= j < i :: d[lh[j]] == d[l.start + 1 + j]
    ensures var e := d[lh[i] := d[l.start + 1 + i]];
            forall j | 0 <= j < i + 1 :: e[lh[j]] == e[l.start + 1 + j]
  {
    assert l.Home(lh[i]);
  }

  /** With the earlier blocks home, copying block i is what installing i + 1 blocks does. */
  lemma CopyIsInstall(l: Layout, d: Disk, lh: seq<int>, i: nat)
    requires OnDisk(l, d) && GoodList(l, lh) && i < |lh|
    requires forall j | 0 <= j < i :: d[lh[j]] == d[l.start + 1 + j]
    ensures d[lh[i] := d[l.start + 1 + i]] == Install(l, d, lh, i + 1)
  {
    var e := d[lh[i] := d[l.start + 1 + i]];
    InstallAt(l, d, lh, i + 1);
    forall b | 0 <= b < |d|
      ensures e[b] == Install(l, d, lh, i + 1)[b]
    {
      if b in lh[..i + 1] {
        var j :| 0 <= j < i + 1 && lh[j] == b;
      }
    }
  }

  /** The buffers still pinned are those of the blocks still to be copied. */
  lemma UnpinOne(dirty: map<int, Block>, lh: seq<int>, i: nat)
    requires i < |lh| && dirty.Keys <= Elems(lh[i..])
    ensures (dirty - {lh[i]}).Keys <= Elems(lh[i + 1..])
  {
    assert lh[i..] == [lh[i]] + lh[i + 1..];
  }

  lemma CopyPhase(l: Layout, s: State, t: State)
    requires PhaseOk(l, s) && InstallStep(l, s, t) && s.phase.i < |s.lh|
    ensures PhaseOk(l, t)
  {
    InstallNotPinned(l, s);
    InstallStepStorage(l, s.disk, s.lh, s.phase.i);
    UnpinOne(s.dirty, s.lh, s.phase.i);
  }

  /** install_trans reads its slots from disk. */
  lemma InstallNotPinned(l: Layout, s: State)
    requires PhaseOk(l, s) && s.phase.Installing? && s.phase.i < |s.lh|
    ensures l.start + 1 + s.phase.i < |s.disk| && s.View(l.start + 1 + s.phase.i) == s.disk[l.start + 1 + s.phase.i]
  {
    assert Elems(s.lh[s.phase.i..]) <= Elems(s.lh);
    NotPinned(l, s, l.start + 1 + s.phase.i);
  }

  lemma CopyStorage(l: Layout, d0: Disk, s: State, t: State)
    requires s.settled == |s.history| && Storage(l, d0, s) && InstallStep(l, s, t) && s.phase.i < |s.lh|
    ensures Storage(l, d0, t)
  {
    var i, d := s.phase.i, Apply(d0, s.history);
    assert s.history[..s.settled] == s.history;
    CopyPhase(l, s, t);
    InstallNotPinned(l, s);
    CopyDurable(l, s, d, i);
    if s.booted {
      ViewAfterWrite(l, s, t, d, s.lh[i]);
    }
  }

  lemma EraseStepInv(l: Layout, d0: Disk, s: State, t: State)
    requires Inv(l, d0, s) && InstallStep(l, s, t) && s.phase.i >= |s.lh|
    ensures Inv(l, d0, t)
  {
    assert s.history[..s.settled] == s.history;
    ClearWrite(l, s.disk);
    assert s.lh[s.phase.i..] == [];
  }

  lemma CrashInv(l: Layout, d0: Disk, s: State, t: State)
    requires Inv(l, d0, s) && CrashStep(l, s, t)
    ensures Inv(l, d0, t)
  {
    WellFormedPrefix(s.history, s.settled);
    assert t.history[..t.settled] == t.history;
  }

  /** Every step that does not list more blocks than the log has room for. */
  lemma NextInv(l: Layout, d0: Disk, budget: nat, s: State, t: State)
    requires Inv(l, d0, s) && Next(l, budget, s, t) && |t.lh| <= l.Capacity()
    ensures Inv(l, d0, t)
  {
    if op :| BeginStep(s, t, op) {
      BeginInv(l, d0, s, t, op);
    } else if k :| GuardStep(l, s, t, k) {
      GuardInv(l, d0, s, t, k);
    } else if k, b, v :| AppendStep(l, s, t, k, b, v) {
      WriteBookkeeping(l, s, t, k, b, v);
      WriteStorage(l, d0, s, t, k, b, v);
    } else if k :| EndStep(s, t, k) {
      EndInv(l, d0, s, t, k);
    } else if LogStep(l, s, t) {
      if s.phase.i < |s.lh| {
        SlotStepInv(l, d0, s, t);
      } else {
        assert t.history[..t.settled] == t.history;
        HeadStorage(l, d0, s, t);
      }
    } else if InstallStep(l, s, t) {
      if s.phase.i < |s.lh| {
        CopyStorage(l, d0, s, t);
      } else {
        EraseStepInv(l, d0, s, t);
      }
    } else {
      CrashInv(l, d0, s, t);
    }
  }

  /** The log has a slot for every block listed, up to state n. */
  ghost predicate Fits(l: Layout, ss: seq<State>, n: nat) {
    n < |ss| && l.Valid() && forall i | 0 <= i <= n :: |ss[i].lh| <= l.Capacity()
  }

  lemma {:induction false} RunInv(l: Layout, d0: Disk, budget: nat, ss: seq<State>, n: nat)
    requires Run(l, d0, budget, ss) && Fits(l, ss, n)
    ensures Inv(l, d0, ss[n])
  {
    if n == 0 {
      InitInv(l, d0, ss[0]);
    } else {
      RunInv(l, d0, budget, ss, n - 1);
      NextInv(l, d0, budget, ss[n - 1], ss[n]);
    }
  }

  // ---------- what the protocol guarantees ----------

  /** A crash now, followed by a completed recovery, leaves the home blocks as these operations would:
      each of them has ended, and every call of each is included. */
  ghost predicate WholeOnly(l: Layout, d0: Disk, s: State, ops: set<OpId>) {
    && GoodHead(l, s.disk)
    && (forall op | op in ops :: End(op) in s.history && op !in Ids(s.ops))
    && Agree(l, Recover(l, s.disk), Apply(d0, CallsOf(s.history, ops)))
  }

  ghost predicate Atomic(l: Layout, d0: Disk, s: State) {
    exists ops :: WholeOnly(l, d0, s, ops)
  }

  /** In every state of every run that keeps its list within the log, a crash preserves whole operations
      only: those that had ended at the last commit. */
  lemma CrashKeepsWholeOperations(l: Layout, d0: Disk, budget: nat, ss: seq<State>, n: nat)
    requires Run(l, d0, budget, ss) && Fits(l, ss, n)
    ensures ss[n].settled <= |ss[n].history|
    ensures WholeOnly(l, d0, ss[n], Begun(ss[n].history[..ss[n].settled]))
  {
    RunInv(l, d0, budget, ss, n);
    var s := ss[n];
    var p := s.history[..s.settled];
    QuietPrefixIsWhole(s.history, s.settled);
    EndedStaysEnded(s.history, s.settled);
    forall op | op in Begun(p)
      ensures End(op) in s.history
    {
      BegunThenEnded(p, op);
      assert forall e | e in p :: e in s.history;
    }
  }

  /** What a crash would preserve now, it would preserve after any step, a crash included. */
  lemma NextSettles(l: Layout, d0: Disk, budget: nat, s: State, t: State)
    requires Inv(l, d0, s) && Next(l, budget, s, t) && t.settled <= |t.history|
    ensures s.history[..s.settled] <= t.history[..t.settled]
  {
  }

  lemma {:induction false} RunSettles(l: Layout, d0: Disk, budget: nat, ss: seq<State>, i: nat, j: nat)
    requires Run(l, d0, budget, ss) && Fits(l, ss, j) && i <= j
    ensures ss[i].settled <= |ss[i].history| && ss[j].settled <= |ss[j].history|
    ensures ss[i].history[..ss[i].settled] <= ss[j].history[..ss[j].settled]
    decreases j - i
  {
    RunInv(l, d0, budget, ss, i);
    RunInv(l, d0, budget, ss, j);
    if i < j {
      RunInv(l, d0, budget, ss, i + 1);
      NextSettles(l, d0, budget, ss[i], ss[i + 1]);
      RunSettles(l, d0, budget, ss, i + 1, j);
    }
  }

  lemma {:induction false} BegunPrefix(p: seq<Event>, h: seq<Event>)
    requires p <= h
    ensures Begun(p) <= Begun(h)
  {
    assert h[..|p|] == p;
    BegunGrows(h, |p|);
  }

  /** Once no operation is in progress and the log is not committing, everything so far is durable:
      whatever happens later, crashes included, recovery preserves every operation of that time, whole. */
  lemma CommittedSurvives(l: Layout, d0: Disk, budget: nat, ss: seq<State>, i: nat, j: nat) returns (ops: set<OpId>)
    requires Run(l, d0, budget, ss) && Fits(l, ss, j) && i <= j
    requires ss[i].phase.Running? && ss[i].ops == []
    ensures ss[i].history <= ss[j].history && Begun(ss[i].history) <= ops && WholeOnly(l, d0, ss[j], ops)
  {
    RunInv(l, d0, budget, ss, i);
    assert ss[i].history[..ss[i].settled] == ss[i].history;
    RunSettles(l, d0, budget, ss, i, j);
    ops := Begun(ss[j].history[..ss[j].settled]);
    BegunPrefix(ss[i].history, ss[j].history[..ss[j].settled]);
    CrashKeepsWholeOperations(l, d0, budget, ss, j);
  }

  /** Once the log is idle again nothing is left to lose, and readers always see every write so far. */
  lemma IdleIsDurable(l: Layout, d0: Disk, budget: nat, ss: seq<State>, n: nat)
    requires Run(l, d0, budget, ss) && Fits(l, ss, n)
    ensures ss[n].booted ==> ViewIs(l, ss[n], Apply(d0, ss[n].history))
    ensures ss[n].phase.Running? && ss[n].lh == [] ==> RecoversTo(l, ss[n].disk, Apply(d0, ss[n].history))
    ensures !ss[n].phase.Running? ==> ss[n].ops == []
  {
    RunInv(l, d0, budget, ss, n);
    if ss[n].phase.Running? && ss[n].lh == [] {
      RecoverEmpty(l, ss[n].disk);
    }
  }
}
