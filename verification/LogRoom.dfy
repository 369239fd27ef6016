/** Log space reservation.  begin_op reserves MAXOPBLOCKS per operation out of LOGSIZE, but mkfs makes
    the log one block too short for that, and log_write tests its guard before it takes the lock and
    before absorption.  This module finds the exact number of blocks an operation may write for the
    guard never to fire, for the list never to outgrow the log, and so for crashes to be atomic. */
module LogRoom {
  import opened RedoLog
  import opened LogProtocol
  import Finite

  const SAFE: nat := MAXOPBLOCKS - 1

  /** nlog = LOGSIZE includes the header, so 29 slots are left. */
  const MKFS_LAYOUT: Layout := Layout(2, LOGSIZE, 1000)

  /** Some operation is in progress, outside log_write, and any log_write it makes now panics. */
  predicate Panics(l: Layout, s: State)
    requires l.Valid()
  {
    s.phase.Running? && |s.lh| >= l.Capacity() && exists k | 0 <= k < |s.ops| :: !s.ops[k].cleared
  }

  /** What the operations in progress may still add, each up to its budget. */
  function Slack(ops: seq<Op>, budget: nat): int {
    if ops == [] then 0 else Slack(ops[..|ops| - 1], budget) + budget - ops[|ops| - 1].added
  }

  lemma {:induction false} SlackReplace(ops: seq<Op>, budget: nat, k: nat, o: Op)
    requires k < |ops|
    ensures Slack(ops[k := o], budget) == Slack(ops, budget) + ops[k].added - o.added
  {
    var i := ops[..|ops| - 1];
    if k < |i| {
      SlackReplace(i, budget, k, o);
      assert ops[k := o][..|ops| - 1] == i[k := o];
    } else {
      assert ops[k := o][..|ops| - 1] == i;
    }
  }

  lemma {:induction false} SlackRemove(ops: seq<Op>, budget: nat, k: nat)
    requires k < |ops|
    ensures Slack(ops[..k] + ops[k + 1..], budget) == Slack(ops, budget) - budget + ops[k].added
  {
    var i := ops[..|ops| - 1];
    var r := ops[..k] + ops[k + 1..];
    if k < |i| {
      SlackRemove(i, budget, k);
      assert r[..|r| - 1] == i[..k] + i[k + 1..];
    } else {
      assert r == i;
    }
  }

  lemma {:induction false} SlackBounds(ops: seq<Op>, budget: nat)
    requires forall o | o in ops :: o.added <= budget
    ensures 0 <= Slack(ops, budget) <= budget * |ops|
  {
    if ops != [] {
      SlackBounds(ops[..|ops| - 1], budget);
    }
  }

  /** What stays of LOGSIZE for operations of that budget. */
  function Limit(budget: nat): int {
    if budget < MAXOPBLOCKS then LOGSIZE - 2 else LOGSIZE
  }

  ghost predicate Room(s: State, budget: nat) {
    && (!s.phase.Running? ==> s.ops == [])
    && (forall o | o in s.ops :: o.written <= Elems(s.lh) && o.added <= |o.written| <= budget)
    && (s.phase.Running? && s.ops == [] ==> s.lh == [])
    && (s.phase.Running? ==> |s.lh| + Slack(s.ops, budget) <= Limit(budget))
  }

  lemma BeginRoom(s: State, t: State, budget: nat, op: OpId)
    requires budget <= MAXOPBLOCKS && Room(s, budget) && BeginStep(s, t, op)
    ensures Room(t, budget)
  {
    SlackBounds(s.ops, budget);
    assert t.ops[..|t.ops| - 1] == s.ops;
    assert Slack([], budget) == 0;
    assert |s.ops| <= 2;
  }

  lemma GuardRoom(l: Layout, s: State, t: State, budget: nat, k: nat)
    requires Room(s, budget) && GuardStep(l, s, t, k)
    ensures Room(t, budget)
  {
    SlackReplace(s.ops, budget, k, t.ops[k]);
    assert s.ops[k] in s.ops;
    assert forall o | o in t.ops :: o in s.ops || o == t.ops[k];
  }

  lemma Grown(bs: set<int>, b: int)
    ensures |bs + {b}| == if b in bs then |bs| else |bs| + 1
  {
    if b in bs {
      assert bs + {b} == bs;
    }
  }

  /** Whoever else has passed the guard meanwhile, the block appended was reserved at begin_op. */
  lemma AppendRoom(l: Layout, s: State, t: State, budget: nat, k: nat, b: int, v: Block)
    requires Room(s, budget) && AppendStep(l, s, t, k, b, v) && |t.ops[k].written| <= budget
    ensures Room(t, budget)
  {
    SlackReplace(s.ops, budget, k, t.ops[k]);
    assert Elems(t.lh) == Elems(s.lh) + {b};
    Grown(s.ops[k].written, b);
    assert s.ops[k] in s.ops;
    forall o | o in t.ops
      ensures o.written <= Elems(t.lh) && o.added <= |o.written| <= budget
    {
      var i :| 0 <= i < |t.ops| && t.ops[i] == o;
      if i != k {
        assert s.ops[i] in s.ops;
      }
    }
  }

  lemma EndRoom(s: State, t: State, budget: nat, k: nat)
    requires Room(s, budget) && EndStep(s, t, k)
    ensures Room(t, budget)
  {
    SlackRemove(s.ops, budget, k);
    assert s.ops[k] in s.ops;
    assert forall o | o in t.ops :: o in s.ops;
  }

  lemma NextRoom(l: Layout, s: State, t: State, budget: nat)
    requires budget <= MAXOPBLOCKS && Room(s, budget) && Next(l, budget, s, t)
    ensures Room(t, budget)
  {
    if op :| BeginStep(s, t, op) {
      BeginRoom(s, t, budget, op);
    } else if k: nat :| GuardStep(l, s, t, k) {
      GuardRoom(l, s, t, budget, k);
    } else if k: nat, b, v :| AppendStep(l, s, t, k, b, v) && |t.ops[k].written| <= budget {
      AppendRoom(l, s, t, budget, k, b, v);
    } else if k: nat :| EndStep(s, t, k) {
      EndRoom(s, t, budget, k);
    }
  }

  lemma {:induction false} RunRoom(l: Layout, d0: Disk, budget: nat, ss: seq<State>, n: nat)
    requires budget <= MAXOPBLOCKS && Run(l, d0, budget, ss) && n < |ss|
    ensures Room(ss[n], budget)
  {
    if n > 0 {
      RunRoom(l, d0, budget, ss, n - 1);
      NextRoom(l, ss[n - 1], ss[n], budget);
    }
  }

  /** The reservation: what is listed and what every active operation may still add fit into LOGSIZE. */
  lemma Reserved(l: Layout, d0: Disk, budget: nat, ss: seq<State>, n: nat)
    requires budget <= MAXOPBLOCKS && Run(l, d0, budget, ss) && n < |ss|
    ensures ss[n].phase.Running? ==> |ss[n].lh| + Slack(ss[n].ops, budget) <= LOGSIZE
    ensures forall o | o in ss[n].ops :: o.added <= budget
  {
    RunRoom(l, d0, budget, ss, n);
  }

  lemma SmallerBudget(l: Layout, d0: Disk, small: nat, large: nat, ss: seq<State>)
    requires small <= large && Run(l, d0, small, ss)
    ensures Run(l, d0, large, ss)
  {
    forall i | 0 < i < |ss|
      ensures Next(l, large, ss[i - 1], ss[i])
    {
      assert Next(l, small, ss[i - 1], ss[i]);
    }
  }

  /** With at most nine blocks an operation the guard never fires, in any run. */
  lemma NeverTooBig(l: Layout, d0: Disk, budget: nat, ss: seq<State>, n: nat)
    requires l.Valid() && l.Capacity() >= LOGSIZE - 1
    requires budget <= SAFE && Run(l, d0, budget, ss) && n < |ss|
    ensures !Panics(l, ss[n])
  {
    SmallerBudget(l, d0, budget, SAFE, ss);
    RunRoom(l, d0, SAFE, ss, n);
    SlackBounds(ss[n].ops, SAFE);
  }

  lemma NextFits(l: Layout, d0: Disk, budget: nat, s: State, t: State)
    requires budget <= MAXOPBLOCKS && l.Valid() && Limit(budget) <= l.Capacity()
    requires Inv(l, d0, s) && Room(s, budget) && Next(l, budget, s, t)
    ensures |t.lh| <= l.Capacity()
  {
    NextRoom(l, s, t, budget);
    SlackBounds(t.ops, budget);
  }

  lemma InitFits(l: Layout, d0: Disk, s: State)
    requires Init(l, d0, s)
    ensures |s.lh| <= l.Capacity()
  {
  }

  lemma StepFits(l: Layout, d0: Disk, budget: nat, ss: seq<State>, n: nat)
    requires budget <= MAXOPBLOCKS && l.Valid() && Limit(budget) <= l.Capacity()
    requires Run(l, d0, budget, ss) && 0 < n < |ss| && Fits(l, ss, n - 1)
    ensures |ss[n].lh| <= l.Capacity()
  {
    RunInv(l, d0, budget, ss, n - 1);
    RunRoom(l, d0, budget, ss, n - 1);
    NextFits(l, d0, budget, ss[n - 1], ss[n]);
  }

  /** What begin_op reserves is what the log holds: the list never outgrows it, however the operations
      interleave. */
  lemma {:induction false} RunFits(l: Layout, d0: Disk, budget: nat, ss: seq<State>, n: nat)
    requires budget <= MAXOPBLOCKS && l.Valid() && Limit(budget) <= l.Capacity()
    requires Run(l, d0, budget, ss) && n < |ss|
    ensures Fits(l, ss, n)
  {
    if n == 0 {
      InitFits(l, d0, ss[0]);
    } else {
      RunFits(l, d0, budget, ss, n - 1);
      StepFits(l, d0, budget, ss, n);
    }
  }

  /** So with at most nine blocks an operation on a log of 30 blocks, or ten on one of 31, every crash
      in every run preserves whole operations only. */
  lemma SafeBudgetIsAtomic(l: Layout, d0: Disk, budget: nat, ss: seq<State>, n: nat)
    requires budget <= MAXOPBLOCKS && l.Valid() && Limit(budget) <= l.Capacity()
    requires Run(l, d0, budget, ss) && n < |ss|
    ensures Atomic(l, d0, ss[n])
  {
    RunFits(l, d0, budget, ss, n);
    CrashKeepsWholeOperations(l, d0, budget, ss, n);
  }

  /** w has every block that an operation has written so far, in every state. */
  ghost predicate Within(ss: seq<State>, w: OpId -> set<int>) {
    forall i, o | 0 <= i < |ss| && o in ss[i].ops :: o.written <= w(o.id)
  }

  lemma WithinBudget(l: Layout, d0: Disk, budget: nat, ss: seq<State>, w: OpId -> set<int>)
    requires Run(l, d0, budget, ss) && Within(ss, w) && forall id :: |w(id)| <= SAFE
    ensures Run(l, d0, SAFE, ss)
  {
    forall i | 0 < i < |ss|
      ensures Next(l, SAFE, ss[i - 1], ss[i])
    {
      var s, t := ss[i - 1], ss[i];
      assert Next(l, budget, s, t);
      if k: nat, b, v :| AppendStep(l, s, t, k, b, v) && |t.ops[k].written| <= budget {
        assert t.ops[k] in ss[i].ops;
        Finite.SubsetSize(t.ops[k].written, w(t.ops[k].id));
        assert AppendStep(l, s, t, k, b, v) && |t.ops[k].written| <= SAFE;
      }
    }
  }

  /** If each operation gives log_write at most nine different blocks, whichever they are, no state of any
      run has its guard fire, and every crash is atomic. */
  lemma SmallOperationsAreSafe(l: Layout, d0: Disk, budget: nat, ss: seq<State>, w: OpId -> set<int>, n: nat)
    requires l.Valid() && l.Capacity() >= LOGSIZE - 1 && n < |ss|
    requires Run(l, d0, budget, ss) && Within(ss, w) && forall id :: |w(id)| <= SAFE
    ensures !Panics(l, ss[n]) && Atomic(l, d0, ss[n])
  {
    WithinBudget(l, d0, budget, ss, w);
    NeverTooBig(l, d0, SAFE, ss, n);
    SafeBudgetIsAtomic(l, d0, SAFE, ss, n);
  }

  // ---------- ten blocks an operation are too many ----------

  function Blank(): Block {
    Block(seq(WORDS, i => 0))
  }

  function Mark(): Block {
    Block(seq(WORDS, i => 1))
  }

  function BlankDisk(): (d: Disk)
    ensures OnDisk(MKFS_LAYOUT, d) && d[2].words[0] == 0
  {
    seq(1000, i => Blank())
  }

  /** The first block behind the log. */
  const VICTIM: int := 32

  ghost predicate Spares(h: seq<Event>, b: int) {
    forall e | e in h :: e.Write? ==> e.block != b
  }

  /** No choice of operations changes a block that no operation writes. */
  lemma {:induction false} SparedBlock(d: Disk, h: seq<Event>, ops: set<OpId>, b: int)
    requires Spares(h, b) && 0 <= b < |d|
    ensures Apply(d, CallsOf(h, ops))[b] == d[b]
  {
    if h != [] {
      SparedBlock(d, h[..|h| - 1], ops, b);
      if h[|h| - 1].op in ops {
        Snoc(CallsOf(h[..|h| - 1], ops), h[|h| - 1]);
      }
    }
  }

  /** How many of the first j writes are made by operation k: ten, nine and nine. */
  function Share(j: int, k: int): int {
    if k == 0 then (if j <= 10 then j else 10)
    else (var done := j - 9 * k - 1; if done <= 0 then 0 else if done >= 9 then 9 else done)
  }

  /** Blocks 100, 101, ... are listed, with Mark pinned in each; the home blocks are still blank. */
  ghost predicate Listed(s: State, j: int) {
    && OnDisk(MKFS_LAYOUT, s.disk) && s.disk[2].words[0] == 0
    && s.disk[VICTIM] == Blank() && Spares(s.history, VICTIM)
    && |s.lh| == j && (forall i | 0 <= i < j :: s.lh[i] == 100 + i)
    && forall b | 100 <= b < 100 + j :: b in s.dirty && s.dirty[b] == Mark()
  }

  ghost predicate Filled(ss: seq<State>, j: int) {
    && Run(MKFS_LAYOUT, BlankDisk(), MAXOPBLOCKS, ss)
    && var s := ss[|ss| - 1];
    && s.phase.Running? && |s.ops| == 3 && Listed(s, j)
    && forall k | 0 <= k < 3 :: !s.ops[k].cleared && |s.ops[k].written| <= Share(j, k)
  }

  lemma Extend(l: Layout, d0: Disk, budget: nat, ss: seq<State>, t: State)
    requires Run(l, d0, budget, ss) && Next(l, budget, ss[|ss| - 1], t)
    ensures Run(l, d0, budget, ss + [t])
  {
  }

  function Fresh(id: OpId): Op {
    Op(id, {}, 0, false)
  }

  /** n operations have begun and written nothing. */
  ghost predicate Opened(s: State, n: nat) {
    && s.phase.Running? && |s.ops| == n && Listed(s, 0)
    && (forall id | id in Begun(s.history) :: id < n)
    && forall k | 0 <= k < n :: s.ops[k] == Fresh(k)
  }

  ghost predicate Started(ss: seq<State>, n: nat) {
    Run(MKFS_LAYOUT, BlankDisk(), MAXOPBLOCKS, ss) && Opened(ss[|ss| - 1], n)
  }

  lemma Booted() returns (ss: seq<State>)
    ensures Started(ss, 0)
  {
    var l, d := MKFS_LAYOUT, BlankDisk();
    RecoverEmpty(l, d);
    var s := State(d, map[], [], [], Installing(0), false, [], 0);
    assert Logged(l, d) == [];
    var t := s.(disk := d[l.start := EncodeHead(d[l.start], [])], phase := Running, booted := true);
    assert InstallStep(l, s, t);
    Extend(l, d, MAXOPBLOCKS, [s], t);
    ss := [s] + [t];
  }

  function WithOne(s: State, n: nat): State {
    s.(ops := s.ops + [Fresh(n)], history := s.history + [Begin(n)])
  }

  lemma OpensOne(s: State, n: nat)
    requires Opened(s, n) && n < 3
    ensures Opened(WithOne(s, n), n + 1)
  {
    Snoc(s.history, Begin(n));
  }

  lemma BeginOne(ss: seq<State>, n: nat) returns (ts: seq<State>)
    requires Started(ss, n) && n < 3
    ensures Started(ts, n + 1)
  {
    var s := ss[|ss| - 1];
    OpensOne(s, n);
    assert BeginStep(s, WithOne(s, n), n);
    Extend(MKFS_LAYOUT, BlankDisk(), MAXOPBLOCKS, ss, WithOne(s, n));
    ts := ss + [WithOne(s, n)];
  }

  lemma ThreeOperations() returns (ss: seq<State>)
    ensures Filled(ss, 0)
  {
    ss := Booted();
    ss := BeginOne(ss, 0);
    ss := BeginOne(ss, 1);
    ss := BeginOne(ss, 2);
  }

  /** Operation k passes the guard. */
  function Cleared(s: State, k: nat): State
    requires k < |s.ops|
  {
    s.(ops := s.ops[k := s.ops[k].(cleared := true)])
  }

  /** Operation k appends the next block. */
  function Appended(s: State, k: nat): State
    requires k < |s.ops|
  {
    var b, o := 100 + |s.lh|, s.ops[k];
    s.(dirty := s.dirty[b := Mark()], lh := s.lh + [b],
       ops := s.ops[k := Op(o.id, o.written + {b}, o.added + 1, false)],
       history := s.history + [Write(o.id, b, Mark())])
  }

  lemma Guards(ss: seq<State>, k: nat)
    requires Run(MKFS_LAYOUT, BlankDisk(), MAXOPBLOCKS, ss)
    requires var s := ss[|ss| - 1];
             s.phase.Running? && k < |s.ops| && !s.ops[k].cleared && |s.lh| < LOGSIZE - 1
    ensures Run(MKFS_LAYOUT, BlankDisk(), MAXOPBLOCKS, ss + [Cleared(ss[|ss| - 1], k)])
  {
    var s := ss[|ss| - 1];
    assert GuardStep(MKFS_LAYOUT, s, Cleared(s, k), k);
    Extend(MKFS_LAYOUT, BlankDisk(), MAXOPBLOCKS, ss, Cleared(s, k));
  }

  lemma Appends(ss: seq<State>, k: nat)
    requires Run(MKFS_LAYOUT, BlankDisk(), MAXOPBLOCKS, ss)
    requires var s := ss[|ss| - 1];
             && s.phase.Running? && k < |s.ops| && s.ops[k].cleared && |s.ops[k].written| < MAXOPBLOCKS
             && |s.lh| < LOGSIZE && Listed(s, |s.lh|)
    ensures Run(MKFS_LAYOUT, BlankDisk(), MAXOPBLOCKS, ss + [Appended(ss[|ss| - 1], k)])
    ensures Listed(Appended(ss[|ss| - 1], k), |ss[|ss| - 1].lh| + 1)
  {
    var s := ss[|ss| - 1];
    assert AppendStep(MKFS_LAYOUT, s, Appended(s, k), k, 100 + |s.lh|, Mark());
    Extend(MKFS_LAYOUT, BlankDisk(), MAXOPBLOCKS, ss, Appended(s, k));
  }

  lemma {:induction false} FillLog(j: nat) returns (ss: seq<State>)
    requires j <= LOGSIZE - 2
    ensures Filled(ss, j)
  {
    if j == 0 {
      ss := ThreeOperations();
    } else {
      var rs := FillLog(j - 1);
      var k := if j <= 10 then 0 else if j <= 19 then 1 else 2;
      Guards(rs, k);
      var ts := rs + [Cleared(rs[|rs| - 1], k)];
      Appends(ts, k);
      ss := ts + [Appended(ts[|ts| - 1], k)];
    }
  }

  /** From 28 listed blocks: one write more leaves another operation at a guard that fails. */
  lemma TenPanics() returns (ss: seq<State>)
    ensures Run(MKFS_LAYOUT, BlankDisk(), MAXOPBLOCKS, ss) && Panics(MKFS_LAYOUT, ss[|ss| - 1])
  {
    var rs := FillLog(LOGSIZE - 2);
    Guards(rs, 1);
    var ts := rs + [Cleared(rs[|rs| - 1], 1)];
    Appends(ts, 1);
    ss := ts + [Appended(ts[|ts| - 1], 1)];
    assert !ss[|ss| - 1].ops[2].cleared;
  }

  /** Or two operations pass the guard together, and both append: 30 blocks for 29 slots. */
  lemma TenOverrun() returns (ss: seq<State>)
    ensures Run(MKFS_LAYOUT, BlankDisk(), MAXOPBLOCKS, ss)
    ensures var s := ss[|ss| - 1];
            && s.phase.Running? && |s.ops| == 3 && Listed(s, LOGSIZE)
            && forall k | 0 <= k < 3 :: !s.ops[k].cleared
  {
    var rs := FillLog(LOGSIZE - 2);
    Guards(rs, 1);
    var gs := rs + [Cleared(rs[|rs| - 1], 1)];
    Guards(gs, 2);
    var bs := gs + [Cleared(gs[|gs| - 1], 2)];
    Appends(bs, 1);
    var cs := bs + [Appended(bs[|bs| - 1], 1)];
    Appends(cs, 2);
    ss := cs + [Appended(cs[|cs| - 1], 2)];
  }

  ghost predicate Committing(ss: seq<State>, i: nat) {
    && Run(MKFS_LAYOUT, BlankDisk(), MAXOPBLOCKS, ss)
    && var s := ss[|ss| - 1];
    && s.phase == WritingLog(i) && i < LOGSIZE && Listed(s, LOGSIZE)
  }

  /** The first of the operations ends. */
  function Ended(s: State): State
    requires s.ops != []
  {
    s.(ops := s.ops[1..], history := s.history + [End(s.ops[0].id)],
       phase := if |s.ops| == 1 then WritingLog(0) else Running)
  }

  lemma {:induction false} AllEnd(ss: seq<State>) returns (ts: seq<State>)
    requires Run(MKFS_LAYOUT, BlankDisk(), MAXOPBLOCKS, ss)
    requires var s := ss[|ss| - 1];
             && s.phase.Running? && s.ops != [] && Listed(s, LOGSIZE)
             && forall k | 0 <= k < |s.ops| :: !s.ops[k].cleared
    ensures Committing(ts, 0)
    decreases |ss[|ss| - 1].ops|
  {
    var s := ss[|ss| - 1];
    var t := Ended(s);
    assert s.ops[..0] + s.ops[1..] == s.ops[1..];
    assert EndStep(s, t, 0);
    Extend(MKFS_LAYOUT, BlankDisk(), MAXOPBLOCKS, ss, t);
    ts := ss + [t];
    if |s.ops| > 1 {
      ts := AllEnd(ts);
    }
  }

  /** write_log copies slot after slot. */
  lemma {:induction false} CopySlots(i: nat) returns (ss: seq<State>)
    requires i < LOGSIZE
    ensures Committing(ss, i)
  {
    if i == 0 {
      var rs := TenOverrun();
      ss := AllEnd(rs);
    } else {
      var rs := CopySlots(i - 1);
      var s := rs[|rs| - 1];
      var t := SlotCopied(s);
      assert LogStep(MKFS_LAYOUT, s, t);
      Extend(MKFS_LAYOUT, BlankDisk(), MAXOPBLOCKS, rs, t);
      ss := rs + [t];
    }
  }

  function SlotCopied(s: State): State
    requires OnDisk(MKFS_LAYOUT, s.disk) && s.phase.WritingLog? && s.phase.i < |s.lh| <= LOGSIZE
    requires 0 <= s.lh[s.phase.i] < 1000
  {
    var i := s.phase.i;
    s.(disk := s.disk[3 + i := s.View(s.lh[i])], dirty := s.dirty - {3 + i}, phase := WritingLog(i + 1))
  }

  /** Slot 29 lies behind the log, on a home block, and the header is still empty: a crash here keeps
      what no operation wrote. */
  lemma TenTear() returns (ss: seq<State>)
    ensures Run(MKFS_LAYOUT, BlankDisk(), MAXOPBLOCKS, ss)
    ensures |ss[|ss| - 1].lh| > MKFS_LAYOUT.Capacity() && !Atomic(MKFS_LAYOUT, BlankDisk(), ss[|ss| - 1])
  {
    var rs := CopySlots(LOGSIZE - 1);
    var s := rs[|rs| - 1];
    var t := SlotCopied(s);
    assert LogStep(MKFS_LAYOUT, s, t);
    Extend(MKFS_LAYOUT, BlankDisk(), MAXOPBLOCKS, rs, t);
    ss := rs + [t];
    assert t.disk[VICTIM] == Mark();
    RecoverEmpty(MKFS_LAYOUT, t.disk);
    assert Mark().words[0] != Blank().words[0];
    forall ops: set<OpId>
      ensures !WholeOnly(MKFS_LAYOUT, BlankDisk(), t, ops)
    {
      SparedBlock(BlankDisk(), t.history, ops, VICTIM);
    }
  }

  ghost predicate CanPanic(budget: nat) {
    exists d0, ss: seq<State>, n ::
      0 <= n < |ss| && Run(MKFS_LAYOUT, d0, budget, ss) && Panics(MKFS_LAYOUT, ss[n])
  }

  ghost predicate CanOverrun(budget: nat) {
    exists d0, ss: seq<State>, n ::
      0 <= n < |ss| && Run(MKFS_LAYOUT, d0, budget, ss) && |ss[n].lh| > MKFS_LAYOUT.Capacity()
  }

  ghost predicate CanTear(budget: nat) {
    exists d0, ss: seq<State>, n ::
      0 <= n < |ss| && Run(MKFS_LAYOUT, d0, budget, ss) && !Atomic(MKFS_LAYOUT, d0, ss[n])
  }

  /** On the layout mkfs writes, all three go wrong exactly when operations may write MAXOPBLOCKS blocks
      or more: log_write can panic, the list can outgrow the log, and a crash can leave a disk that no
      set of whole operations explains. */
  lemma TooBigExactly(budget: nat)
    ensures CanPanic(budget) <==> budget >= MAXOPBLOCKS
    ensures CanOverrun(budget) <==> budget >= MAXOPBLOCKS
    ensures CanTear(budget) <==> budget >= MAXOPBLOCKS
  {
    if budget >= MAXOPBLOCKS {
      var ps := TenPanics();
      SmallerBudget(MKFS_LAYOUT, BlankDisk(), MAXOPBLOCKS, budget, ps);
      assert Panics(MKFS_LAYOUT, ps[|ps| - 1]);
      var ts := TenTear();
      SmallerBudget(MKFS_LAYOUT, BlankDisk(), MAXOPBLOCKS, budget, ts);
      assert !Atomic(MKFS_LAYOUT, BlankDisk(), ts[|ts| - 1]);
    } else {
      if CanPanic(budget) {
        var d0, ss: seq<State>, n :| 0 <= n < |ss| && Run(MKFS_LAYOUT, d0, budget, ss) && Panics(MKFS_LAYOUT, ss[n]);
        NeverTooBig(MKFS_LAYOUT, d0, budget, ss, n);
      }
      if CanOverrun(budget) {
        var d0, ss: seq<State>, n :|
          0 <= n < |ss| && Run(MKFS_LAYOUT, d0, budget, ss) && |ss[n].lh| > MKFS_LAYOUT.Capacity();
        RunFits(MKFS_LAYOUT, d0, budget, ss, n);
      }
      if CanTear(budget) {
        var d0, ss: seq<State>, n :|
          0 <= n < |ss| && Run(MKFS_LAYOUT, d0, budget, ss) && !Atomic(MKFS_LAYOUT, d0, ss[n]);
        SafeBudgetIsAtomic(MKFS_LAYOUT, d0, budget, ss, n);
      }
    }
  }
}
