/** One sleep lock (sleeplock.c), the process table's lock, the per-CPU schedulers and sleep/wakeup of
    proc.c, as interleaved steps.  Taking or releasing a spinlock is one step; what a process does
    between two of them is split further wherever another process could see the difference. */
module SleepLock {

  datatype Option<T> = None | Some(value: T)

  /** Where a process is.  The comment says what it does next. */
  datatype Pc =
    | Out                  // not in acquiresleep or releasesleep
    | AcqLk                // acquiresleep, or sleep on its way back: acquire lk->lk
    | Test                 // look at lk->locked
    | SleepPt              // sleep(lk, &lk->lk): acquire ptable.lock
    | SleepRel             // release lk->lk
    | SleepSet             // set chan and SLEEPING
    | SleepSched           // swtch to the scheduler
    | SleepBack            // swtch'ed out; once running: clear chan, release ptable.lock
    | Grant                // holds the sleep lock: release lk->lk
    | RelLk                // releasesleep: acquire lk->lk
    | Clear                // clear lk->locked
    | WakePt               // wakeup(lk): acquire ptable.lock
    | WakeScan             // run wakeup1 over the table
    | WakeRel              // release ptable.lock
    | RelEnd               // release lk->lk
    | YieldSched(back: Pc) // yield, or sleep on some other channel: swtch to the scheduler
    | YieldBack(back: Pc)  // swtch'ed out; once running: release ptable.lock

  datatype RunState = Runnable | Running | Sleeping

  /** onLock: chan == lk.  holds: between acquiresleep and releasesleep. */
  datatype Proc = Proc(run: RunState, onLock: bool, pc: Pc, holds: bool)

  datatype Owner = Free | ByProc(p: int) | ByCpu(c: int)

  datatype State = State(
    procs: seq<Proc>,
    cpus: seq<Option<int>>,   // which process each CPU runs
    lk: Option<int>,          // holder of lk->lk
    pt: Owner,                // holder of ptable.lock, which a swtch hands over
    locked: bool)             // lk->locked

  predicate HasLk(q: Proc) {
    q.pc.Test? || q.pc.SleepPt? || q.pc.SleepRel? || q.pc.Grant? || q.pc.Clear?
    || q.pc.WakePt? || q.pc.WakeScan? || q.pc.WakeRel? || q.pc.RelEnd?
  }

  predicate HasPt(q: Proc) {
    q.pc.SleepRel? || q.pc.SleepSet? || q.pc.SleepSched? || q.pc.WakeScan? || q.pc.WakeRel? || q.pc.YieldSched?
    || (q.run.Running? && (q.pc.SleepBack? || q.pc.YieldBack?))
  }

  /** Points at which a process has no spinlock, so that a timer interrupt can make it yield. */
  predicate Interruptible(pc: Pc) {
    pc.Out? || pc.AcqLk? || pc.RelLk?
  }

  function Wakeup1(ps: seq<Proc>): (r: seq<Proc>)
    ensures |r| == |ps|
    ensures forall i | 0 <= i < |ps| :: r[i] == if ps[i].run.Sleeping? && ps[i].onLock then ps[i].(run := Runnable) else ps[i]
  {
    seq(|ps|, i requires 0 <= i < |ps| =>
      if ps[i].run.Sleeping? && ps[i].onLock then ps[i].(run := Runnable) else ps[i])
  }

  // ---------- steps ----------

  predicate OnCpu(s: State, p: int) {
    exists c :: 0 <= c < |s.cpus| && s.cpus[c] == Some(p)
  }

  /** What process p, on its CPU, can do next. */
  ghost predicate ProcStep(s: State, t: State, p: int) {
    && 0 <= p < |s.procs| && OnCpu(s, p)
    && var q := s.procs[p];
    match q.pc
    case Out =>
      t == s.(procs := s.procs[p := q.(pc := if q.holds then RelLk else AcqLk)])
    case AcqLk =>
      s.lk.None? && t == s.(lk := Some(p), procs := s.procs[p := q.(pc := Test)])
    case Test =>
      t == if s.locked then s.(procs := s.procs[p := q.(pc := SleepPt)])
           else s.(locked := true, procs := s.procs[p := q.(pc := Grant, holds := true)])
    case SleepPt =>
      s.pt.Free? && t == s.(pt := ByProc(p), procs := s.procs[p := q.(pc := SleepRel)])
    case SleepRel =>
      t == s.(lk := None, procs := s.procs[p := q.(pc := SleepSet)])
    case SleepSet =>
      t == s.(procs := s.procs[p := q.(pc := SleepSched, run := Sleeping, onLock := true)])
    case SleepSched =>
      exists c :: 0 <= c < |s.cpus| && s.cpus[c] == Some(p) &&
        t == s.(pt := ByCpu(c), cpus := s.cpus[c := None], procs := s.procs[p := q.(pc := SleepBack)])
    case SleepBack =>
      t == s.(pt := Free, procs := s.procs[p := q.(pc := AcqLk, onLock := false)])
    case Grant =>
      t == s.(lk := None, procs := s.procs[p := q.(pc := Out)])
    case RelLk =>
      s.lk.None? && t == s.(lk := Some(p), procs := s.procs[p := q.(pc := Clear)])
    case Clear =>
      t == s.(locked := false, procs := s.procs[p := q.(pc := WakePt, holds := false)])
    case WakePt =>
      s.pt.Free? && t == s.(pt := ByProc(p), procs := s.procs[p := q.(pc := WakeScan)])
    case WakeScan =>
      t == s.(procs := Wakeup1(s.procs)[p := q.(pc := WakeRel)])
    case WakeRel =>
      t == s.(pt := Free, procs := s.procs[p := q.(pc := RelEnd)])
    case RelEnd =>
      t == s.(lk := None, procs := s.procs[p := q.(pc := Out)])
    case YieldSched(back) =>
      exists c :: 0 <= c < |s.cpus| && s.cpus[c] == Some(p) &&
        t == s.(pt := ByCpu(c), cpus := s.cpus[c := None], procs := s.procs[p := q.(pc := YieldBack(back))])
    case YieldBack(back) =>
      t == s.(pt := Free, procs := s.procs[p := q.(pc := back)])
  }

  /** yield (run == Runnable), or sleep on another channel (run == Sleeping). */
  ghost predicate YieldStep(s: State, t: State, p: int, run: RunState) {
    && 0 <= p < |s.procs| && OnCpu(s, p) && s.pt.Free? && !run.Running?
    && var q := s.procs[p];
    Interruptible(q.pc) && t == s.(pt := ByProc(p), procs := s.procs[p := q.(pc := YieldSched(q.pc), run := run)])
  }

  predicate PickStep(s: State, t: State, c: int, p: int)
    requires 0 <= c < |s.cpus|
  {
    && 0 <= p < |s.procs| && s.procs[p].run.Runnable?
    && t == s.(pt := ByProc(p), cpus := s.cpus[c := Some(p)], procs := s.procs[p := s.procs[p].(run := Running)])
  }

  /** A scheduler with nothing to run takes or drops ptable.lock, or picks a runnable process. */
  ghost predicate SchedStep(s: State, t: State, c: int) {
    && 0 <= c < |s.cpus| && s.cpus[c].None?
    && ((s.pt.Free? && t == s.(pt := ByCpu(c)))
        || (s.pt == ByCpu(c) && t == s.(pt := Free))
        || (s.pt == ByCpu(c) && exists p :: PickStep(s, t, c, p)))
  }

  /** Someone kills a sleeper, or wakes a sleeper on another channel. */
  ghost predicate RouseStep(s: State, t: State, p: int) {
    && 0 <= p < |s.procs| && s.pt.Free? && s.procs[p].run.Sleeping?
    && t == s.(procs := s.procs[p := s.procs[p].(run := Runnable)])
  }

  ghost predicate Next(s: State, t: State) {
    || (exists p :: ProcStep(s, t, p))
    || (exists p, run :: YieldStep(s, t, p, run))
    || (exists c :: SchedStep(s, t, c))
    || (exists p :: RouseStep(s, t, p))
  }

  /** All processes are ready to run for the first time, the lock is free and every CPU is idle. */
  ghost predicate Init(s: State) {
    && (forall p | 0 <= p < |s.procs| :: s.procs[p] == Proc(Runnable, false, YieldBack(Out), false))
    && (forall c | 0 <= c < |s.cpus| :: s.cpus[c].None?)
    && s.lk.None? && s.pt.Free? && !s.locked
  }

  ghost predicate Follows(ss: seq<State>, i: int)
    requires 0 < i < |ss|
  {
    Next(ss[i - 1], ss[i])
  }

  ghost predicate Run(ss: seq<State>) {
    |ss| > 0 && Init(ss[0]) && forall i | 0 < i < |ss| :: Follows(ss, i)
  }

  // ---------- the invariant ----------

  predicate Switching(q: Proc) {
    q.pc.SleepSched? || q.pc.YieldSched?
  }

  function BackOf(pc: Pc): Pc {
    if pc.YieldSched? || pc.YieldBack? then pc.back else pc
  }

  /** What holds of each process by itself. */
  predicate Local(q: Proc) {
    && ((q.pc.YieldSched? || q.pc.YieldBack?) ==> Interruptible(q.pc.back))
    && (Switching(q) ==> !q.run.Running?)
    && (q.onLock ==> q.pc.SleepSched? || q.pc.SleepBack?)
    && (!q.run.Running? ==> Switching(q) || q.pc.SleepBack? || q.pc.YieldBack?)
    && var b := BackOf(q.pc);
    && (b.RelLk? || b.Clear? || b.Grant? ==> q.holds)
    && (q.holds ==> b.Out? || b.RelLk? || b.Clear? || b.Grant?)
  }

  ghost predicate AllLocal(s: State) {
    forall p | 0 <= p < |s.procs| :: Local(s.procs[p])
  }

  ghost predicate LkOk(s: State) {
    && (forall p | 0 <= p < |s.procs| :: HasLk(s.procs[p]) <==> s.lk == Some(p))
    && (s.lk.Some? ==> 0 <= s.lk.value < |s.procs|)
  }

  ghost predicate PtOk(s: State) {
    && (forall p | 0 <= p < |s.procs| :: HasPt(s.procs[p]) <==> s.pt == ByProc(p))
    && (s.pt.ByProc? ==> 0 <= s.pt.p < |s.procs|)
    && (s.pt.ByCpu? ==> 0 <= s.pt.c < |s.cpus| && s.cpus[s.pt.c].None?)
  }

  /** A process is on a CPU exactly if it is RUNNING or just about to leave; never on two. */
  ghost predicate CpusOk(s: State) {
    && (forall c | 0 <= c < |s.cpus| && s.cpus[c].Some? :: 0 <= s.cpus[c].value < |s.procs|)
    && (forall c, d | 0 <= c < d < |s.cpus| && s.cpus[c].Some? :: s.cpus[c] != s.cpus[d])
    && (forall p | 0 <= p < |s.procs| :: OnCpu(s, p) <==> s.procs[p].run.Running? || Switching(s.procs[p]))
  }

  ghost predicate Mutex(s: State) {
    && (forall p, q | 0 <= p < q < |s.procs| :: !(s.procs[p].holds && s.procs[q].holds))
    && (s.locked <==> exists p :: 0 <= p < |s.procs| && s.procs[p].holds)
  }

  /** Asleep on the lock, or past the point of no return on the way there. */
  predicate Committed(q: Proc) {
    q.pc.SleepPt? || q.pc.SleepRel? || q.pc.SleepSet? || (q.run.Sleeping? && q.onLock)
  }

  predicate AboutToWake(q: Proc) {
    q.pc.WakePt? || q.pc.WakeScan?
  }

  ghost predicate SomeWaker(s: State) {
    exists r :: 0 <= r < |s.procs| && AboutToWake(s.procs[r])
  }

  ghost predicate Wakes(s: State) {
    forall p | 0 <= p < |s.procs| && Committed(s.procs[p]) :: s.locked || SomeWaker(s)
  }

  ghost predicate Inv(s: State) {
    AllLocal(s) && LkOk(s) && PtOk(s) && CpusOk(s) && Mutex(s) && Wakes(s)
  }

  lemma InitInv(s: State)
    requires Init(s)
    ensures Inv(s)
  {
  }

  // ---------- steps keep it ----------

  /** Process p alone changes, on the same CPU. */
  ghost predicate Only(s: State, t: State, p: int) {
    && 0 <= p < |s.procs| == |t.procs| && t.procs == s.procs[p := t.procs[p]] && t.cpus == s.cpus
    && (t.procs[p].run.Running? || Switching(t.procs[p]) <==> s.procs[p].run.Running? || Switching(s.procs[p]))
  }

  lemma OnlyCpus(s: State, t: State, p: int)
    requires CpusOk(s) && Only(s, t, p)
    ensures CpusOk(t)
  {
    forall q | 0 <= q < |t.procs|
      ensures OnCpu(t, q) <==> t.procs[q].run.Running? || Switching(t.procs[q])
    {
      assert OnCpu(t, q) <==> OnCpu(s, q);
    }
  }

  lemma OnlyMutex(s: State, t: State, p: int)
    requires Mutex(s) && Only(s, t, p) && t.locked == s.locked && t.procs[p].holds == s.procs[p].holds
    ensures Mutex(t)
  {
    assert forall q | 0 <= q < |t.procs| :: t.procs[q].holds == s.procs[q].holds;
  }

  /** A step that neither commits p nor takes a waker away. */
  lemma OnlyWakes(s: State, t: State, p: int)
    requires Wakes(s) && Only(s, t, p) && (s.locked ==> t.locked)
    requires Committed(t.procs[p]) ==> Committed(s.procs[p])
    requires AboutToWake(s.procs[p]) ==> AboutToWake(t.procs[p])
    ensures Wakes(t)
  {
    if SomeWaker(s) {
      var r :| 0 <= r < |s.procs| && AboutToWake(s.procs[r]);
      assert AboutToWake(t.procs[r]);
    }
    forall q | 0 <= q < |t.procs| && Committed(t.procs[q])
      ensures t.locked || SomeWaker(t)
    {
      assert Committed(s.procs[q]);
    }
  }

  /** p keeps, takes or drops each spinlock as its new position says. */
  lemma OnlyLocks(s: State, t: State, p: int)
    requires LkOk(s) && PtOk(s) && Only(s, t, p)
    requires t.lk == if HasLk(t.procs[p]) then Some(p) else if HasLk(s.procs[p]) then None else s.lk
    requires HasLk(t.procs[p]) && !HasLk(s.procs[p]) ==> s.lk.None?
    requires t.pt == if HasPt(t.procs[p]) then ByProc(p) else if HasPt(s.procs[p]) then Free else s.pt
    requires HasPt(t.procs[p]) && !HasPt(s.procs[p]) ==> s.pt.Free?
    ensures LkOk(t) && PtOk(t)
  {
  }

  predicate Quiet(pc: Pc) {
    pc.Out? || pc.AcqLk? || pc.SleepPt? || pc.SleepRel? || pc.SleepSet? || pc.SleepBack? || pc.Grant? || pc.RelLk?
    || pc.WakePt? || pc.WakeRel? || pc.RelEnd? || pc.YieldBack?
  }

  /** Steps that change neither the holder of the sleep lock nor who is about to wake whom. */
  lemma QuietFacts(s: State, t: State, p: int)
    requires AllLocal(s) && CpusOk(s) && LkOk(s) && PtOk(s) && ProcStep(s, t, p) && Quiet(s.procs[p].pc)
    ensures Only(s, t, p) && t.locked == s.locked && t.procs[p].holds == s.procs[p].holds && Local(t.procs[p])
    ensures Committed(t.procs[p]) ==> Committed(s.procs[p])
    ensures AboutToWake(s.procs[p]) ==> AboutToWake(t.procs[p])
  {
    assert Local(s.procs[p]);
    assert s.procs[p].run.Running?;
  }

  lemma QuietLocks(s: State, t: State, p: int)
    requires AllLocal(s) && CpusOk(s) && LkOk(s) && PtOk(s) && ProcStep(s, t, p) && Quiet(s.procs[p].pc)
    ensures LkOk(t) && PtOk(t)
  {
    QuietFacts(s, t, p);
    assert Local(s.procs[p]);
    OnlyLocks(s, t, p);
  }

  lemma QuietStep(s: State, t: State, p: int)
    requires Inv(s) && ProcStep(s, t, p) && Quiet(s.procs[p].pc)
    ensures Inv(t)
  {
    QuietFacts(s, t, p);
    QuietLocks(s, t, p);
    OnlyCpus(s, t, p);
    OnlyMutex(s, t, p);
    OnlyWakes(s, t, p);
  }

  lemma TestStep(s: State, t: State, p: int)
    requires Inv(s) && ProcStep(s, t, p) && s.procs[p].pc.Test?
    ensures Inv(t)
  {
    OnlyCpus(s, t, p);
    if s.locked {
      OnlyMutex(s, t, p);
    } else {
      assert t.procs[p].holds;
    }
  }

  lemma ClearStep(s: State, t: State, p: int)
    requires Inv(s) && ProcStep(s, t, p) && s.procs[p].pc.Clear?
    ensures Inv(t)
  {
    OnlyCpus(s, t, p);
    assert AboutToWake(t.procs[p]);
  }

  /** wakeup1: nobody is left asleep on the lock, and nobody can be on the way there. */
  lemma ScanStep(s: State, t: State, p: int)
    requires Inv(s) && ProcStep(s, t, p) && s.procs[p].pc.WakeScan?
    ensures Inv(t)
  {
    forall q | 0 <= q < |t.procs|
      ensures OnCpu(t, q) <==> t.procs[q].run.Running? || Switching(t.procs[q])
      ensures !Committed(t.procs[q])
    {
      assert OnCpu(t, q) <==> OnCpu(s, q);
    }
    assert forall q | 0 <= q < |t.procs| :: t.procs[q].holds == s.procs[q].holds;
  }

  /** swtch to the scheduler: the CPU takes ptable.lock over. */
  ghost predicate Leaves(s: State, t: State, p: int, c: int) {
    && 0 <= p < |s.procs| && 0 <= c < |s.cpus| && s.cpus[c] == Some(p) && Switching(s.procs[p])
    && t == s.(pt := ByCpu(c), cpus := s.cpus[c := None],
        procs := s.procs[p := s.procs[p].(pc := if s.procs[p].pc.SleepSched? then SleepBack else YieldBack(s.procs[p].pc.back))])
  }

  lemma LeaveCpus(s: State, t: State, p: int, c: int)
    requires AllLocal(s) && CpusOk(s) && Leaves(s, t, p, c)
    ensures CpusOk(t)
  {
    assert Local(s.procs[p]);
    forall q | 0 <= q < |t.procs|
      ensures OnCpu(t, q) <==> t.procs[q].run.Running? || Switching(t.procs[q])
    {
      if q != p && OnCpu(s, q) {
        var d :| 0 <= d < |s.cpus| && s.cpus[d] == Some(q);
        assert t.cpus[d] == Some(q);
      }
      if OnCpu(t, q) {
        var d :| 0 <= d < |t.cpus| && t.cpus[d] == Some(q);
        assert s.cpus[d] == Some(q);
      }
    }
  }

  lemma LeaveRest(s: State, t: State, p: int, c: int)
    requires Inv(s) && Leaves(s, t, p, c)
    ensures AllLocal(t) && LkOk(t) && PtOk(t) && Mutex(t) && Wakes(t)
  {
    assert Local(s.procs[p]);
    assert forall q | 0 <= q < |t.procs| :: t.procs[q].holds == s.procs[q].holds;
    WakesSame(s, t);
  }

  lemma LeaveStep(s: State, t: State, p: int)
    requires Inv(s) && ProcStep(s, t, p) && Switching(s.procs[p])
    ensures Inv(t)
  {
    var c :| 0 <= c < |s.cpus| && s.cpus[c] == Some(p) && t.pt == ByCpu(c) && t.cpus == s.cpus[c := None];
    assert Leaves(s, t, p, c);
    LeaveCpus(s, t, p, c);
    LeaveRest(s, t, p, c);
  }

  lemma WakesSame(s: State, t: State)
    requires Wakes(s) && |t.procs| == |s.procs| && (s.locked ==> t.locked)
    requires forall q | 0 <= q < |s.procs| :: Committed(t.procs[q]) ==> Committed(s.procs[q])
    requires forall q | 0 <= q < |s.procs| :: AboutToWake(s.procs[q]) ==> AboutToWake(t.procs[q])
    ensures Wakes(t)
  {
    if SomeWaker(s) {
      var r :| 0 <= r < |s.procs| && AboutToWake(s.procs[r]);
      assert AboutToWake(t.procs[r]);
    }
  }

  lemma YieldInv(s: State, t: State, p: int, run: RunState)
    requires Inv(s) && YieldStep(s, t, p, run)
    ensures Inv(t)
  {
    OnlyCpus(s, t, p);
    OnlyMutex(s, t, p);
    OnlyWakes(s, t, p);
  }

  lemma PickInv(s: State, t: State, c: int, p: int)
    requires Inv(s) && 0 <= c < |s.cpus| && s.cpus[c].None? && s.pt == ByCpu(c) && PickStep(s, t, c, p)
    ensures Inv(t)
  {
    assert !OnCpu(s, p) by {
      assert !HasPt(s.procs[p]);
    }
    forall q | 0 <= q < |t.procs|
      ensures OnCpu(t, q) <==> t.procs[q].run.Running? || Switching(t.procs[q])
    {
      if q == p {
        assert t.cpus[c] == Some(p);
      } else if OnCpu(s, q) {
        var d :| 0 <= d < |s.cpus| && s.cpus[d] == Some(q);
        assert t.cpus[d] == Some(q);
      }
      if OnCpu(t, q) && q != p {
        var d :| 0 <= d < |t.cpus| && t.cpus[d] == Some(q);
        assert s.cpus[d] == Some(q);
      }
    }
    assert forall q | 0 <= q < |t.procs| :: t.procs[q].holds == s.procs[q].holds;
    WakesSame(s, t);
  }

  lemma SchedInv(s: State, t: State, c: int)
    requires Inv(s) && SchedStep(s, t, c)
    ensures Inv(t)
  {
    if s.pt == ByCpu(c) {
      if p :| PickStep(s, t, c, p) {
        PickInv(s, t, c, p);
        return;
      }
    }
    assert forall q :: OnCpu(t, q) <==> OnCpu(s, q);
    WakesSame(s, t);
  }

  lemma RouseInv(s: State, t: State, p: int)
    requires Inv(s) && RouseStep(s, t, p)
    ensures Inv(t)
  {
    OnlyCpus(s, t, p);
    OnlyMutex(s, t, p);
    OnlyWakes(s, t, p);
  }

  lemma NextInv(s: State, t: State)
    requires Inv(s) && Next(s, t)
    ensures Inv(t)
  {
    if p :| ProcStep(s, t, p) {
      var q := s.procs[p];
      if q.pc.Test? {
        TestStep(s, t, p);
      } else if q.pc.Clear? {
        ClearStep(s, t, p);
      } else if q.pc.WakeScan? {
        ScanStep(s, t, p);
      } else if Switching(q) {
        LeaveStep(s, t, p);
      } else {
        QuietStep(s, t, p);
      }
    } else if p, run :| YieldStep(s, t, p, run) {
      YieldInv(s, t, p, run);
    } else if c :| SchedStep(s, t, c) {
      SchedInv(s, t, c);
    } else {
      var p :| RouseStep(s, t, p);
      RouseInv(s, t, p);
    }
  }

  lemma StepOf(ss: seq<State>, n: nat)
    requires Run(ss) && 0 < n < |ss|
    ensures Next(ss[n - 1], ss[n])
  {
    assert Follows(ss, n);
  }

  lemma {:induction false} RunInv(ss: seq<State>, n: nat)
    requires Run(ss) && n < |ss|
    ensures Inv(ss[n])
  {
    if n == 0 {
      InitInv(ss[0]);
    } else {
      RunInv(ss, n - 1);
      StepOf(ss, n);
      NextInv(ss[n - 1], ss[n]);
    }
  }

  // ---------- what the protocol guarantees ----------

  /** No lost wakeup: in every interleaving a process asleep on the lock finds it held, or its inner
      spinlock is held by a releaser that has yet to finish its wakeup. */
  lemma NoLostWakeup(ss: seq<State>, n: nat, p: int)
    requires Run(ss) && n < |ss| && 0 <= p < |ss[n].procs|
    requires ss[n].procs[p].run.Sleeping? && ss[n].procs[p].onLock
    ensures ss[n].locked
            || (ss[n].lk.Some? && 0 <= ss[n].lk.value < |ss[n].procs| && AboutToWake(ss[n].procs[ss[n].lk.value]))
  {
    RunInv(ss, n);
    assert Committed(ss[n].procs[p]);
    if !ss[n].locked {
      var r :| 0 <= r < |ss[n].procs| && AboutToWake(ss[n].procs[r]);
      assert HasLk(ss[n].procs[r]);
    }
  }

  /** At most one process is between acquiresleep and releasesleep, and lk->locked says so. */
  lemma OneHolder(ss: seq<State>, n: nat, p: int, q: int)
    requires Run(ss) && n < |ss| && 0 <= p < |ss[n].procs| && 0 <= q < |ss[n].procs|
    requires ss[n].procs[p].holds
    ensures ss[n].locked && (ss[n].procs[q].holds ==> p == q)
  {
    RunInv(ss, n);
  }

  /** A RUNNING process sits on one CPU and no other, and what sits on a CPU while ptable.lock is free
      is RUNNING. */
  lemma OneCpu(ss: seq<State>, n: nat, p: int)
    requires Run(ss) && n < |ss| && 0 <= p < |ss[n].procs|
    ensures ss[n].procs[p].run.Running? ==>
              exists c :: 0 <= c < |ss[n].cpus| && ss[n].cpus[c] == Some(p)
                && forall d | 0 <= d < |ss[n].cpus| && ss[n].cpus[d] == Some(p) :: d == c
    ensures ss[n].pt.Free? && OnCpu(ss[n], p) ==> ss[n].procs[p].run.Running?
  {
    RunInv(ss, n);
    var s := ss[n];
    if s.procs[p].run.Running? {
      assert OnCpu(s, p);
      var c :| 0 <= c < |s.cpus| && s.cpus[c] == Some(p);
      forall d | 0 <= d < |s.cpus| && s.cpus[d] == Some(p)
        ensures d == c
      {
        assert s.cpus[c] == s.cpus[d];
      }
    }
  }

  // ---------- what the two calls return with ----------

  /** In acquiresleep: without the lock until it is granted. */
  predicate Acquiring(q: Proc) {
    var b := BackOf(q.pc);
    if q.holds then b.Grant?
    else b.AcqLk? || b.Test? || b.SleepPt? || b.SleepRel? || b.SleepSet? || b.SleepSched? || b.SleepBack?
  }

  /** In releasesleep: with the lock until lk->locked is cleared. */
  predicate Releasing(q: Proc) {
    var b := BackOf(q.pc);
    if q.holds then b.RelLk? || b.Clear?
    else b.WakePt? || b.WakeScan? || b.WakeRel? || b.RelEnd?
  }

  /** The process is where it was in its call, though it may have been put to sleep, woken or switched. */
  predicate SamePlace(q: Proc, r: Proc) {
    r.holds == q.holds && BackOf(r.pc) == BackOf(q.pc) && (r.pc.Out? ==> q.pc.Out?)
  }

  lemma OthersStep(s: State, t: State, p: int, r: int)
    requires ProcStep(s, t, r) && 0 <= p < |s.procs| && p != r
    ensures |t.procs| == |s.procs| && SamePlace(s.procs[p], t.procs[p])
  {
  }

  lemma KernelStep(s: State, t: State, p: int)
    requires 0 <= p < |s.procs|
    requires (exists r, run :: YieldStep(s, t, r, run)) || (exists c :: SchedStep(s, t, c)) || (exists r :: RouseStep(s, t, r))
    ensures |t.procs| == |s.procs| && SamePlace(s.procs[p], t.procs[p])
  {
  }

  /** Only a step of its own takes a process to another place in its call. */
  lemma OnlyOwnSteps(s: State, t: State, p: int)
    requires Next(s, t) && 0 <= p < |s.procs| && !ProcStep(s, t, p)
    ensures |t.procs| == |s.procs| && SamePlace(s.procs[p], t.procs[p])
  {
    if r :| ProcStep(s, t, r) {
      OthersStep(s, t, p, r);
    } else {
      KernelStep(s, t, p);
    }
  }

  lemma AcquiringOwn(s: State, t: State, p: int)
    requires ProcStep(s, t, p) && Local(s.procs[p]) && Acquiring(s.procs[p])
    ensures |t.procs| == |s.procs| && (Acquiring(t.procs[p]) || (t.procs[p].pc.Out? && t.procs[p].holds))
  {
  }

  lemma AcquiringStep(s: State, t: State, p: int)
    requires Next(s, t) && 0 <= p < |s.procs| && Local(s.procs[p]) && Acquiring(s.procs[p])
    ensures |t.procs| == |s.procs| && (Acquiring(t.procs[p]) || (t.procs[p].pc.Out? && t.procs[p].holds))
  {
    if ProcStep(s, t, p) {
      AcquiringOwn(s, t, p);
    } else {
      OnlyOwnSteps(s, t, p);
    }
  }

  lemma ReleasingOwn(s: State, t: State, p: int)
    requires ProcStep(s, t, p) && Local(s.procs[p]) && Releasing(s.procs[p])
    ensures |t.procs| == |s.procs| && (Releasing(t.procs[p]) || (t.procs[p].pc.Out? && !t.procs[p].holds))
    ensures s.procs[p].holds && !t.procs[p].holds ==> !t.locked
  {
  }

  lemma ReleasingStep(s: State, t: State, p: int)
    requires Next(s, t) && 0 <= p < |s.procs| && Local(s.procs[p]) && Releasing(s.procs[p])
    ensures |t.procs| == |s.procs| && (Releasing(t.procs[p]) || (t.procs[p].pc.Out? && !t.procs[p].holds))
    ensures s.procs[p].holds && !t.procs[p].holds ==> !t.locked
  {
    if ProcStep(s, t, p) {
      ReleasingOwn(s, t, p);
    } else {
      OnlyOwnSteps(s, t, p);
    }
  }

  /** From state m to state n - 1 process p is in one call, which it has begun with the step to m. */
  ghost predicate InCall(ss: seq<State>, p: int, m: nat, n: nat) {
    && 0 < m <= n < |ss| && (forall i | m - 1 <= i <= n :: 0 <= p < |ss[i].procs|)
    && ss[m - 1].procs[p].pc.Out? && forall i | m <= i < n :: !ss[i].procs[p].pc.Out?
  }

  lemma RunLocal(ss: seq<State>, n: nat, p: int)
    requires Run(ss) && n < |ss| && 0 <= p < |ss[n].procs|
    ensures Local(ss[n].procs[p]) && (ss[n].procs[p].holds ==> ss[n].locked)
  {
    RunInv(ss, n);
  }

  lemma {:induction false} StillAcquiring(ss: seq<State>, p: int, m: nat, n: nat)
    requires Run(ss) && InCall(ss, p, m, n) && ss[m].procs[p].pc.AcqLk?
    ensures Acquiring(ss[n].procs[p]) || (ss[n].procs[p].pc.Out? && ss[n].procs[p].holds)
  {
    if n == m {
      RunLocal(ss, n, p);
    } else {
      StillAcquiring(ss, p, m, n - 1);
      RunLocal(ss, n - 1, p);
      StepOf(ss, n);
      AcquiringStep(ss[n - 1], ss[n], p);
    }
  }

  /** acquiresleep returns only as the holder of the lock. */
  lemma AcquireReturnsHolder(ss: seq<State>, p: int, m: nat, n: nat)
    requires Run(ss) && InCall(ss, p, m, n) && ss[m].procs[p].pc.AcqLk? && ss[n].procs[p].pc.Out?
    ensures ss[n].procs[p].holds && ss[n].locked
  {
    StillAcquiring(ss, p, m, n);
    RunLocal(ss, n, p);
  }

  /** The lock has been free in some state after m and up to n. */
  ghost predicate FreeBetween(ss: seq<State>, m: nat, n: nat) {
    exists i :: m < i <= n && i < |ss| && !ss[i].locked
  }

  lemma {:induction false} StillReleasing(ss: seq<State>, p: int, m: nat, n: nat)
    requires Run(ss) && InCall(ss, p, m, n) && ss[m].procs[p].pc.RelLk?
    ensures Releasing(ss[n].procs[p]) || (ss[n].procs[p].pc.Out? && !ss[n].procs[p].holds)
    ensures ss[n].procs[p].holds || FreeBetween(ss, m, n)
  {
    if n == m {
      RunLocal(ss, n, p);
    } else {
      StillReleasing(ss, p, m, n - 1);
      RunLocal(ss, n - 1, p);
      StepOf(ss, n);
      ReleasingStep(ss[n - 1], ss[n], p);
    }
  }

  /** releasesleep returns without the lock, and on the way the lock has been free. */
  lemma ReleaseReturnsFree(ss: seq<State>, p: int, m: nat, n: nat)
    requires Run(ss) && InCall(ss, p, m, n) && ss[m].procs[p].pc.RelLk? && ss[n].procs[p].pc.Out?
    ensures !ss[n].procs[p].holds && FreeBetween(ss, m, n)
  {
    StillReleasing(ss, p, m, n);
  }

  lemma HoldingOwn(s: State, t: State, p: int)
    requires ProcStep(s, t, p) && s.procs[p].holds && !s.procs[p].pc.Clear?
    ensures |t.procs| == |s.procs| && t.procs[p].holds
  {
  }

  /** Whoever holds the lock keeps it until the step in releasesleep that clears lk->locked. */
  lemma {:induction false} HolderKeeps(ss: seq<State>, p: int, m: nat, n: nat)
    requires Run(ss) && m <= n < |ss| && (forall i | m <= i <= n :: 0 <= p < |ss[i].procs|) && ss[m].procs[p].holds
    requires forall i | m <= i < n :: !ss[i].procs[p].pc.Clear?
    ensures ss[n].procs[p].holds && ss[n].locked
  {
    if n > m {
      HolderKeeps(ss, p, m, n - 1);
      StepOf(ss, n);
      if ProcStep(ss[n - 1], ss[n], p) {
        HoldingOwn(ss[n - 1], ss[n], p);
      } else {
        OnlyOwnSteps(ss[n - 1], ss[n], p);
      }
    }
    RunLocal(ss, n, p);
  }

  /** A sleeper on another channel is woken by no step of the lock. */
  lemma OthersSleepOn(s: State, t: State, p: int)
    requires Inv(s) && Next(s, t) && 0 <= p < |s.procs| && s.procs[p].run.Sleeping? && !s.procs[p].onLock
    requires |t.procs| == |s.procs| && !t.procs[p].run.Sleeping?
    ensures RouseStep(s, t, p)
  {
    assert Local(s.procs[p]);
    if r :| ProcStep(s, t, r) {
      SleeperStays(s, t, r, p);
    }
  }

  lemma SleeperStays(s: State, t: State, r: int, p: int)
    requires Inv(s) && ProcStep(s, t, r) && 0 <= p < |s.procs| && s.procs[p].run.Sleeping? && !s.procs[p].onLock
    ensures |t.procs| == |s.procs| && t.procs[p].run.Sleeping?
  {
    assert Local(s.procs[p]) && Local(s.procs[r]);
    assert s.procs[r].run.Running? || Switching(s.procs[r]);
  }
}
