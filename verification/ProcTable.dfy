/** The process table of proc.c: fork, exit, wait, sleep, wakeup and kill.  Each method is one stretch of
    code that other processes cannot interrupt: a ptable.lock critical section, or one of fork's steps
    between two of them. */
module ProcTable {

  const NPROC := 64

  /** A null parent pointer. */
  const NONE := -1

  datatype Status = UNUSED | EMBRYO | SLEEPING | RUNNABLE | RUNNING | ZOMBIE

  datatype Chan = NoChan | OnProc(p: int) | OnOther(n: int)

  /** How far fork has come with its new process. */
  datatype Stage = Slot | Stacked | Ready

  /** What the kernel is doing for a process: its place in fork or wait. */
  datatype Call = Idle | Fork(np: int, stage: Stage) | Waiting

  /** kstack == 0: no kernel stack. */
  datatype Proc = Proc(state: Status, pid: int, parent: int, chan: Chan, killed: bool, kstack: int, pgdir: int, call: Call)

  predicate Alive(q: Proc) {
    q.state.SLEEPING? || q.state.RUNNABLE? || q.state.RUNNING?
  }

  /** Past EMBRYO. */
  predicate Born(q: Proc) {
    Alive(q) || q.state.ZOMBIE?
  }

  predicate HasSpace(q: Proc) {
    Born(q) || (q.state.EMBRYO? && q.parent != NONE)
  }

  // ---------- the invariant ----------

  ghost predicate Family(ps: seq<Proc>, init: int) {
    && |ps| == NPROC && 0 <= init < NPROC && Alive(ps[init]) && ps[init].parent == NONE
    && (forall i {:trigger ps[i].parent} | 0 <= i < NPROC && i != init && Born(ps[i]) ::
      0 <= ps[i].parent < NPROC && ps[i].parent != i && Alive(ps[ps[i].parent]))
    && (forall i | 0 <= i < NPROC && ps[i].state.UNUSED? :: ps[i].parent == NONE)
    && (forall i {:trigger ps[i].parent} | 0 <= i < NPROC && ps[i].state.EMBRYO? && ps[i].parent != NONE ::
      0 <= ps[i].parent < NPROC && ps[ps[i].parent].call == Fork(i, Ready))
  }

  ghost predicate Forks(ps: seq<Proc>) {
    && (forall i {:trigger ps[i].call} | 0 <= i < |ps| && ps[i].call.Fork? ::
      && Alive(ps[i]) && 0 <= ps[i].call.np < |ps|
      && var q := ps[ps[i].call.np];
      && q.state.EMBRYO? && q.parent == (if ps[i].call.stage.Ready? then i else NONE)
      && (q.kstack == 0 <==> ps[i].call.stage.Slot?))
    && (forall i, j {:trigger ps[i].call, ps[j].call} | 0 <= i < j < |ps| && ps[i].call.Fork? && ps[j].call.Fork? ::
      ps[i].call.np != ps[j].call.np)
  }

  /** Process p is asleep in wait. */
  predicate AsleepInWait(ps: seq<Proc>, p: int)
    requires 0 <= p < |ps|
  {
    ps[p].state.SLEEPING? && ps[p].chan == OnProc(p)
  }

  ghost predicate Seen(ps: seq<Proc>) {
    forall z, p | 0 <= z < |ps| && 0 <= p < |ps| && ps[z].state.ZOMBIE? && AsleepInWait(ps, p) :: ps[z].parent != p
  }

  /** The kernel stacks in use are those of the table, one each. */
  ghost predicate StacksOk(ps: seq<Proc>, stacks: set<int>) {
    && 0 !in stacks
    && (forall i | 0 <= i < |ps| && ps[i].kstack != 0 :: ps[i].kstack in stacks)
    && (forall i, j | 0 <= i < j < |ps| && ps[i].kstack != 0 :: ps[i].kstack != ps[j].kstack)
    && (forall x | x in stacks :: exists i :: 0 <= i < |ps| && ps[i].kstack == x)
    && (forall i | 0 <= i < |ps| && ps[i].state.UNUSED? :: ps[i].kstack == 0)
    && (forall i | 0 <= i < |ps| && Born(ps[i]) :: ps[i].kstack != 0)
  }

  /** So are the address spaces. */
  ghost predicate SpacesOk(ps: seq<Proc>, spaces: set<int>) {
    && (forall i | 0 <= i < |ps| && HasSpace(ps[i]) :: ps[i].pgdir in spaces)
    && (forall i, j | 0 <= i < j < |ps| && HasSpace(ps[i]) && HasSpace(ps[j]) :: ps[i].pgdir != ps[j].pgdir)
    && (forall x | x in spaces :: exists i :: 0 <= i < |ps| && HasSpace(ps[i]) && ps[i].pgdir == x)
  }

  /** Pids are not shared; an exited process is a zombie or has been reaped, once. */
  ghost predicate PidsOk(ps: seq<Proc>, nextpid: int, exited: set<int>, reaped: seq<int>) {
    && (forall i | 0 <= i < |ps| && !ps[i].state.UNUSED? :: 0 < ps[i].pid < nextpid && ps[i].pid !in reaped)
    && (forall i, j | 0 <= i < j < |ps| && !ps[i].state.UNUSED? && !ps[j].state.UNUSED? :: ps[i].pid != ps[j].pid)
    && (forall i, j | 0 <= i < j < |reaped| :: reaped[i] != reaped[j])
    && (forall x | x in reaped :: x in exited && x < nextpid)
    && (forall i | 0 <= i < |ps| && !ps[i].state.UNUSED? :: ps[i].pid in exited <==> ps[i].state.ZOMBIE?)
    && (forall x | x in exited :: x in reaped || exists i :: 0 <= i < |ps| && ps[i].state.ZOMBIE? && ps[i].pid == x)
  }

  // ---------- one entry changes ----------

  /** Sleeping, waking, running, being killed: nothing but status bits between Alive states. */
  predicate Stirs(q: Proc, r: Proc) {
    r == q.(state := r.state, chan := r.chan, killed := r.killed, call := r.call)
    && (Alive(q) <==> Alive(r)) && (!Alive(q) ==> r.state == q.state) && (q.call.Fork? || r.call.Fork? ==> q.call == r.call)
  }

  ghost predicate AllStir(ps: seq<Proc>, qs: seq<Proc>) {
    |ps| == |qs| && forall i {:trigger ps[i]} {:trigger qs[i]} | 0 <= i < |ps| :: Stirs(ps[i], qs[i])
  }

  lemma StirFamily(ps: seq<Proc>, qs: seq<Proc>, init: int)
    requires Family(ps, init) && Forks(ps) && AllStir(ps, qs)
    ensures Family(qs, init) && Forks(qs)
  {
    assert Stirs(ps[init], qs[init]);
    forall i | 0 <= i < NPROC
      ensures i != init && Born(qs[i]) ==> 0 <= qs[i].parent < NPROC && Alive(qs[qs[i].parent])
      ensures qs[i].state.EMBRYO? && qs[i].parent != NONE ==>
                0 <= qs[i].parent < NPROC && qs[qs[i].parent].call == Fork(i, Ready)
    {
      assert Stirs(ps[i], qs[i]) && ps[i].parent == qs[i].parent;
    }
    forall i | 0 <= i < |qs| && qs[i].call.Fork?
      ensures ps[i].call == qs[i].call && Alive(qs[i])
      ensures 0 <= qs[i].call.np < |qs| && Stirs(ps[qs[i].call.np], qs[qs[i].call.np])
    {
      assert Stirs(ps[i], qs[i]) && ps[i].call == qs[i].call;
    }
  }

  lemma StirStacks(ps: seq<Proc>, qs: seq<Proc>, stacks: set<int>)
    requires StacksOk(ps, stacks) && AllStir(ps, qs)
    ensures StacksOk(qs, stacks)
  {
    forall x | x in stacks
      ensures exists i :: 0 <= i < |qs| && qs[i].kstack == x
    {
      var i :| 0 <= i < |ps| && ps[i].kstack == x;
      assert Stirs(ps[i], qs[i]);
      assert qs[i].kstack == x;
    }
  }

  lemma StirSpaces(ps: seq<Proc>, qs: seq<Proc>, spaces: set<int>)
    requires SpacesOk(ps, spaces) && AllStir(ps, qs)
    ensures SpacesOk(qs, spaces)
  {
    forall x | x in spaces
      ensures exists i :: 0 <= i < |qs| && HasSpace(qs[i]) && qs[i].pgdir == x
    {
      var i :| 0 <= i < |ps| && HasSpace(ps[i]) && ps[i].pgdir == x;
      assert Stirs(ps[i], qs[i]);
      assert HasSpace(qs[i]) && qs[i].pgdir == x;
    }
  }

  lemma StirPids(ps: seq<Proc>, qs: seq<Proc>, nextpid: int, exited: set<int>, reaped: seq<int>)
    requires PidsOk(ps, nextpid, exited, reaped) && AllStir(ps, qs)
    ensures PidsOk(qs, nextpid, exited, reaped)
  {
    forall x | x in exited && x !in reaped
      ensures exists i :: 0 <= i < |qs| && qs[i].state.ZOMBIE? && qs[i].pid == x
    {
      var i :| 0 <= i < |ps| && ps[i].state.ZOMBIE? && ps[i].pid == x;
      assert Stirs(ps[i], qs[i]);
      assert qs[i].state.ZOMBIE? && qs[i].pid == x;
    }
  }

  // ---------- the table and its steps ----------

  datatype Table = Table(
    procs: seq<Proc>,
    init: int,
    nextpid: int,
    stacks: set<int>,    // kernel stacks from kalloc, not yet freed
    spaces: set<int>,    // page directories built, not yet freed
    exited: set<int>,    // pids that called exit
    reaped: seq<int>)    // pids that wait returned

  ghost predicate Ok(t: Table) {
    && Family(t.procs, t.init) && Forks(t.procs) && Seen(t.procs)
    && StacksOk(t.procs, t.stacks) && SpacesOk(t.procs, t.spaces)
    && PidsOk(t.procs, t.nextpid, t.exited, t.reaped)
  }

  /** cur runs, at the given stage of fork. */
  predicate AtFork(t: Table, cur: int, stage: Stage) {
    && 0 <= cur < |t.procs| == NPROC && t.procs[cur].state.RUNNING? && t.procs[cur].call.Fork?
    && t.procs[cur].call.stage == stage && 0 <= t.procs[cur].call.np < NPROC
  }

  function Taken(t: Table, cur: int, k: int): Table
    requires 0 <= cur < |t.procs| && 0 <= k < |t.procs|
  {
    var q := t.procs[k].(state := EMBRYO, pid := t.nextpid);
    t.(procs := t.procs[k := q][cur := t.procs[cur].(call := Fork(k, Slot))], nextpid := t.nextpid + 1)
  }

  function Unstacked(t: Table, cur: int): Table
    requires AtFork(t, cur, Slot)
  {
    var k := t.procs[cur].call.np;
    t.(procs := t.procs[k := t.procs[k].(kstack := 0, state := UNUSED)][cur := t.procs[cur].(call := Idle)])
  }

  function WithStack(t: Table, cur: int, page: int): Table
    requires AtFork(t, cur, Slot)
  {
    var k := t.procs[cur].call.np;
    t.(procs := t.procs[k := t.procs[k].(kstack := page)][cur := t.procs[cur].(call := Fork(k, Stacked))],
       stacks := t.stacks + {page})
  }

  function Uncopied(t: Table, cur: int): Table
    requires AtFork(t, cur, Stacked)
  {
    var k := t.procs[cur].call.np;
    t.(procs := t.procs[k := t.procs[k].(pgdir := 0, kstack := 0, state := UNUSED)][cur := t.procs[cur].(call := Idle)],
       stacks := t.stacks - {t.procs[k].kstack})
  }

  function Copied(t: Table, cur: int, space: int): Table
    requires AtFork(t, cur, Stacked)
  {
    var k := t.procs[cur].call.np;
    t.(procs := t.procs[k := t.procs[k].(pgdir := space, parent := cur)][cur := t.procs[cur].(call := Fork(k, Ready))],
       spaces := t.spaces + {space})
  }

  function Started(t: Table, cur: int): Table
    requires AtFork(t, cur, Ready)
  {
    var k := t.procs[cur].call.np;
    t.(procs := t.procs[k := t.procs[k].(state := RUNNABLE, call := Idle)][cur := t.procs[cur].(call := Idle)])
  }

  // ---------- entry k changes; the others keep the fields that matter ----------

  lemma StackAt(ps: seq<Proc>, qs: seq<Proc>, k: int, stacks: set<int>, after: set<int>)
    requires StacksOk(ps, stacks) && |qs| == |ps| && 0 <= k < |ps|
    requires forall i {:trigger qs[i]} | 0 <= i < |ps| && i != k ::
      qs[i].kstack == ps[i].kstack && (qs[i].state.UNUSED? <==> ps[i].state.UNUSED?) && (Born(qs[i]) ==> Born(ps[i]))
    requires qs[k].kstack == 0 || qs[k].kstack == ps[k].kstack || qs[k].kstack !in stacks
    requires after == stacks - {ps[k].kstack} + (if qs[k].kstack == 0 then {} else {qs[k].kstack})
    requires qs[k].state.UNUSED? ==> qs[k].kstack == 0
    requires Born(qs[k]) ==> qs[k].kstack != 0
    ensures StacksOk(qs, after)
  {
    forall x | x in after
      ensures exists i :: 0 <= i < |qs| && qs[i].kstack == x
    {
      if x == qs[k].kstack {
        assert qs[k].kstack == x;
      } else {
        var i :| 0 <= i < |ps| && ps[i].kstack == x;
        assert qs[i].kstack == x;
      }
    }
  }

  lemma SpaceAt(ps: seq<Proc>, qs: seq<Proc>, k: int, spaces: set<int>, after: set<int>)
    requires SpacesOk(ps, spaces) && |qs| == |ps| && 0 <= k < |ps|
    requires forall i {:trigger qs[i]} | 0 <= i < |ps| && i != k :: qs[i].pgdir == ps[i].pgdir && (HasSpace(qs[i]) <==> HasSpace(ps[i]))
    requires HasSpace(qs[k]) ==> (HasSpace(ps[k]) && qs[k].pgdir == ps[k].pgdir) || qs[k].pgdir !in spaces
    requires after == spaces - (if HasSpace(ps[k]) then {ps[k].pgdir} else {}) + (if HasSpace(qs[k]) then {qs[k].pgdir} else {})
    ensures SpacesOk(qs, after)
  {
    forall x | x in after
      ensures exists i :: 0 <= i < |qs| && HasSpace(qs[i]) && qs[i].pgdir == x
    {
      if HasSpace(qs[k]) && x == qs[k].pgdir {
        assert qs[k].pgdir == x;
      } else {
        var i :| 0 <= i < |ps| && HasSpace(ps[i]) && ps[i].pgdir == x;
        assert HasSpace(qs[i]) && qs[i].pgdir == x;
      }
    }
  }

  /** Pids and zombies stay; entry k may be taken with a new pid, or given up unborn. */
  lemma PidAt(ps: seq<Proc>, qs: seq<Proc>, k: int, nextpid: int, next: int, exited: set<int>, reaped: seq<int>)
    requires PidsOk(ps, nextpid, exited, reaped) && |qs| == |ps| && 0 <= k < |ps| && nextpid <= next
    requires forall i {:trigger qs[i]} | 0 <= i < |ps| && i != k ::
      qs[i].pid == ps[i].pid && (qs[i].state.UNUSED? <==> ps[i].state.UNUSED?) && (qs[i].state.ZOMBIE? <==> ps[i].state.ZOMBIE?)
    requires !ps[k].state.ZOMBIE? && !qs[k].state.ZOMBIE?
    requires !qs[k].state.UNUSED? ==> (!ps[k].state.UNUSED? && qs[k].pid == ps[k].pid) || 0 < qs[k].pid == nextpid < next
    requires forall x | x in exited :: x < nextpid
    ensures PidsOk(qs, next, exited, reaped)
  {
    forall x | x in exited && x !in reaped
      ensures exists i :: 0 <= i < |qs| && qs[i].state.ZOMBIE? && qs[i].pid == x
    {
      var i :| 0 <= i < |ps| && ps[i].state.ZOMBIE? && ps[i].pid == x;
      assert qs[i].state.ZOMBIE? && qs[i].pid == x;
    }
  }

  lemma ExitedBelow(t: Table)
    requires PidsOk(t.procs, t.nextpid, t.exited, t.reaped)
    ensures forall x | x in t.exited :: x < t.nextpid
  {
    forall x | x in t.exited
      ensures x < t.nextpid
    {
      if x !in t.reaped {
        var i :| 0 <= i < |t.procs| && t.procs[i].state.ZOMBIE? && t.procs[i].pid == x;
      }
    }
  }

  lemma SeenLess(ps: seq<Proc>, qs: seq<Proc>)
    requires Seen(ps) && |ps| == |qs|
    requires forall i {:trigger qs[i]} | 0 <= i < |qs| && qs[i].state.ZOMBIE? :: ps[i].state.ZOMBIE? && ps[i].parent == qs[i].parent
    requires forall i | 0 <= i < |qs| && AsleepInWait(qs, i) :: AsleepInWait(ps, i)
    ensures Seen(qs)
  {
  }

  // ---------- fork ----------

  /** cur and its new entry k change; neither is anyone else's business. */
  ghost predicate ForkStep(ps: seq<Proc>, qs: seq<Proc>, cur: int, k: int) {
    && 0 <= cur < |ps| && 0 <= k < |ps| && cur != k && |ps| == |qs|
    && (forall i {:trigger qs[i]} | 0 <= i < |ps| && i != cur && i != k :: qs[i] == ps[i])
    && ps[cur].state.RUNNING? && qs[cur] == ps[cur].(call := qs[cur].call)
    && (ps[k].state.UNUSED? || ps[k].state.EMBRYO?) && !Alive(ps[k]) && !ps[k].call.Fork? && !qs[k].call.Fork?
    && (qs[cur].call.Idle? || (qs[cur].call.Fork? && qs[cur].call.np == k))
    && (ps[cur].call.Idle? ==> ps[k].state.UNUSED?)
    && (ps[cur].call.Fork? ==> ps[cur].call.np == k)
    && !ps[cur].call.Waiting?
  }

  /** What the new entry must look like for cur's new place in fork. */
  predicate Fits(q: Proc, call: Call, cur: int) {
    && (call.Fork? ==> q.state.EMBRYO? && q.parent == (if call.stage.Ready? then cur else NONE) && (q.kstack == 0 <==> call.stage.Slot?))
    && (call.Idle? ==> (q.state.UNUSED? && q.parent == NONE) || (q.state.RUNNABLE? && q.parent == cur))
  }

  lemma ForkFamily(ps: seq<Proc>, qs: seq<Proc>, cur: int, k: int, init: int)
    requires Family(ps, init) && Forks(ps) && ForkStep(ps, qs, cur, k) && Fits(qs[k], qs[cur].call, cur)
    ensures Family(qs, init)
  {
    forall i | 0 <= i < NPROC
      ensures i != init && Born(qs[i]) ==> 0 <= qs[i].parent < NPROC && Alive(qs[qs[i].parent])
      ensures qs[i].state.EMBRYO? && qs[i].parent != NONE ==>
                0 <= qs[i].parent < NPROC && qs[qs[i].parent].call == Fork(i, Ready)
    {
      if i != k {
        assert ps[i].parent == qs[i].parent && ps[i].state == qs[i].state;
      }
    }
  }

  lemma ForkForks(ps: seq<Proc>, qs: seq<Proc>, cur: int, k: int)
    requires Forks(ps) && ForkStep(ps, qs, cur, k) && Fits(qs[k], qs[cur].call, cur)
    ensures Forks(qs)
  {
    forall i | 0 <= i < |ps| && i != cur && ps[i].call.Fork?
      ensures ps[i].call.np != k && ps[i].call.np != cur && qs[i].call == ps[i].call
    {
      assert ps[cur].call.Fork? ==> ps[cur].call.np == k;
    }
  }

  /** What a step of fork does to entry k and to the stacks, the spaces and the pid counter. */
  ghost predicate ForkEffect(t: Table, u: Table, cur: int, k: int) {
    && ForkStep(t.procs, u.procs, cur, k) && Fits(u.procs[k], u.procs[cur].call, cur)
    && var q := t.procs[k];
    var r := u.procs[k];
    && (r.kstack == 0 || r.kstack == q.kstack || r.kstack !in t.stacks)
    && (Alive(r) ==> r.kstack != 0) && (r.state.UNUSED? ==> r.kstack == 0)
    && u.stacks == t.stacks - {q.kstack} + (if r.kstack == 0 then {} else {r.kstack})
    && (HasSpace(q) ==> HasSpace(r) && r.pgdir == q.pgdir)
    && (HasSpace(r) && !HasSpace(q) ==> r.pgdir !in t.spaces)
    && u.spaces == t.spaces + (if HasSpace(r) then {r.pgdir} else {})
    && r.pid == (if q.state.UNUSED? then t.nextpid else q.pid)
    && u.init == t.init && u.exited == t.exited && u.reaped == t.reaped
    && 0 < t.nextpid && u.nextpid == t.nextpid + (if q.state.UNUSED? then 1 else 0)
  }

  lemma ForkStacks(t: Table, u: Table, cur: int, k: int)
    requires StacksOk(t.procs, t.stacks) && ForkEffect(t, u, cur, k)
    ensures StacksOk(u.procs, u.stacks)
  {
    StackAt(t.procs, u.procs, k, t.stacks, u.stacks);
  }

  lemma ForkSpaces(t: Table, u: Table, cur: int, k: int)
    requires SpacesOk(t.procs, t.spaces) && ForkEffect(t, u, cur, k)
    ensures SpacesOk(u.procs, u.spaces)
  {
    SpaceAt(t.procs, u.procs, k, t.spaces, u.spaces);
  }

  lemma ForkPids(t: Table, u: Table, cur: int, k: int)
    requires PidsOk(t.procs, t.nextpid, t.exited, t.reaped) && ForkEffect(t, u, cur, k)
    ensures PidsOk(u.procs, u.nextpid, u.exited, u.reaped)
  {
    ExitedBelow(t);
    PidAt(t.procs, u.procs, k, t.nextpid, u.nextpid, t.exited, t.reaped);
  }

  lemma ForkSeen(t: Table, u: Table, cur: int, k: int)
    requires Seen(t.procs) && ForkEffect(t, u, cur, k)
    ensures Seen(u.procs)
  {
    SeenLess(t.procs, u.procs);
  }

  /** The whole of it, for every step of fork. */
  lemma ForkOk(t: Table, u: Table, cur: int, k: int)
    requires Ok(t) && ForkEffect(t, u, cur, k)
    ensures Ok(u)
  {
    ForkFamily(t.procs, u.procs, cur, k, t.init);
    ForkForks(t.procs, u.procs, cur, k);
    ForkStacks(t, u, cur, k);
    ForkSpaces(t, u, cur, k);
    ForkPids(t, u, cur, k);
    ForkSeen(t, u, cur, k);
  }

  /** The entry that cur's fork works on. */
  ghost predicate NewLooks(t: Table, cur: int, stage: Stage) {
    && AtFork(t, cur, stage) && 0 < t.nextpid && 0 !in t.stacks
    && var k := t.procs[cur].call.np;
    var q := t.procs[k];
    && k != cur && q.state.EMBRYO? && !q.call.Fork? && q.parent == (if stage.Ready? then cur else NONE)
    && (q.kstack == 0 <==> stage.Slot?) && (q.kstack != 0 ==> q.kstack in t.stacks) && (stage.Ready? ==> q.pgdir in t.spaces)
  }

  lemma NewIsThere(t: Table, cur: int, stage: Stage)
    requires Ok(t) && 0 < t.nextpid && AtFork(t, cur, stage)
    ensures NewLooks(t, cur, stage)
  {
    assert t.procs[cur].call.Fork?;
  }

  lemma UnstackedEffect(t: Table, cur: int)
    requires NewLooks(t, cur, Slot)
    ensures ForkEffect(t, Unstacked(t, cur), cur, t.procs[cur].call.np)
  {
  }

  lemma WithStackEffect(t: Table, cur: int, page: int)
    requires NewLooks(t, cur, Slot) && page != 0 && page !in t.stacks
    ensures ForkEffect(t, WithStack(t, cur, page), cur, t.procs[cur].call.np)
  {
  }

  lemma UncopiedEffect(t: Table, cur: int)
    requires NewLooks(t, cur, Stacked)
    ensures ForkEffect(t, Uncopied(t, cur), cur, t.procs[cur].call.np)
  {
  }

  lemma CopiedEffect(t: Table, cur: int, space: int)
    requires NewLooks(t, cur, Stacked) && space !in t.spaces
    ensures ForkEffect(t, Copied(t, cur, space), cur, t.procs[cur].call.np)
  {
  }

  lemma StartedEffect(t: Table, cur: int)
    requires NewLooks(t, cur, Ready)
    ensures ForkEffect(t, Started(t, cur), cur, t.procs[cur].call.np)
  {
  }

  lemma TakenEffect(t: Table, cur: int, k: int)
    requires 0 < t.nextpid && 0 <= cur < |t.procs| && 0 <= k < |t.procs| && 0 !in t.stacks
    requires t.procs[cur].state.RUNNING? && t.procs[cur].call.Idle?
    requires t.procs[k].state.UNUSED? && !t.procs[k].call.Fork? && t.procs[k].kstack == 0 && t.procs[k].parent == NONE
    ensures ForkEffect(t, Taken(t, cur, k), cur, k)
  {
  }

  lemma UnusedLooks(t: Table, k: int)
    requires Ok(t) && 0 <= k < NPROC && t.procs[k].state.UNUSED?
    ensures !t.procs[k].call.Fork? && t.procs[k].kstack == 0 && t.procs[k].parent == NONE && 0 !in t.stacks
  {
    assert t.procs[k].call == t.procs[k].call;
  }

  lemma TakenOk(t: Table, cur: int, k: int)
    requires Ok(t) && 0 < t.nextpid && 0 <= cur < NPROC && 0 <= k < NPROC
    requires t.procs[cur].state.RUNNING? && t.procs[cur].call.Idle? && t.procs[k].state.UNUSED?
    ensures Ok(Taken(t, cur, k))
  {
    UnusedLooks(t, k);
    TakenEffect(t, cur, k);
    ForkOk(t, Taken(t, cur, k), cur, k);
  }

  lemma UnstackedOk(t: Table, cur: int)
    requires Ok(t) && 0 < t.nextpid && AtFork(t, cur, Slot)
    ensures Ok(Unstacked(t, cur))
  {
    NewIsThere(t, cur, Slot);
    UnstackedEffect(t, cur);
    ForkOk(t, Unstacked(t, cur), cur, t.procs[cur].call.np);
  }

  lemma WithStackOk(t: Table, cur: int, page: int)
    requires Ok(t) && 0 < t.nextpid && AtFork(t, cur, Slot) && page != 0 && page !in t.stacks
    ensures Ok(WithStack(t, cur, page))
  {
    NewIsThere(t, cur, Slot);
    WithStackEffect(t, cur, page);
    ForkOk(t, WithStack(t, cur, page), cur, t.procs[cur].call.np);
  }

  lemma UncopiedOk(t: Table, cur: int)
    requires Ok(t) && 0 < t.nextpid && AtFork(t, cur, Stacked)
    ensures Ok(Uncopied(t, cur))
  {
    NewIsThere(t, cur, Stacked);
    UncopiedEffect(t, cur);
    ForkOk(t, Uncopied(t, cur), cur, t.procs[cur].call.np);
  }

  lemma CopiedOk(t: Table, cur: int, space: int)
    requires Ok(t) && 0 < t.nextpid && AtFork(t, cur, Stacked) && space !in t.spaces
    ensures Ok(Copied(t, cur, space))
  {
    NewIsThere(t, cur, Stacked);
    CopiedEffect(t, cur, space);
    ForkOk(t, Copied(t, cur, space), cur, t.procs[cur].call.np);
  }

  lemma StartedOk(t: Table, cur: int)
    requires Ok(t) && 0 < t.nextpid && AtFork(t, cur, Ready)
    ensures Ok(Started(t, cur))
  {
    NewIsThere(t, cur, Ready);
    StartedEffect(t, cur);
    ForkOk(t, Started(t, cur), cur, t.procs[cur].call.np);
  }

  // ---------- exit ----------

  ghost predicate Orphans(ps: seq<Proc>, cur: int) {
    exists z :: 0 <= z < |ps| && ps[z].parent == cur && ps[z].state.ZOMBIE?
  }

  function Adopted(q: Proc, cur: int, init: int): Proc {
    if q.parent == cur then q.(parent := init) else q
  }

  function WokenOne(q: Proc, ch: Chan): Proc {
    if q.state.SLEEPING? && q.chan == ch then q.(state := RUNNABLE) else q
  }

  /** The table after cur's exit, entry by entry. */
  ghost predicate IsExited(ps: seq<Proc>, qs: seq<Proc>, cur: int, init: int)
    requires 0 <= cur < |ps|
  {
    && |qs| == |ps|
    && (forall i {:trigger qs[i]} | 0 <= i < |ps| && i != cur ::
      var q := WokenOne(ps[i], OnProc(ps[cur].parent));
      qs[i] == Adopted(if Orphans(ps, cur) then WokenOne(q, OnProc(init)) else q, cur, init))
    && qs[cur] == Adopted(ps[cur], cur, init).(state := ZOMBIE)
  }

  /** What the other entries keep through cur's exit. */
  ghost predicate ExitKeeps(ps: seq<Proc>, qs: seq<Proc>, cur: int, init: int) {
    && 0 <= cur < |ps| == |qs| && ps[cur].state.RUNNING? && qs[cur].state.ZOMBIE?
    && (forall i {:trigger qs[i]} | 0 <= i < |ps| && i != cur ::
      (Alive(qs[i]) <==> Alive(ps[i])) && (!Alive(qs[i]) ==> qs[i].state == ps[i].state))
    && (forall i {:trigger qs[i]} | 0 <= i < |ps| :: qs[i].pid == ps[i].pid && qs[i].kstack == ps[i].kstack && qs[i].pgdir == ps[i].pgdir)
    && (forall i {:trigger qs[i]} | 0 <= i < |ps| ::
      qs[i].call == ps[i].call && qs[i].parent == if ps[i].parent == cur then init else ps[i].parent)
  }

  lemma ExitKeepsRest(ps: seq<Proc>, qs: seq<Proc>, cur: int, init: int)
    requires 0 <= cur < |ps| && ps[cur].state.RUNNING? && IsExited(ps, qs, cur, init)
    ensures ExitKeeps(ps, qs, cur, init)
  {
  }

  lemma ExitParent(ps: seq<Proc>, qs: seq<Proc>, cur: int, init: int, i: int)
    requires Family(ps, init) && cur != init && ExitKeeps(ps, qs, cur, init) && 0 <= i < NPROC && i != init && Born(qs[i])
    ensures 0 <= qs[i].parent < NPROC && qs[i].parent != i && Alive(qs[qs[i].parent])
  {
    assert Born(ps[i]) && ps[i].parent != i;
    assert qs[i].parent == if ps[i].parent == cur then init else ps[i].parent;
  }

  lemma ExitEmbryo(ps: seq<Proc>, qs: seq<Proc>, cur: int, init: int, i: int)
    requires Family(ps, init) && ExitKeeps(ps, qs, cur, init) && ps[cur].call.Idle?
    requires 0 <= i < NPROC && qs[i].state.EMBRYO? && qs[i].parent != NONE
    ensures 0 <= qs[i].parent < NPROC && qs[qs[i].parent].call == Fork(i, Ready)
  {
    assert ps[i].parent != cur;
  }

  lemma ExitFamily(ps: seq<Proc>, qs: seq<Proc>, cur: int, init: int)
    requires Family(ps, init) && cur != init && ExitKeeps(ps, qs, cur, init) && ps[cur].call.Idle?
    ensures Family(qs, init)
  {
    forall i {:trigger qs[i].parent} | 0 <= i < NPROC && i != init && Born(qs[i])
      ensures 0 <= qs[i].parent < NPROC && qs[i].parent != i && Alive(qs[qs[i].parent])
    {
      ExitParent(ps, qs, cur, init, i);
    }
    forall i {:trigger qs[i].parent} | 0 <= i < NPROC && qs[i].state.EMBRYO? && qs[i].parent != NONE
      ensures 0 <= qs[i].parent < NPROC && qs[qs[i].parent].call == Fork(i, Ready)
    {
      ExitEmbryo(ps, qs, cur, init, i);
    }
  }

  lemma ExitForks(ps: seq<Proc>, qs: seq<Proc>, cur: int, init: int)
    requires Forks(ps) && ExitKeeps(ps, qs, cur, init) && ps[cur].call.Idle?
    ensures Forks(qs)
  {
    forall i | 0 <= i < |qs| && qs[i].call.Fork?
      ensures i != cur && ps[i].call == qs[i].call && 0 <= ps[i].call.np < |ps|
      ensures qs[ps[i].call.np].state.EMBRYO? && qs[ps[i].call.np].parent == ps[ps[i].call.np].parent
    {
      assert ps[i].call == qs[i].call;
    }
  }

  lemma ExitSeen(ps: seq<Proc>, qs: seq<Proc>, cur: int, init: int)
    requires Seen(ps) && 0 <= cur < |ps| && cur != init && ps[cur].parent != cur && ps[cur].state.RUNNING?
    requires IsExited(ps, qs, cur, init)
    ensures Seen(qs)
  {
    forall z, p | 0 <= z < |qs| && 0 <= p < |qs| && qs[z].state.ZOMBIE? && AsleepInWait(qs, p)
      ensures qs[z].parent != p
    {
      assert AsleepInWait(ps, p) && ps[p].chan == OnProc(p);
      if z != cur && ps[z].parent == cur {
        assert Orphans(ps, cur);
      }
    }
  }

  lemma ExitPids(ps: seq<Proc>, qs: seq<Proc>, cur: int, init: int, nextpid: int, exited: set<int>, reaped: seq<int>)
    requires PidsOk(ps, nextpid, exited, reaped) && ExitKeeps(ps, qs, cur, init)
    ensures PidsOk(qs, nextpid, exited + {ps[cur].pid}, reaped)
  {
    forall x | x in exited && x !in reaped
      ensures exists i :: 0 <= i < |qs| && qs[i].state.ZOMBIE? && qs[i].pid == x
    {
      var i :| 0 <= i < |ps| && ps[i].state.ZOMBIE? && ps[i].pid == x;
      assert qs[i].state.ZOMBIE? && qs[i].pid == x;
    }
    assert qs[cur].state.ZOMBIE? && qs[cur].pid == ps[cur].pid;
  }

  lemma ExitStacks(ps: seq<Proc>, qs: seq<Proc>, cur: int, init: int, stacks: set<int>)
    requires StacksOk(ps, stacks) && ExitKeeps(ps, qs, cur, init)
    ensures StacksOk(qs, stacks)
  {
    StackAt(ps, qs, cur, stacks, stacks);
  }

  lemma ExitSpaces(ps: seq<Proc>, qs: seq<Proc>, cur: int, init: int, spaces: set<int>)
    requires SpacesOk(ps, spaces) && ExitKeeps(ps, qs, cur, init) && init != NONE && cur != NONE
    ensures SpacesOk(qs, spaces)
  {
    assert forall i {:trigger qs[i]} | 0 <= i < |ps| :: HasSpace(qs[i]) <==> HasSpace(ps[i]);
    SpaceAt(ps, qs, cur, spaces, spaces);
  }

  lemma ExitOk(t: Table, qs: seq<Proc>, cur: int)
    requires Ok(t) && 0 <= cur < NPROC && cur != t.init && t.procs[cur].state.RUNNING? && t.procs[cur].call.Idle?
    requires IsExited(t.procs, qs, cur, t.init)
    ensures Ok(t.(procs := qs, exited := t.exited + {t.procs[cur].pid}))
  {
    ExitKeepsRest(t.procs, qs, cur, t.init);
    ExitFamily(t.procs, qs, cur, t.init);
    ExitForks(t.procs, qs, cur, t.init);
    assert t.procs[cur].parent != cur;
    ExitSeen(t.procs, qs, cur, t.init);
    ExitPids(t.procs, qs, cur, t.init, t.nextpid, t.exited, t.reaped);
    ExitStacks(t.procs, qs, cur, t.init, t.stacks);
    ExitSpaces(t.procs, qs, cur, t.init, t.spaces);
  }

  // ---------- wait ----------

  function ReapedTable(t: Table, k: int): Table
    requires 0 <= k < |t.procs|
  {
    t.(procs := t.procs[k := t.procs[k].(kstack := 0, pid := 0, parent := NONE, killed := false, state := UNUSED)],
       stacks := t.stacks - {t.procs[k].kstack}, spaces := t.spaces - {t.procs[k].pgdir},
       reaped := t.reaped + [t.procs[k].pid])
  }

  lemma ReapPids(t: Table, k: int)
    requires PidsOk(t.procs, t.nextpid, t.exited, t.reaped) && 0 <= k < |t.procs| && t.procs[k].state.ZOMBIE?
    ensures var u := ReapedTable(t, k); PidsOk(u.procs, u.nextpid, u.exited, u.reaped)
  {
    var u := ReapedTable(t, k);
    forall x | x in u.exited && x !in u.reaped
      ensures exists i :: 0 <= i < |u.procs| && u.procs[i].state.ZOMBIE? && u.procs[i].pid == x
    {
      assert t.procs[k].pid in u.reaped;
      assert x !in t.reaped;
      var i :| 0 <= i < |t.procs| && t.procs[i].state.ZOMBIE? && t.procs[i].pid == x;
      assert u.procs[i].state.ZOMBIE? && u.procs[i].pid == x;
    }
  }

  /** Nobody's parent is a zombie, and no zombie is in fork. */
  lemma ReapFamily(ps: seq<Proc>, qs: seq<Proc>, init: int, k: int)
    requires Family(ps, init) && Forks(ps) && 0 <= k < NPROC && ps[k].state.ZOMBIE?
    requires |qs| == |ps| && qs == ps[k := qs[k]] && qs[k].state.UNUSED? && qs[k].parent == NONE
    ensures Family(qs, init)
  {
    forall i | 0 <= i < NPROC && i != k
      ensures i != init && Born(qs[i]) ==> 0 <= qs[i].parent < NPROC && qs[i].parent != i && Alive(qs[qs[i].parent])
      ensures qs[i].state.EMBRYO? && qs[i].parent != NONE ==>
                0 <= qs[i].parent < NPROC && qs[qs[i].parent].call == Fork(i, Ready)
    {
      assert qs[i] == ps[i] && ps[i].parent == qs[i].parent;
    }
  }

  lemma ReapForks(ps: seq<Proc>, qs: seq<Proc>, k: int)
    requires Forks(ps) && 0 <= k < |ps| && ps[k].state.ZOMBIE? && |qs| == |ps| && qs == ps[k := qs[k]] && qs[k].call == ps[k].call
    ensures Forks(qs)
  {
    assert !ps[k].call.Fork?;
    forall i | 0 <= i < |qs| && qs[i].call.Fork?
      ensures i != k && ps[i].call == qs[i].call && ps[i].call.np != k
    {
      assert ps[i].call == qs[i].call;
    }
  }

  lemma ReapOwned(t: Table, k: int)
    requires StacksOk(t.procs, t.stacks) && SpacesOk(t.procs, t.spaces) && 0 <= k < |t.procs| && t.procs[k].state.ZOMBIE?
    ensures var u := ReapedTable(t, k); StacksOk(u.procs, u.stacks) && SpacesOk(u.procs, u.spaces)
  {
    var u := ReapedTable(t, k);
    StackAt(t.procs, u.procs, k, t.stacks, u.stacks);
    SpaceAt(t.procs, u.procs, k, t.spaces, u.spaces);
  }

  lemma ReapSeen(t: Table, k: int)
    requires Seen(t.procs) && 0 <= k < |t.procs|
    ensures Seen(ReapedTable(t, k).procs)
  {
    SeenLess(t.procs, ReapedTable(t, k).procs);
  }

  lemma ReapOk(t: Table, k: int)
    requires Ok(t) && 0 <= k < NPROC && t.procs[k].state.ZOMBIE?
    ensures Ok(ReapedTable(t, k))
  {
    ReapFamily(t.procs, ReapedTable(t, k).procs, t.init, k);
    ReapForks(t.procs, ReapedTable(t, k).procs, k);
    ReapPids(t, k);
    ReapOwned(t, k);
    ReapSeen(t, k);
  }

  lemma StirOk(t: Table, qs: seq<Proc>)
    requires Ok(t) && AllStir(t.procs, qs) && Seen(qs)
    ensures Ok(t.(procs := qs))
  {
    StirFamily(t.procs, qs, t.init);
    StirStacks(t.procs, qs, t.stacks);
    StirSpaces(t.procs, qs, t.spaces);
    StirPids(t.procs, qs, t.nextpid, t.exited, t.reaped);
  }

  // ---------- runs ----------

  /** Nobody falls asleep in wait. */
  ghost predicate Stirred(t: Table, u: Table) {
    && u == t.(procs := u.procs) && AllStir(t.procs, u.procs)
    && forall i | 0 <= i < |u.procs| && AsleepInWait(u.procs, i) :: AsleepInWait(t.procs, i)
  }

  /** Nobody is marked; wait is left but not begun, and while a process is in it, it does not go to sleep
      again and its channel stays. */
  predicate Minds(q: Proc, r: Proc) {
    && r.killed == q.killed && (r.call.Waiting? ==> q.call.Waiting? && r.chan == q.chan && (r.state.SLEEPING? ==> q.state.SLEEPING?))
  }

  ghost predicate StirStep(t: Table, u: Table) {
    Stirred(t, u) && forall i {:trigger u.procs[i]} | 0 <= i < |t.procs| :: Minds(t.procs[i], u.procs[i])
  }

  function Killed(q: Proc): Proc {
    q.(killed := true, state := if q.state.SLEEPING? then RUNNABLE else q.state)
  }

  /** kill(pid) finds entry k, the first with that pid, whatever its state. */
  ghost predicate KillStep(t: Table, u: Table, k: int) {
    && 0 <= k < |t.procs| && (forall i | 0 <= i < k :: t.procs[i].pid != t.procs[k].pid)
    && u == t.(procs := t.procs[k := Killed(t.procs[k])])
  }

  /** cur finds no zombie among its children and goes to sleep in wait. */
  ghost predicate WaitStep(t: Table, u: Table, cur: int) {
    && 0 <= cur < |t.procs| && t.procs[cur].state.RUNNING? && !t.procs[cur].call.Fork?
    && !Orphans(t.procs, cur)
    && u == t.(procs := t.procs[cur := t.procs[cur].(state := SLEEPING, chan := OnProc(cur), call := Waiting)])
  }

  lemma OneStirs(t: Table, p: int, q: Proc)
    requires 0 <= p < |t.procs| && Stirs(t.procs[p], q) && Minds(t.procs[p], q)
    requires q.state.SLEEPING? ==> q.chan != OnProc(p)
    ensures StirStep(t, t.(procs := t.procs[p := q]))
  {
  }

  /** Back from the sleep in wait, if that is where cur was. */
  function Resumed(t: Table, cur: int): Table
    requires 0 <= cur < |t.procs|
  {
    var q := t.procs[cur];
    t.(procs := t.procs[cur := if q.call.Waiting? then q.(chan := NoChan, call := Idle) else q])
  }

  lemma ResumedStep(t: Table, cur: int)
    requires 0 <= cur < |t.procs| && t.procs[cur].state.RUNNING?
    ensures StirStep(t, Resumed(t, cur))
  {
  }

  ghost predicate ReapStep(t: Table, u: Table, cur: int, k: int) {
    && 0 <= cur < |t.procs| && 0 <= k < |t.procs| && t.procs[cur].state.RUNNING? && !t.procs[cur].call.Fork?
    && t.procs[k].state.ZOMBIE? && t.procs[k].parent == cur
    && u == ReapedTable(Resumed(t, cur), k)
  }

  ghost predicate ExitStep(t: Table, u: Table, cur: int) {
    && 0 <= cur < |t.procs| && cur != t.init && t.procs[cur].state.RUNNING? && t.procs[cur].call.Idle?
    && IsExited(t.procs, u.procs, cur, t.init)
    && u == t.(procs := u.procs, exited := t.exited + {t.procs[cur].pid})
  }

  ghost predicate ForkMove(t: Table, u: Table, cur: int) {
    || (0 <= cur < |t.procs| && t.procs[cur].state.RUNNING? && t.procs[cur].call.Idle?
        && exists k :: 0 <= k < |t.procs| && t.procs[k].state.UNUSED? && u == Taken(t, cur, k))
    || (AtFork(t, cur, Slot) && u == Unstacked(t, cur))
    || (exists page :: AtFork(t, cur, Slot) && page != 0 && page !in t.stacks && u == WithStack(t, cur, page))
    || (AtFork(t, cur, Stacked) && u == Uncopied(t, cur))
    || (exists space :: AtFork(t, cur, Stacked) && space !in t.spaces && u == Copied(t, cur, space))
    || (AtFork(t, cur, Ready) && u == Started(t, cur))
  }

  ghost predicate Next(t: Table, u: Table) {
    || StirStep(t, u)
    || (exists k :: KillStep(t, u, k))
    || (exists cur :: WaitStep(t, u, cur))
    || (exists cur, k :: ReapStep(t, u, cur, k))
    || (exists cur :: ExitStep(t, u, cur))
    || (exists cur :: ForkMove(t, u, cur))
  }

  /** userinit has made the first process; everything else is blank. */
  predicate Boot(t: Table) {
    && t.init == 0 && |t.procs| == NPROC && t.nextpid == 2 && t.exited == {} && t.reaped == []
    && var q := t.procs[0];
    && q.state.RUNNABLE? && q.pid == 1 && q.parent == NONE && q.call.Idle? && !q.killed && q.kstack != 0
    && t.stacks == {q.kstack} && t.spaces == {q.pgdir}
    && forall i | 0 < i < NPROC :: t.procs[i] == Proc(UNUSED, 0, NONE, NoChan, false, 0, 0, Idle)
  }

  ghost predicate Follows(ts: seq<Table>, i: int)
    requires 0 < i < |ts|
  {
    Next(ts[i - 1], ts[i])
  }

  ghost predicate Run(ts: seq<Table>) {
    |ts| > 0 && Boot(ts[0]) && forall i | 0 < i < |ts| :: Follows(ts, i)
  }

  lemma StepOf(ts: seq<Table>, n: nat)
    requires Run(ts) && 0 < n < |ts|
    ensures Next(ts[n - 1], ts[n])
  {
    assert Follows(ts, n);
  }

  lemma Extend(ts: seq<Table>, u: Table)
    requires Run(ts) && Next(ts[|ts| - 1], u)
    ensures Run(ts + [u])
  {
    var us := ts + [u];
    forall i | 0 < i < |us|
      ensures Follows(us, i)
    {
      if i < |ts| {
        assert Follows(ts, i);
      }
    }
  }

  lemma BootOk(t: Table)
    requires Boot(t)
    ensures Ok(t)
  {
    assert t.procs[0].kstack in t.stacks;
    assert HasSpace(t.procs[0]) && t.procs[0].pgdir in t.spaces;
  }

  lemma StirStepOk(t: Table, u: Table)
    requires Ok(t) && Stirred(t, u)
    ensures Ok(u)
  {
    StirSeen(t, u);
    StirOk(t, u.procs);
  }

  lemma StirSeen(t: Table, u: Table)
    requires Seen(t.procs) && Stirred(t, u)
    ensures Seen(u.procs)
  {
    assert forall i | 0 <= i < |u.procs| :: Stirs(t.procs[i], u.procs[i]);
    SeenLess(t.procs, u.procs);
  }

  lemma WaitStepOk(t: Table, u: Table, cur: int)
    requires Ok(t) && WaitStep(t, u, cur)
    ensures Ok(u)
  {
    WaitSeen(t, u, cur);
    assert AllStir(t.procs, u.procs);
    StirOk(t, u.procs);
  }

  lemma WaitSeen(t: Table, u: Table, cur: int)
    requires Seen(t.procs) && WaitStep(t, u, cur)
    ensures Seen(u.procs)
  {
    forall z, p | 0 <= z < |u.procs| && 0 <= p < |u.procs| && u.procs[z].state.ZOMBIE? && AsleepInWait(u.procs, p)
      ensures u.procs[z].parent != p
    {
      if p != cur {
        assert AsleepInWait(t.procs, p);
      }
    }
  }

  lemma ReapStepOk(t: Table, u: Table, cur: int, k: int)
    requires Ok(t) && ReapStep(t, u, cur, k)
    ensures Ok(u)
  {
    ResumedStep(t, cur);
    StirStepOk(t, Resumed(t, cur));
    ReapOk(Resumed(t, cur), k);
  }

  lemma ForkMoveOk(t: Table, u: Table, cur: int)
    requires Ok(t) && 0 < t.nextpid && ForkMove(t, u, cur)
    ensures Ok(u)
  {
    if AtFork(t, cur, Slot) && u == Unstacked(t, cur) {
      UnstackedOk(t, cur);
    } else if page :| AtFork(t, cur, Slot) && page != 0 && page !in t.stacks && u == WithStack(t, cur, page) {
      WithStackOk(t, cur, page);
    } else if AtFork(t, cur, Stacked) && u == Uncopied(t, cur) {
      UncopiedOk(t, cur);
    } else if space :| AtFork(t, cur, Stacked) && space !in t.spaces && u == Copied(t, cur, space) {
      CopiedOk(t, cur, space);
    } else if AtFork(t, cur, Ready) && u == Started(t, cur) {
      StartedOk(t, cur);
    } else {
      var k :| 0 <= k < |t.procs| && t.procs[k].state.UNUSED? && u == Taken(t, cur, k);
      TakenOk(t, cur, k);
    }
  }

  /** A killed process is woken but not otherwise moved. */
  lemma KilledStirs(t: Table, k: int)
    requires 0 <= k < |t.procs|
    ensures Stirred(t, t.(procs := t.procs[k := Killed(t.procs[k])]))
  {
  }

  lemma NextOk(t: Table, u: Table)
    requires Ok(t) && 0 < t.nextpid && Next(t, u)
    ensures Ok(u)
  {
    if StirStep(t, u) {
      StirStepOk(t, u);
    } else if k :| KillStep(t, u, k) {
      KilledStirs(t, k);
      StirStepOk(t, u);
    } else if cur :| WaitStep(t, u, cur) {
      WaitStepOk(t, u, cur);
    } else if cur, k :| ReapStep(t, u, cur, k) {
      ReapStepOk(t, u, cur, k);
    } else if cur :| ExitStep(t, u, cur) {
      ExitOk(t, u.procs, cur);
    } else {
      var cur :| ForkMove(t, u, cur);
      ForkMoveOk(t, u, cur);
    }
  }

  lemma NextGrows(t: Table, u: Table)
    requires 0 < t.nextpid && Next(t, u)
    ensures 0 < u.nextpid && t.reaped <= u.reaped && t.exited <= u.exited
  {
  }

  lemma {:induction false} RunOk(ts: seq<Table>, n: nat)
    requires Run(ts) && n < |ts|
    ensures Ok(ts[n]) && 0 < ts[n].nextpid
  {
    if n == 0 {
      BootOk(ts[0]);
    } else {
      RunOk(ts, n - 1);
      StepOf(ts, n);
      NextOk(ts[n - 1], ts[n]);
      NextGrows(ts[n - 1], ts[n]);
    }
  }

  // ---------- what every run guarantees ----------

  /** Whoever sleeps in wait sleeps on its own entry, which is what exit wakes. */
  ghost predicate WaitsOnSelf(ps: seq<Proc>) {
    forall p | 0 <= p < |ps| && ps[p].call.Waiting? && ps[p].state.SLEEPING? :: ps[p].chan == OnProc(p)
  }

  lemma StirWaits(t: Table, u: Table)
    requires StirStep(t, u) && WaitsOnSelf(t.procs)
    ensures WaitsOnSelf(u.procs)
  {
    forall p | 0 <= p < |u.procs| && u.procs[p].call.Waiting? && u.procs[p].state.SLEEPING?
      ensures u.procs[p].chan == OnProc(p)
    {
      assert Minds(t.procs[p], u.procs[p]);
    }
  }

  lemma ForkWaits(t: Table, u: Table, cur: int)
    requires ForkMove(t, u, cur) && WaitsOnSelf(t.procs)
    ensures WaitsOnSelf(u.procs)
  {
  }

  lemma NextWaits(t: Table, u: Table)
    requires Next(t, u) && WaitsOnSelf(t.procs)
    ensures WaitsOnSelf(u.procs)
  {
    if StirStep(t, u) {
      StirWaits(t, u);
    } else if cur, k :| ReapStep(t, u, cur, k) {
    } else if cur :| ExitStep(t, u, cur) {
    } else if cur :| ForkMove(t, u, cur) {
      ForkWaits(t, u, cur);
    }
  }

  lemma {:induction false} RunWaits(ts: seq<Table>, n: nat)
    requires Run(ts) && n < |ts|
    ensures WaitsOnSelf(ts[n].procs)
  {
    if n > 0 {
      RunWaits(ts, n - 1);
      StepOf(ts, n);
      NextWaits(ts[n - 1], ts[n]);
    }
  }

  /** A zombie's parent is there to reap it, and not asleep in wait. */
  lemma ZombieIsSeen(ts: seq<Table>, n: nat, z: int)
    requires Run(ts) && n < |ts| && 0 <= z < |ts[n].procs| && ts[n].procs[z].state.ZOMBIE?
    ensures var ps := ts[n].procs; var p := ps[z].parent;
      0 <= p < |ps| && Alive(ps[p]) && !(ps[p].call.Waiting? && ps[p].state.SLEEPING?)
  {
    RunOk(ts, n);
    RunWaits(ts, n);
    assert z != ts[n].init;
    var p := ts[n].procs[z].parent;
    assert !AsleepInWait(ts[n].procs, p);
  }

  /** Every process past EMBRYO other than init has a live parent. */
  lemma NoOrphans(ts: seq<Table>, n: nat, i: int)
    requires Run(ts) && n < |ts| && 0 <= i < |ts[n].procs| && i != ts[n].init && Born(ts[n].procs[i])
    ensures var ps := ts[n].procs; 0 <= ps[i].parent < |ps| && Alive(ps[ps[i].parent])
  {
    RunOk(ts, n);
    assert ts[n].procs[i].parent == ts[n].procs[i].parent;
  }

  /** The pids that wait has returned are distinct pids of exited processes, none of them still in the
      table; an exited process not yet reaped is a zombie. */
  lemma ReapedOnce(ts: seq<Table>, n: nat, pid: int)
    requires Run(ts) && n < |ts| && pid in ts[n].exited
    ensures pid in ts[n].reaped <==> !exists i :: 0 <= i < |ts[n].procs| && ts[n].procs[i].state.ZOMBIE? && ts[n].procs[i].pid == pid
    ensures pid in ts[n].reaped ==> multiset(ts[n].reaped)[pid] == 1
  {
    RunOk(ts, n);
    if pid in ts[n].reaped {
      OnceInside(ts[n].reaped, pid);
    }
  }

  lemma OnceInside(s: seq<int>, x: int)
    requires x in s && forall i, j | 0 <= i < j < |s| :: s[i] != s[j]
    ensures multiset(s)[x] == 1
  {
    var k :| 0 <= k < |s| && s[k] == x;
    assert s == s[..k] + [x] + s[k + 1..];
    assert x !in s[..k] && x !in s[k + 1..];
  }

  /** Stacks and address spaces, forks in progress included: exactly those that processes in the table
      have, one each. */
  lemma NothingLeaks(ts: seq<Table>, n: nat, x: int)
    requires Run(ts) && n < |ts|
    ensures var ps := ts[n].procs;
      && (x in ts[n].stacks <==> x != 0 && exists i :: 0 <= i < |ps| && ps[i].kstack == x)
      && (x in ts[n].spaces <==> exists i :: 0 <= i < |ps| && HasSpace(ps[i]) && ps[i].pgdir == x)
    ensures forall i, j | 0 <= i < j < |ts[n].procs| ::
      var q, r := ts[n].procs[i], ts[n].procs[j];
      (q.kstack == r.kstack ==> q.kstack == 0) && (HasSpace(q) && HasSpace(r) ==> q.pgdir != r.pgdir)
    ensures forall i | 0 <= i < |ts[n].procs| :: var q := ts[n].procs[i];
      (Born(q) ==> q.kstack != 0 && HasSpace(q)) && (q.state.UNUSED? ==> q.kstack == 0 && !HasSpace(q))
  {
    RunOk(ts, n);
  }

  // ---------- who is born killed ----------

  ghost predicate Reaps(t: Table, u: Table, k: int) {
    exists cur :: ReapStep(t, u, cur, k)
  }

  /** kill has found entry k since wait last cleared it. */
  ghost predicate Marked(ts: seq<Table>, n: nat, k: int)
    requires n < |ts|
  {
    n > 0 && (KillStep(ts[n - 1], ts[n], k) || (Marked(ts, n - 1, k) && !Reaps(ts[n - 1], ts[n], k)))
  }

  lemma ForkMarks(t: Table, u: Table, cur: int, k: int)
    requires ForkMove(t, u, cur) && |t.procs| == NPROC && 0 <= k < NPROC
    ensures |u.procs| == NPROC && u.procs[k].killed == t.procs[k].killed
  {
  }

  lemma ExitMarks(t: Table, u: Table, cur: int, k: int)
    requires ExitStep(t, u, cur) && |t.procs| == NPROC && 0 <= k < NPROC
    ensures |u.procs| == NPROC && u.procs[k].killed == t.procs[k].killed
  {
  }

  lemma ReapMarks(t: Table, u: Table, cur: int, l: int, k: int)
    requires ReapStep(t, u, cur, l) && |t.procs| == NPROC && 0 <= k < NPROC
    ensures |u.procs| == NPROC && (if k == l then !u.procs[k].killed else u.procs[k].killed == t.procs[k].killed)
  {
  }

  lemma OtherMarks(t: Table, u: Table, k: int)
    requires Next(t, u) && |t.procs| == NPROC && 0 <= k < NPROC && !KillStep(t, u, k) && !Reaps(t, u, k)
    ensures |u.procs| == NPROC && u.procs[k].killed == t.procs[k].killed
  {
    if StirStep(t, u) {
      assert Minds(t.procs[k], u.procs[k]);
    } else if l :| KillStep(t, u, l) {
    } else if cur :| WaitStep(t, u, cur) {
    } else if cur, l :| ReapStep(t, u, cur, l) {
      ReapMarks(t, u, cur, l, k);
    } else if cur :| ExitStep(t, u, cur) {
      ExitMarks(t, u, cur, k);
    } else {
      var cur :| ForkMove(t, u, cur);
      ForkMarks(t, u, cur, k);
    }
  }

  /** Only kill marks an entry and only wait clears it: allocproc and fork do neither. */
  lemma MarkStep(t: Table, u: Table, k: int)
    requires Next(t, u) && |t.procs| == NPROC && 0 <= k < NPROC
    ensures |u.procs| == NPROC && (u.procs[k].killed <==> KillStep(t, u, k) || (t.procs[k].killed && !Reaps(t, u, k)))
  {
    if KillStep(t, u, k) {
    } else if cur :| ReapStep(t, u, cur, k) {
      ReapMarks(t, u, cur, k, k);
    } else {
      OtherMarks(t, u, k);
    }
  }

  lemma {:induction false} MarkedExactly(ts: seq<Table>, n: nat, k: int)
    requires Run(ts) && n < |ts| && 0 <= k < NPROC
    ensures |ts[n].procs| == NPROC && (ts[n].procs[k].killed <==> Marked(ts, n, k))
  {
    if n > 0 {
      MarkedExactly(ts, n - 1, k);
      StepOf(ts, n);
      MarkStep(ts[n - 1], ts[n], k);
    }
  }

  /** Whoever is marked is not left asleep: no step that marks an entry, or marks it again, leaves it SLEEPING. */
  lemma MarkedAwake(ts: seq<Table>, n: nat, k: int)
    requires Run(ts) && 0 < n < |ts| && 0 <= k < NPROC && |ts[n - 1].procs| == |ts[n].procs| == NPROC
    requires KillStep(ts[n - 1], ts[n], k) || (ts[n].procs[k].killed && !ts[n - 1].procs[k].killed)
    ensures !ts[n].procs[k].state.SLEEPING?
  {
    StepOf(ts, n);
    MarkStep(ts[n - 1], ts[n], k);
  }

  /** fork's last step, for the child in entry k. */
  ghost predicate BirthStep(t: Table, u: Table, k: int) {
    exists cur :: AtFork(t, cur, Ready) && t.procs[cur].call.np == k && u == Started(t, cur)
  }

  /** A process is born killed exactly if kill has found its table entry since wait last cleared it, by
      whatever pid the entry had then. */
  lemma BornKilledExactly(ts: seq<Table>, n: nat, k: int)
    requires Run(ts) && 0 < n < |ts| && BirthStep(ts[n - 1], ts[n], k)
    ensures 0 <= k < |ts[n].procs| && ts[n].procs[k].state.RUNNABLE? && (ts[n].procs[k].killed <==> Marked(ts, n - 1, k))
  {
    RunOk(ts, n - 1);
    Newborn(ts[n - 1], ts[n], k);
    MarkedExactly(ts, n - 1, k);
  }

  lemma Newborn(t: Table, u: Table, k: int)
    requires Ok(t) && BirthStep(t, u, k)
    ensures 0 <= k < |t.procs| == |u.procs| == NPROC && u.procs[k].state.RUNNABLE? && u.procs[k].killed == t.procs[k].killed
  {
    var cur :| AtFork(t, cur, Ready) && t.procs[cur].call.np == k && u == Started(t, cur);
    NewIsThere(t, cur, Ready);
    ChildStarts(t, cur, k);
  }

  lemma ChildStarts(t: Table, cur: int, k: int)
    requires NewLooks(t, cur, Ready) && t.procs[cur].call.np == k
    ensures var u := Started(t, cur); |u.procs| == NPROC && u.procs[k].state.RUNNABLE? && u.procs[k].killed == t.procs[k].killed
  {
  }

  /** A table with init in entry 0 and, in entry 1, q. */
  function TwoProcs(a: Proc, q: Proc): seq<Proc> {
    seq(NPROC, i => if i == 0 then a else if i == 1 then q else Proc(UNUSED, 0, NONE, NoChan, false, 0, 0, Idle))
  }

  function Init(state: Status, call: Call): Proc {
    Proc(state, 1, NONE, NoChan, false, 1, 1, call)
  }

  const EMPTY: Proc := Proc(UNUSED, 0, NONE, NoChan, false, 0, 0, Idle)

  function WithTwo(a: Proc, q: Proc): Table {
    Table(TwoProcs(a, q), 0, 2, {1}, {1}, {}, [])
  }

  lemma KillZero() returns (ts: seq<Table>)
    ensures Run(ts) && |ts| == 3 && ts[2] == WithTwo(Init(RUNNING, Idle), Killed(EMPTY))
    ensures KillStep(ts[1], ts[2], 1) && |ts[1].procs| == NPROC && ts[1].procs[1].pid == 0
  {
    var t0 := WithTwo(Init(RUNNABLE, Idle), EMPTY);
    var t1 := WithTwo(Init(RUNNING, Idle), EMPTY);
    assert StirStep(t0, t1);
    var t2 := WithTwo(Init(RUNNING, Idle), Killed(EMPTY));
    assert t2.procs == t1.procs[1 := Killed(t1.procs[1])];
    assert KillStep(t1, t2, 1);
    assert Run([t0]);
    Extend([t0], t1);
    Extend([t0] + [t1], t2);
    ts := [t0] + [t1] + [t2];
  }

  /** kill(0) finds the first unused entry, and the next process to be forked is born killed. */
  lemma BornKilled() returns (ts: seq<Table>)
    ensures Run(ts) && |ts| > 3 && BirthStep(ts[|ts| - 2], ts[|ts| - 1], 1) && |ts[|ts| - 1].procs| == NPROC && ts[|ts| - 1].procs[1].killed
    ensures KillStep(ts[1], ts[2], 1) && |ts[1].procs| == NPROC && ts[1].procs[1].pid == 0
  {
    ts := KillZero();
    var t2 := ts[2];
    var t3 := Taken(t2, 0, 1);
    assert ForkMove(t2, t3, 0);
    Extend(ts, t3); ts := ts + [t3];
    var t4 := WithStack(t3, 0, 2);
    assert ForkMove(t3, t4, 0);
    Extend(ts, t4); ts := ts + [t4];
    var t5 := Copied(t4, 0, 2);
    assert ForkMove(t4, t5, 0);
    Extend(ts, t5); ts := ts + [t5];
    var t6 := Started(t5, 0);
    assert ForkMove(t5, t6, 0);
    assert BirthStep(t5, t6, 1);
    Extend(ts, t6); ts := ts + [t6];
  }

  // ---------- reachable tables ----------

  ghost predicate Reached(t: Table) {
    exists ts: seq<Table> :: Run(ts) && ts[|ts| - 1] == t
  }

  lemma ReachedBoot(t: Table)
    requires Boot(t)
    ensures Reached(t)
  {
    assert Run([t]) && [t][|[t]| - 1] == t;
  }

  lemma ReachedNext(t: Table, u: Table)
    requires Reached(t) && Next(t, u)
    ensures Reached(u)
  {
    var ts :| Run(ts) && ts[|ts| - 1] == t;
    Extend(ts, u);
    assert (ts + [u])[|ts + [u]| - 1] == u;
  }

  lemma ReachedOk(t: Table)
    requires Reached(t)
    ensures Ok(t) && 0 < t.nextpid
  {
    var ts :| Run(ts) && ts[|ts| - 1] == t;
    RunOk(ts, |ts| - 1);
  }

  lemma ReachedNew(t: Table, cur: int, stage: Stage)
    requires Reached(t) && AtFork(t, cur, stage)
    ensures NewLooks(t, cur, stage)
  {
    ReachedOk(t);
    NewIsThere(t, cur, stage);
  }

  lemma ReachedParent(t: Table, cur: int)
    requires Reached(t) && 0 <= cur < |t.procs| && t.procs[cur].state.RUNNING? && cur != t.init
    ensures t.procs[cur].parent != cur
  {
    ReachedOk(t);
    assert t.procs[cur].parent == t.procs[cur].parent;
  }

  lemma SameStep(t: Table)
    ensures StirStep(t, t)
  {
  }

  lemma ReachedCopied(t: Table, cur: int, space: int)
    requires Reached(t) && AtFork(t, cur, Stacked) && space !in t.spaces
    ensures Next(t, Copied(t, cur, space)) && Reached(Copied(t, cur, space))
  {
    assert ForkMove(t, Copied(t, cur, space), cur);
    ReachedNext(t, Copied(t, cur, space));
  }

  lemma ReachedUncopied(t: Table, cur: int)
    requires Reached(t) && AtFork(t, cur, Stacked)
    ensures Next(t, Uncopied(t, cur)) && Reached(Uncopied(t, cur))
  {
    assert ForkMove(t, Uncopied(t, cur), cur);
    ReachedNext(t, Uncopied(t, cur));
  }
}
