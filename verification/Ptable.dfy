/** proc.c as code: every method takes the process table through one step that ProcTable proves safe. */
module Ptable {
  import opened ProcTable

  /** wait found a zombie, failed, or went to sleep. */
  datatype Waited = Reaped(pid: int) | Failed | Slept

  class Ptable {
    var procs: seq<Proc>
    var init: int
    var nextpid: int
    ghost var stacks: set<int>
    ghost var spaces: set<int>
    ghost var exited: set<int>
    ghost var reaped: seq<int>

    ghost function Now(): Table
      reads this
    {
      Table(procs, init, nextpid, stacks, spaces, exited, reaped)
    }

    ghost predicate Valid()
      reads this
    {
      Reached(Now()) && |procs| == NPROC && 0 <= init < NPROC
    }

    predicate Running(cur: int)
      reads this
    {
      0 <= cur < NPROC == |procs| && procs[cur].state.RUNNING?
    }

    /** userinit, with the stack and page directory that kalloc and setupkvm gave. */
    constructor (page: int, space: int)
      requires page != 0
      ensures Boot(Now()) && Valid()
      ensures procs[0].kstack == page && procs[0].pgdir == space
    {
      procs := seq(NPROC, i => if i == 0 then Proc(RUNNABLE, 1, NONE, NoChan, false, page, space, Idle)
                               else Proc(UNUSED, 0, NONE, NoChan, false, 0, 0, Idle));
      init := 0;
      nextpid := 2;
      stacks := {page};
      spaces := {space};
      exited := {};
      reaped := [];
      new;
      ReachedBoot(Now());
    }

    method FindUnused() returns (p: int)
      requires |procs| == NPROC
      ensures 0 <= p <= NPROC && (forall i | 0 <= i < p :: !procs[i].state.UNUSED?) && (p < NPROC ==> procs[p].state.UNUSED?)
    {
      p := 0;
      while p < NPROC && !procs[p].state.UNUSED?
        invariant 0 <= p <= NPROC
        invariant forall i | 0 <= i < p :: !procs[i].state.UNUSED?
      {
        p := p + 1;
      }
    }

    /** allocproc: the first unused entry becomes an embryo with a pid never used before. */
    method Allocproc(cur: int) returns (ok: bool)
      requires Valid() && Running(cur) && procs[cur].call.Idle?
      modifies this
      ensures Valid()
      ensures ok <==> exists k :: 0 <= k < NPROC && old(procs[k]).state.UNUSED?
      ensures !ok ==> Now() == old(Now())
      ensures ok ==> Next(old(Now()), Now())
      ensures ok ==> AtFork(Now(), cur, Slot) && var k := procs[cur].call.np;
        && procs == old(procs)[k := old(procs)[k].(state := EMBRYO, pid := old(nextpid))]
                              [cur := old(procs)[cur].(call := Fork(k, Slot))]
        && nextpid == old(nextpid) + 1
        && old(procs[k]).state.UNUSED? && forall i | 0 <= i < k :: !old(procs[i]).state.UNUSED?
    {
      var p := FindUnused();
      if p == NPROC {
        return false;
      }
      ghost var t := Now();
      procs := procs[p := procs[p].(state := EMBRYO, pid := nextpid)];
      nextpid := nextpid + 1;
      procs := procs[cur := procs[cur].(call := Fork(p, Slot))];
      assert Now() == Taken(t, cur, p);
      assert ForkMove(t, Now(), cur);
      ReachedNext(t, Now());
      return true;
    }

    /** The rest of allocproc: kalloc's answer for the kernel stack, 0 if there was none. */
    method GiveStack(cur: int, page: int) returns (ok: bool)
      requires Valid() && AtFork(Now(), cur, Slot) && page !in stacks
      modifies this
      ensures Valid() && Next(old(Now()), Now())
      ensures ok <==> page != 0
      ensures var k := old(procs)[cur].call.np; var q := old(procs)[k];
        if ok then
          && procs == old(procs)[k := q.(kstack := page)][cur := old(procs)[cur].(call := Fork(k, Stacked))]
          && stacks == old(stacks) + {page}
        else
          && procs == old(procs)[k := q.(kstack := 0, state := UNUSED)][cur := old(procs)[cur].(call := Idle)]
          && stacks == old(stacks)
    {
      ghost var t := Now();
      var np := procs[cur].call.np;
      ReachedNew(t, cur, Slot);
      procs := procs[np := procs[np].(kstack := page)];
      if page == 0 {
        procs := procs[np := procs[np].(state := UNUSED)];
        procs := procs[cur := procs[cur].(call := Idle)];
        assert Now() == Unstacked(t, cur);
        assert ForkMove(t, Now(), cur);
        ReachedNext(t, Now());
        return false;
      }
      stacks := stacks + {page};
      procs := procs[cur := procs[cur].(call := Fork(np, Stacked))];
      assert Now() == WithStack(t, cur, page);
      assert ForkMove(t, Now(), cur);
      ReachedNext(t, Now());
      return true;
    }

    /** fork: copyuvm's answer, 0 if it ran out of memory; then the child is linked to its parent. */
    method CopySpace(cur: int, space: int) returns (ok: bool)
      requires Valid() && AtFork(Now(), cur, Stacked) && space !in spaces
      modifies this
      ensures Valid() && Next(old(Now()), Now())
      ensures ok <==> space != 0
      ensures var k := old(procs)[cur].call.np; var q := old(procs)[k];
        if ok then
          && procs == old(procs)[k := q.(pgdir := space, parent := cur)][cur := old(procs)[cur].(call := Fork(k, Ready))]
          && spaces == old(spaces) + {space} && stacks == old(stacks)
        else
          && procs == old(procs)[k := q.(pgdir := 0, kstack := 0, state := UNUSED)][cur := old(procs)[cur].(call := Idle)]
          && stacks == old(stacks) - {q.kstack} && spaces == old(spaces)
    {
      ReachedNew(Now(), cur, Stacked);
      if space == 0 {
        ReachedUncopied(Now(), cur);
        Unfork(cur);
        return false;
      }
      ReachedCopied(Now(), cur, space);
      Link(cur, space);
      return true;
    }

    method Unfork(cur: int)
      requires NewLooks(Now(), cur, Stacked)
      modifies this
      ensures Now() == Uncopied(old(Now()), cur)
    {
      var np := procs[cur].call.np;
      procs := procs[np := procs[np].(pgdir := 0)];
      stacks := stacks - {procs[np].kstack};
      procs := procs[np := procs[np].(kstack := 0, state := UNUSED)];
      procs := procs[cur := procs[cur].(call := Idle)];
    }

    method Link(cur: int, space: int)
      requires NewLooks(Now(), cur, Stacked)
      modifies this
      ensures Now() == Copied(old(Now()), cur, space)
    {
      var np := procs[cur].call.np;
      procs := procs[np := procs[np].(pgdir := space)];
      spaces := spaces + {space};
      procs := procs[np := procs[np].(parent := cur)];
      procs := procs[cur := procs[cur].(call := Fork(np, Ready))];
    }

    /** The end of fork. */
    method Start(cur: int) returns (pid: int)
      requires Valid() && AtFork(Now(), cur, Ready)
      modifies this
      ensures Valid() && Next(old(Now()), Now())
      ensures var k := old(procs)[cur].call.np; var q := old(procs)[k];
        && procs == old(procs)[k := q.(state := RUNNABLE, call := Idle)][cur := old(procs)[cur].(call := Idle)]
        && pid == q.pid
    {
      ghost var t := Now();
      var np := procs[cur].call.np;
      ReachedNew(t, cur, Ready);
      pid := procs[np].pid;
      procs := procs[np := procs[np].(state := RUNNABLE, call := Idle)];
      procs := procs[cur := procs[cur].(call := Idle)];
      assert Now() == Started(t, cur);
      assert ForkMove(t, Now(), cur);
      ReachedNext(t, Now());
    }

    method Wakeup1(ch: Chan)
      requires |procs| == NPROC
      modifies `procs
      ensures |procs| == NPROC && forall i | 0 <= i < NPROC :: var q := old(procs)[i];
                procs[i] == if q.state.SLEEPING? && q.chan == ch then q.(state := RUNNABLE) else q
    {
      var p := 0;
      while p < NPROC
        invariant 0 <= p <= NPROC && |procs| == NPROC
        invariant forall i | 0 <= i < NPROC :: procs[i] == if i < p then WokenOne(old(procs)[i], ch) else old(procs)[i]
      {
        if procs[p].state.SLEEPING? && procs[p].chan == ch {
          procs := procs[p := procs[p].(state := RUNNABLE)];
        }
        p := p + 1;
      }
    }

    /** wakeup on a channel that wait does not use. */
    method Wakeup(n: int)
      requires Valid()
      modifies `procs
      ensures Valid() && Next(old(Now()), Now())
      ensures forall i | 0 <= i < NPROC :: var q := old(procs)[i];
                procs[i] == if q.state.SLEEPING? && q.chan == OnOther(n) then q.(state := RUNNABLE) else q
    {
      ghost var t := Now();
      Wakeup1(OnOther(n));
      assert StirStep(t, Now());
      ReachedNext(t, Now());
    }

    /** exit, up to the switch away; init must not exit. */
    method Exit(cur: int) returns (panics: bool)
      requires Valid() && Running(cur) && procs[cur].call.Idle?
      modifies this
      ensures Valid()
      ensures panics <==> cur == init
      ensures panics ==> Now() == old(Now())
      ensures !panics ==> Next(old(Now()), Now()) && Left(old(procs), procs, cur, init)
    {
      if cur == init {
        return true;
      }
      ghost var t := Now();
      ReachedParent(t, cur);
      Wakeup1(OnProc(procs[cur].parent));
      Abandon(cur, t.procs);
      procs := procs[cur := procs[cur].(state := ZOMBIE)];
      exited := exited + {procs[cur].pid};
      assert IsExited(t.procs, procs, cur, init);
      assert ExitStep(t, Now(), cur);
      ReachedNext(t, Now());
      IsLeft(t.procs, procs, cur, init);
      return false;
    }

    /** exit's loop: pass abandoned children to init, and wake init if one is a zombie. */
    method Abandon(cur: int, ghost ps: seq<Proc>)
      requires |procs| == |ps| == NPROC && 0 <= cur < NPROC && ps[cur].parent != cur && cur != init
      requires forall i | 0 <= i < NPROC :: procs[i] == WokenOne(ps[i], OnProc(ps[cur].parent))
      modifies `procs
      ensures |procs| == NPROC
      ensures forall i {:trigger procs[i]} | 0 <= i < NPROC ::
        var q := WokenOne(ps[i], OnProc(ps[cur].parent));
        procs[i] == Adopted(if Orphans(ps, cur) then WokenOne(q, OnProc(init)) else q, cur, init)
    {
      var p := 0;
      while p < NPROC
        invariant 0 <= p <= NPROC && |procs| == NPROC
        invariant forall i {:trigger procs[i]} | 0 <= i < NPROC :: procs[i] == PartAbandoned(ps, cur, init, p, i)
      {
        ghost var was := procs;
        if procs[p].parent == cur {
          procs := procs[p := procs[p].(parent := init)];
          if procs[p].state.ZOMBIE? {
            Wakeup1(OnProc(init));
          }
        }
        AbandonNext(ps, cur, init, p, was, procs);
        p := p + 1;
      }
    }

    /** sleep on a channel that wait does not use. */
    method Sleep(cur: int, n: int)
      requires Valid() && Running(cur) && !procs[cur].call.Waiting?
      modifies `procs
      ensures Valid() && Next(old(Now()), Now())
      ensures procs == old(procs)[cur := old(procs)[cur].(chan := OnOther(n), state := SLEEPING)]
    {
      ghost var t := Now();
      procs := procs[cur := procs[cur].(chan := OnOther(n))];
      procs := procs[cur := procs[cur].(state := SLEEPING)];
      OneStirs(t, cur, procs[cur]);
      assert Now() == t.(procs := t.procs[cur := procs[cur]]);
      ReachedNext(t, Now());
    }

    /** yield (to RUNNABLE), and the scheduler's choice (to RUNNING). */
    method Switch(p: int)
      requires Valid() && 0 <= p < NPROC == |procs| && (procs[p].state.RUNNING? || procs[p].state.RUNNABLE?)
      modifies `procs
      ensures Valid() && Next(old(Now()), Now())
      ensures procs == old(procs)[p := old(procs)[p].(state := if old(procs)[p].state.RUNNING? then RUNNABLE else RUNNING)]
    {
      ghost var t := Now();
      procs := procs[p := procs[p].(state := if procs[p].state.RUNNING? then RUNNABLE else RUNNING)];
      OneStirs(t, p, procs[p]);
      ReachedNext(t, Now());
    }

    /** The first entry with that pid; NPROC if there is none. */
    method FindPid(pid: int) returns (p: int)
      requires |procs| == NPROC
      ensures 0 <= p <= NPROC && (forall i | 0 <= i < p :: procs[i].pid != pid) && (p < NPROC ==> procs[p].pid == pid)
    {
      p := 0;
      while p < NPROC && procs[p].pid != pid
        invariant 0 <= p <= NPROC
        invariant forall i | 0 <= i < p :: procs[i].pid != pid
      {
        p := p + 1;
      }
    }

    /** kill: the first entry with that pid is marked and, if asleep, made runnable. */
    method Kill(pid: int) returns (r: int)
      requires Valid()
      modifies `procs
      ensures Valid() && Next(old(Now()), Now())
      ensures r == 0 || r == -1
      ensures r == -1 ==> procs == old(procs) && |procs| == NPROC && forall i | 0 <= i < NPROC :: procs[i].pid != pid
      ensures r == 0 ==> exists k :: 0 <= k < NPROC && IsFirst(old(procs), pid, k) && procs == old(procs)[k :=
                old(procs)[k].(killed := true, state := if old(procs)[k].state.SLEEPING? then RUNNABLE else old(procs)[k].state)]
    {
      ghost var t := Now();
      var p := FindPid(pid);
      if p == NPROC {
        SameStep(t);
        return -1;
      }
      procs := procs[p := procs[p].(killed := true)];
      if procs[p].state.SLEEPING? {
        procs := procs[p := procs[p].(state := RUNNABLE)];
      }
      assert IsFirst(t.procs, pid, p);
      assert KillStep(t, Now(), p);
      ReachedNext(t, Now());
      return 0;
    }

    /** wait's scan: the first zombie child, NPROC if there is none, and whether there is any child. */
    method Scan(cur: int) returns (p: int, havekids: bool)
      requires |procs| == NPROC
      ensures 0 <= p <= NPROC && (p < NPROC ==> procs[p].parent == cur && procs[p].state.ZOMBIE?)
      ensures forall i | 0 <= i < p && procs[i].parent == cur :: !procs[i].state.ZOMBIE?
      ensures p == NPROC ==> (havekids <==> exists i :: 0 <= i < NPROC && procs[i].parent == cur)
    {
      havekids := false;
      p := 0;
      while p < NPROC
        invariant 0 <= p <= NPROC
        invariant havekids <==> exists i :: 0 <= i < p && procs[i].parent == cur
        invariant forall i | 0 <= i < p && procs[i].parent == cur :: !procs[i].state.ZOMBIE?
      {
        if procs[p].parent == cur {
          havekids := true;
          if procs[p].state.ZOMBIE? {
            return;
          }
        }
        p := p + 1;
      }
    }

    /** One pass of wait, on entry or after a wakeup: reap the first zombie child, fail if there is no
        child or the caller was killed, else sleep. */
    method Wait(cur: int) returns (r: Waited)
      requires Valid() && Running(cur) && !procs[cur].call.Fork?
      modifies this
      ensures Valid() && Next(old(Now()), Now())
      ensures r.Reaped? <==> Orphans(old(procs), cur)
      ensures r.Reaped? ==> exists k ::
                && 0 <= k < NPROC && FirstZombie(old(procs), cur, k) && r.pid == old(procs)[k].pid
                && stacks == old(stacks) - {old(procs)[k].kstack} && spaces == old(spaces) - {old(procs)[k].pgdir}
                && Gone(old(procs), procs, cur, k)
      ensures r.Failed? <==> (!Orphans(old(procs), cur)
                              && (old(procs)[cur].killed || forall i | 0 <= i < NPROC :: old(procs)[i].parent != cur))
      ensures !r.Reaped? ==> stacks == old(stacks) && spaces == old(spaces)
      ensures r.Failed? ==> procs == old(procs)[cur := Awake(old(procs)[cur])]
      ensures r.Slept? ==>
                procs == old(procs)[cur := old(procs)[cur].(state := SLEEPING, chan := OnProc(cur), call := Waiting)]
    {
      ghost var t := Now();
      ResumedStep(t, cur);
      ReachedNext(t, Resumed(t, cur));
      if procs[cur].call.Waiting? {
        procs := procs[cur := procs[cur].(chan := NoChan, call := Idle)];
      }
      assert Now() == Resumed(t, cur);
      var p, havekids := Scan(cur);
      if p < NPROC {
        r := Reaped(procs[p].pid);
        Reap(p);
        assert ReapStep(t, Now(), cur, p);
        ReachedNext(t, Now());
        assert FirstZombie(t.procs, cur, p) && Gone(t.procs, procs, cur, p);
        return;
      }
      assert !Orphans(t.procs, cur);
      if !havekids || procs[cur].killed {
        return Failed;
      }
      procs := procs[cur := procs[cur].(chan := OnProc(cur))];
      procs := procs[cur := procs[cur].(state := SLEEPING, call := Waiting)];
      assert procs == t.procs[cur := t.procs[cur].(state := SLEEPING, chan := OnProc(cur), call := Waiting)];
      assert WaitStep(t, Now(), cur);
      ReachedNext(t, Now());
      return Slept;
    }

    /** wait's clean-up: the stack and the address space go with the entry. */
    method Reap(p: int)
      requires 0 <= p < |procs|
      modifies this
      ensures Now() == ReapedTable(old(Now()), p)
    {
      reaped := reaped + [procs[p].pid];
      stacks := stacks - {procs[p].kstack};
      procs := procs[p := procs[p].(kstack := 0)];
      spaces := spaces - {procs[p].pgdir};
      procs := procs[p := procs[p].(pid := 0, parent := NONE, killed := false, state := UNUSED)];
    }
  }

  /** Entry k is the first with that pid. */
  predicate IsFirst(ps: seq<Proc>, pid: int, k: int)
    requires 0 <= k < |ps|
  {
    ps[k].pid == pid && forall i | 0 <= i < k :: ps[i].pid != pid
  }

  predicate FirstZombie(ps: seq<Proc>, cur: int, k: int)
    requires 0 <= k < |ps|
  {
    && ps[k].state.ZOMBIE? && ps[k].parent == cur
    && forall i | 0 <= i < k :: !(ps[i].state.ZOMBIE? && ps[i].parent == cur)
  }

  /** Back from wait's sleep, if it was there. */
  function Awake(q: Proc): Proc {
    if q.call.Waiting? then q.(chan := NoChan, call := Idle) else q
  }

  /** wait has cleared entry k, and the caller is awake. */
  predicate Gone(ps: seq<Proc>, qs: seq<Proc>, cur: int, k: int)
    requires 0 <= cur < |ps| && 0 <= k < |ps|
  {
    && k != cur
    && qs == ps[cur := Awake(ps[cur])][k := ps[k].(kstack := 0, pid := 0, parent := NONE, killed := false, state := UNUSED)]
  }

  /** What exit leaves: cur a zombie, its children init's, awake who slept in wait for cur's parent and, if
      init has inherited a zombie, for init; all else as it was. */
  ghost predicate Left(ps: seq<Proc>, qs: seq<Proc>, cur: int, init: int) {
    && 0 <= cur < |ps| == |qs| && qs[cur] == ps[cur].(state := ZOMBIE)
    && forall i {:trigger qs[i]} | 0 <= i < |ps| && i != cur ::
         var wakes := ps[i].state.SLEEPING? && (ps[i].chan == OnProc(ps[cur].parent) || (ps[i].chan == OnProc(init)
                        && exists z :: 0 <= z < |ps| && ps[z].parent == cur && ps[z].state.ZOMBIE?));
         qs[i] == ps[i].(parent := if ps[i].parent == cur then init else ps[i].parent,
                         state := if wakes then RUNNABLE else ps[i].state)
  }

  lemma IsLeft(ps: seq<Proc>, qs: seq<Proc>, cur: int, init: int)
    requires 0 <= cur < |ps| && ps[cur].parent != cur && IsExited(ps, qs, cur, init)
    ensures Left(ps, qs, cur, init)
  {
  }

  // ---------- the reparenting loop ----------

  ghost predicate OrphansBelow(ps: seq<Proc>, cur: int, n: int)
    requires n <= |ps|
  {
    exists z :: 0 <= z < n && ps[z].parent == cur && ps[z].state.ZOMBIE?
  }

  /** Entry i once the loop has passed the first n. */
  ghost function PartAbandoned(ps: seq<Proc>, cur: int, init: int, n: int, i: int): Proc
    requires 0 <= cur < |ps| && n <= |ps| && 0 <= i < |ps|
  {
    var q := WokenOne(ps[i], OnProc(ps[cur].parent));
    var r := if OrphansBelow(ps, cur, n) then WokenOne(q, OnProc(init)) else q;
    if i < n then Adopted(r, cur, init) else r
  }

  lemma AbandonNext(ps: seq<Proc>, cur: int, init: int, n: int, was: seq<Proc>, now: seq<Proc>)
    requires 0 <= cur < |ps| == |was| == |now| && 0 <= n < |ps| && cur != init
    requires forall i {:trigger was[i]} | 0 <= i < |ps| :: was[i] == PartAbandoned(ps, cur, init, n, i)
    requires forall i {:trigger now[i]} | 0 <= i < |ps| ::
      var q := if i == n then Adopted(was[i], cur, init) else was[i];
      now[i] == if ps[n].parent == cur && ps[n].state.ZOMBIE? then WokenOne(q, OnProc(init)) else q
    ensures forall i {:trigger now[i]} | 0 <= i < |ps| :: now[i] == PartAbandoned(ps, cur, init, n + 1, i)
  {
    assert OrphansBelow(ps, cur, n + 1) <==> OrphansBelow(ps, cur, n) || (ps[n].parent == cur && ps[n].state.ZOMBIE?) by {
      if OrphansBelow(ps, cur, n) {
        var z :| 0 <= z < n && ps[z].parent == cur && ps[z].state.ZOMBIE?;
        assert 0 <= z < n + 1;
      }
    }
  }
}
