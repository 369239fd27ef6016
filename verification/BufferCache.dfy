/** The circular doubly linked LRU list of bio.c, on values: `next` and `prev` are the pointer fields of
    all buffers and of the list head (index NBUF), `order` is the list they spell, most recent first. */
module LruList {
  import opened Finite

  const NBUF: nat := 30
  const HEAD: nat := NBUF

  /** Node number i on the way round: the head, the buffers in order, the head again. */
  function At(order: seq<nat>, i: nat): nat
    requires i <= |order| + 1
  {
    if i == 0 || i == |order| + 1 then HEAD else order[i - 1]
  }

  predicate Distinct(order: seq<nat>) {
    && (forall i | 0 <= i < |order| :: order[i] < NBUF)
    && (forall i, j | 0 <= i < j < |order| :: order[i] != order[j])
  }

  /** next and prev are inverse to each other and form one cycle through the head and `order`. */
  ghost predicate Linked(order: seq<nat>, next: seq<nat>, prev: seq<nat>) {
    && |next| == |prev| == NBUF + 1 && Distinct(order)
    && forall i: nat | i <= |order| ::
         next[At(order, i)] == At(order, i + 1) && prev[At(order, i + 1)] == At(order, i)
  }

  ghost function Without(order: seq<nat>, k: nat): seq<nat>
    requires k < |order|
  {
    order[..k] + order[k + 1..]
  }

  /** Taking a buffer out of the list: its neighbours are linked to each other. */
  lemma UnlinkKeepsList(order: seq<nat>, next: seq<nat>, prev: seq<nat>, k: nat)
    requires Linked(order, next, prev) && k < |order|
    ensures next[order[k]] <= NBUF && prev[order[k]] <= NBUF
    ensures Linked(Without(order, k), next[prev[order[k]] := next[order[k]]], prev[next[order[k]] := prev[order[k]]])
  {
    var b, r := order[k], Without(order, k);
    assert At(order, k + 1) == b;
    assert next[b] == At(order, k + 2) && prev[b] == At(order, k);
    var n', p' := next[prev[b] := next[b]], prev[next[b] := prev[b]];
    forall i: nat | i <= |r|
      ensures n'[At(r, i)] == At(r, i + 1) && p'[At(r, i + 1)] == At(r, i)
    {
      if i < k {
        assert next[At(order, i)] == At(order, i + 1);
      } else if i > k {
        assert next[At(order, i + 1)] == At(order, i + 2);
      }
    }
  }

  /** Putting a buffer in behind the head. */
  lemma PushKeepsList(order: seq<nat>, next: seq<nat>, prev: seq<nat>, b: nat)
    requires Linked(order, next, prev) && b < NBUF && b !in order
    ensures next[HEAD] <= NBUF
    ensures Linked([b] + order,
                   next[b := next[HEAD]][HEAD := b], prev[b := HEAD][next[HEAD] := b])
  {
    var r := [b] + order;
    assert next[At(order, 0)] == At(order, 1);
    var n', p' := next[b := next[HEAD]][HEAD := b], prev[b := HEAD][next[HEAD] := b];
    forall i: nat | i <= |r|
      ensures n'[At(r, i)] == At(r, i + 1) && p'[At(r, i + 1)] == At(r, i)
    {
      if i >= 2 {
        assert next[At(order, i - 1)] == At(order, i) && prev[At(order, i)] == At(order, i - 1);
        assert At(r, i) == At(order, i - 1) && At(r, i + 1) == At(order, i);
      }
    }
  }

  /** A list of NBUF different buffers holds every buffer. */
  lemma FullListHasAll(order: seq<nat>, b: nat) returns (k: nat)
    requires Distinct(order) && |order| == NBUF && b < NBUF
    ensures k < NBUF && order[k] == b
  {
    DistinctSize(order);
    FillsAll(SetOf(order), NBUF, b);
    k :| 0 <= k < NBUF && order[k] == b;
  }

  /** Unlink and push: what brelse does to the list. */
  lemma MoveToFront(order: seq<nat>, next: seq<nat>, prev: seq<nat>, k: nat)
    requires Linked(order, next, prev) && k < |order|
    ensures var i := order[k];
            && next[i] <= NBUF && prev[i] <= NBUF
            && var (n, p) := (next[prev[i] := next[i]], prev[next[i] := prev[i]]);
            && n[HEAD] <= NBUF
            && Linked([i] + Without(order, k), n[i := n[HEAD]][HEAD := i], p[i := HEAD][n[HEAD] := i])
  {
    UnlinkKeepsList(order, next, prev, k);
    var i := order[k];
    PushKeepsList(Without(order, k), next[prev[i] := next[i]], prev[next[i] := prev[i]], i);
  }
}

/** bio.c and the in-memory disk of memide.c.  Every method is one critical section of the source, so
    any interleaving of processes is a sequence of method calls; what all of them keep is `Valid`. */
module BufferCache {
  import opened Finite
  import opened LruList

  type Pid = nat

  datatype Block = Block(bytes: seq<bv8>)

  datatype Holder = Free | HeldBy(pid: Pid)

  datatype Buf = Buf(
    dev: nat, blockno: nat, refcnt: nat,
    valid: bool, dirty: bool,      // B_VALID, B_DIRTY
    lock: Holder, data: Block)
  {
    predicate Holds(d: nat, b: nat) {
      dev == d && blockno == b
    }
  }

  /** Device 1 is the disk; buffers start out on device 0, which no one asks for. */
  const DISK: nat := 1

  ghost predicate UsersOk(bufs: seq<Buf>, users: seq<set<Pid>>, changed: set<nat>) {
    && |bufs| == |users| == NBUF
    && (forall i | 0 <= i < NBUF :: bufs[i].refcnt == |users[i]|)
    && (forall i | 0 <= i < NBUF :: bufs[i].lock.HeldBy? ==> bufs[i].lock.pid in users[i])
    && (forall i | i in changed :: i < NBUF && bufs[i].lock.HeldBy? && bufs[i].valid)
    && (forall i | 0 <= i < NBUF :: bufs[i].dirty ==> bufs[i].valid)
  }

  ghost predicate Unique(bufs: seq<Buf>) {
    forall i, j | 0 <= i < j < |bufs| && bufs[i].dev >= 1 :: !bufs[j].Holds(bufs[i].dev, bufs[i].blockno)
  }

  /** `newest` is the latest content anyone gave each block.  A valid buffer holds it, and the disk
      holds it too unless a buffer is dirty or still being changed. */
  ghost predicate Coherent(bufs: seq<Buf>, changed: set<nat>, disk: seq<Block>, newest: seq<Block>) {
    && |newest| == |disk|
    && (forall i | 0 <= i < |bufs| && bufs[i].valid ::
          bufs[i].dev == DISK && bufs[i].blockno < |disk| && bufs[i].data == newest[bufs[i].blockno])
    && (forall b | 0 <= b < |disk| && disk[b] != newest[b] ::
          exists i :: 0 <= i < |bufs| && bufs[i].valid && bufs[i].blockno == b && (bufs[i].dirty || i in changed))
  }

  ghost predicate Sorted(order: seq<nat>, stamp: seq<nat>, clock: nat) {
    && |stamp| == NBUF && Distinct(order)
    && (forall i | 0 <= i < NBUF :: stamp[i] < clock)
    && (forall i, j | 0 <= i < j < |order| :: stamp[order[i]] > stamp[order[j]])
  }

  /** A buffer that pins the disk's block b. */
  predicate Pins(buf: Buf, b: nat) {
    buf.Holds(DISK, b) && buf.valid && buf.dirty
  }

  /** Every block named in the log header has its buffer pinned. */
  ghost predicate Kept(bufs: seq<Buf>, listed: set<nat>) {
    forall b | b in listed :: exists i :: 0 <= i < |bufs| && Pins(bufs[i], b)
  }

  predicate Recyclable(b: Buf) {
    b.refcnt == 0 && !b.dirty
  }

  class Cache {
    var bufs: seq<Buf>
    var next: seq<nat>
    var prev: seq<nat>
    var disk: seq<Block>
    ghost var order: seq<nat>         // the list, most recently released first
    ghost var stamp: seq<nat>         // when each buffer was last released to nobody
    ghost var clock: nat
    ghost var users: seq<set<Pid>>    // who counts in each refcnt
    ghost var changed: set<nat>       // buffers changed by their holder and not yet written or logged
    ghost var newest: seq<Block>
    ghost var listed: set<nat>        // blocks named in the log header and not yet installed

    ghost predicate Valid()
      reads this
    {
      && Linked(order, next, prev) && |order| == NBUF && Sorted(order, stamp, clock)
      && UsersOk(bufs, users, changed) && Unique(bufs) && Coherent(bufs, changed, disk, newest)
      && Kept(bufs, listed)
    }

    /** binit, on a disk that is up to date with itself. */
    constructor (image: seq<Block>, junk: Block)
      ensures Valid() && disk == image && newest == image && changed == {} && listed == {}
      ensures order == seq(NBUF, i requires 0 <= i < NBUF => (NBUF - 1 - i) as nat)
      ensures forall i | 0 <= i < NBUF :: bufs[i] == Buf(0, 0, 0, false, false, Free, junk) && users[i] == {}
    {
      disk, newest, changed, listed := image, image, {}, {};
      users := seq(NBUF, i => {});
      bufs := seq(NBUF, i => Buf(0, 0, 0, false, false, Free, junk));
      stamp, clock := seq(NBUF, i requires 0 <= i => i), NBUF;
      var n: seq<nat>, p: seq<nat> := seq(NBUF + 1, i => HEAD), seq(NBUF + 1, i => HEAD);
      ghost var o: seq<nat> := [];
      var b := 0;
      while b < NBUF
        invariant 0 <= b <= NBUF && Linked(o, n, p) && |o| == b
        invariant forall i | 0 <= i < b :: o[i] == b - 1 - i
      {
        PushKeepsList(o, n, p, b);
        n, p := n[b := n[HEAD]][HEAD := b], p[b := HEAD][n[HEAD] := b];
        o := [b] + o;
        b := b + 1;
      }
      next, prev, order := n, p, o;
    }

    /** The first half of bget's search: along the list for a buffer that already holds the block. */
    method Lookup(dev: nat, blockno: nat) returns (found: bool, i: nat)
      requires Valid()
      ensures found ==> i < NBUF && bufs[i].Holds(dev, blockno)
      ensures !found ==> forall j | 0 <= j < NBUF :: !bufs[j].Holds(dev, blockno)
    {
      var b := next[HEAD];
      ghost var at: nat := 1;
      assert next[At(order, 0)] == At(order, 1);
      while b != HEAD
        invariant 1 <= at <= NBUF + 1 && b == At(order, at)
        invariant forall k | 0 <= k < at - 1 :: !bufs[order[k]].Holds(dev, blockno)
        decreases NBUF + 1 - at
      {
        if bufs[b].dev == dev && bufs[b].blockno == blockno {
          return true, b;
        }
        assert next[At(order, at)] == At(order, at + 1);
        b := next[b];
        at := at + 1;
      }
      forall j | 0 <= j < NBUF
        ensures !bufs[j].Holds(dev, blockno)
      {
        var k := FullListHasAll(order, j);
      }
      return false, 0;
    }

    /** The second half: backwards for an unused clean buffer.  The victim is, of all such buffers, the
        one that has been free the longest. */
    method Victim() returns (found: bool, i: nat)
      requires Valid()
      ensures found <==> exists j :: 0 <= j < NBUF && Recyclable(bufs[j])
      ensures found ==> i < NBUF && Recyclable(bufs[i])
      ensures found ==> forall j | 0 <= j < NBUF && Recyclable(bufs[j]) && j != i :: stamp[i] < stamp[j]
    {
      var b := prev[HEAD];
      ghost var at: nat := NBUF;
      assert prev[At(order, NBUF + 1)] == At(order, NBUF);
      while b != HEAD
        invariant 0 <= at <= NBUF && b == At(order, at)
        invariant forall k | at <= k < NBUF :: !Recyclable(bufs[order[k]])
        decreases at
      {
        if bufs[b].refcnt == 0 && !bufs[b].dirty {
          forall j | 0 <= j < NBUF && Recyclable(bufs[j]) && j != b
            ensures stamp[b] < stamp[j]
          {
            var k := FullListHasAll(order, j);
            assert b == order[at - 1];
          }
          return true, b;
        }
        assert prev[At(order, at)] == At(order, at - 1);
        b := prev[b];
        at := at - 1;
      }
      forall j | 0 <= j < NBUF
        ensures !Recyclable(bufs[j])
      {
        var k := FullListHasAll(order, j);
      }
      return false, 0;
    }

    /** bget up to its acquiresleep: the caller now counts as a user of a buffer for the block.  It
        fails ("no buffers") only when no buffer holds the block and every one is in use or dirty.  No
        other buffer changes, and a buffer that is in use or dirty keeps its block and its data. */
    method Bget(pid: Pid, dev: nat, blockno: nat) returns (ok: bool, i: nat)
      requires Valid() && dev >= 1
      requires forall j | 0 <= j < NBUF && bufs[j].Holds(dev, blockno) :: pid !in users[j]
      modifies this`bufs, this`users
      ensures Valid()
      ensures ok <==> old(exists j :: 0 <= j < NBUF && (bufs[j].Holds(dev, blockno) || Recyclable(bufs[j])))
      ensures old(forall j | 0 <= j < NBUF :: !bufs[j].Holds(dev, blockno)) ==>
                (ok <==> old(|listed| + |Others(bufs, listed)| < NBUF))
      ensures !ok ==> bufs == old(bufs) && users == old(users)
      ensures ok ==> i < NBUF && bufs[i].Holds(dev, blockno) && users == old(users)[i := old(users)[i] + {pid}]
      ensures ok ==> forall j | 0 <= j < NBUF && j != i :: bufs[j] == old(bufs)[j]
      ensures ok ==> bufs[i].lock == old(bufs)[i].lock
      ensures ok && !old(bufs)[i].Holds(dev, blockno) ==> Recyclable(old(bufs)[i]) && bufs[i] == old(bufs)[i].(
                dev := dev, blockno := blockno, refcnt := 1, valid := false, dirty := false, lock := Free)
      ensures ok && (old(bufs)[i].Holds(dev, blockno) || !Recyclable(old(bufs)[i])) ==> bufs[i] == old(bufs)[i].(refcnt := old(bufs)[i].refcnt + 1)
      ensures ok && !old(bufs)[i].Holds(dev, blockno) ==>
                forall j | 0 <= j < NBUF && Recyclable(old(bufs)[j]) && j != i :: stamp[i] < stamp[j]
    {
      ok, i := Lookup(dev, blockno);
      if ok {
        AddUser(pid, i);
        return;
      }
      BuffersLeft(bufs, listed);
      ok, i := Victim();
      if ok {
        Recycle(pid, i, dev, blockno);
      }
    }

    method AddUser(pid: Pid, i: nat)
      requires Valid() && i < NBUF && pid !in users[i]
      modifies this`bufs, this`users
      ensures Valid() && users == old(users)[i := old(users)[i] + {pid}]
      ensures bufs == old(bufs)[i := old(bufs)[i].(refcnt := old(bufs)[i].refcnt + 1)]
    {
      bufs := bufs[i := bufs[i].(refcnt := bufs[i].refcnt + 1)];
      users := users[i := users[i] + {pid}];
      SameEvidence(old(bufs), bufs, changed, disk, newest);
      StillKept(old(bufs), bufs, listed);
    }

    method Recycle(pid: Pid, i: nat, dev: nat, blockno: nat)
      requires Valid() && i < NBUF && Recyclable(bufs[i]) && dev >= 1
      requires forall j | 0 <= j < NBUF :: !bufs[j].Holds(dev, blockno)
      modifies this`bufs, this`users
      ensures Valid() && users == old(users)[i := {pid}] && old(users)[i] == {} && old(bufs)[i].lock == Free
      ensures bufs == old(bufs)[i := old(bufs)[i].(dev := dev, blockno := blockno, refcnt := 1, valid := false, dirty := false)]
    {
      bufs := bufs[i := Buf(dev, blockno, 1, false, false, bufs[i].lock, bufs[i].data)];
      users := users[i := {pid}];
      RecycleCoherent(old(bufs), bufs, i, changed, disk, newest);
      StillKept(old(bufs), bufs, listed);
    }

    /** acquiresleep by a user of the buffer, once nobody holds it. */
    method Lock(pid: Pid, i: nat)
      requires Valid() && i < NBUF && pid in users[i] && bufs[i].lock.Free?
      modifies this`bufs
      ensures Valid() && bufs == old(bufs)[i := old(bufs)[i].(lock := HeldBy(pid))]
    {
      bufs := bufs[i := bufs[i].(lock := HeldBy(pid))];
      SameEvidence(old(bufs), bufs, changed, disk, newest);
      StillKept(old(bufs), bufs, listed);
    }

    /** memide's iderw.  `ok` is false where it panics. */
    method Iderw(pid: Pid, i: nat) returns (ok: bool)
      requires Valid() && i < NBUF
      modifies this`bufs, this`disk, this`changed, this`listed
      ensures Valid()
      ensures listed == if ok && old(bufs)[i].dirty then old(listed) - {bufs[i].blockno} else old(listed)
      ensures ok <==> old(bufs[i].lock == HeldBy(pid) && !(bufs[i].valid && !bufs[i].dirty)
                          && bufs[i].dev == DISK && bufs[i].blockno < |disk|)
      ensures !ok ==> bufs == old(bufs) && disk == old(disk) && changed == old(changed)
      ensures ok ==> bufs == old(bufs)[i := bufs[i]] && !bufs[i].dirty && bufs[i].valid
      ensures ok ==> bufs[i] == old(bufs)[i].(dirty := false, valid := true, data := bufs[i].data)
      ensures ok ==> bufs[i].data == newest[bufs[i].blockno] == disk[bufs[i].blockno]
      ensures ok ==> disk == old(disk)[bufs[i].blockno := disk[bufs[i].blockno]]
      ensures ok ==> changed == if old(bufs)[i].dirty then old(changed) - {i} else old(changed)
    {
      var b := bufs[i];
      if b.lock != HeldBy(pid) || (b.valid && !b.dirty) || b.dev != DISK || b.blockno >= |disk| {
        return false;
      }
      if b.dirty {
        bufs := bufs[i := b.(dirty := false, valid := true)];
        disk := disk[b.blockno := b.data];
        changed := changed - {i};
        listed := listed - {b.blockno};
      } else {
        CleanIsNewest(bufs, i, changed, disk, newest);
        bufs := bufs[i := b.(data := disk[b.blockno], valid := true)];
      }
      IoCoherent(old(bufs), bufs, i, old(changed), changed, old(disk), disk, newest);
      IoKept(old(bufs), bufs, i, listed);
      return true;
    }

    /** The end of bread, with the lock held: whatever path it took, the caller now has the newest
        content of the block. */
    method Bread(pid: Pid, i: nat) returns (ok: bool)
      requires Valid() && i < NBUF && bufs[i].lock == HeldBy(pid)
      modifies this`bufs, this`disk, this`changed, this`listed
      ensures Valid() && listed == old(listed)
      ensures ok <==> bufs[i].dev == DISK && bufs[i].blockno < |disk|
      ensures ok ==> bufs[i].valid && bufs[i].data == newest[bufs[i].blockno]
      ensures disk == old(disk) && changed == old(changed)
      ensures bufs == old(bufs)[i := old(bufs)[i].(valid := bufs[i].valid, data := bufs[i].data)]
    {
      ok := true;
      if !bufs[i].valid {
        ok := Iderw(pid, i);
      }
    }

    /** The holder of a buffer changes its contents. */
    method Change(pid: Pid, i: nat, data: Block)
      requires Valid() && i < NBUF && bufs[i].lock == HeldBy(pid) && bufs[i].valid
      modifies this`bufs, this`changed, this`newest
      ensures Valid() && changed == old(changed) + {i}
      ensures bufs == old(bufs)[i := old(bufs)[i].(data := data)]
      ensures newest == old(newest)[bufs[i].blockno := data]
    {
      bufs := bufs[i := bufs[i].(data := data)];
      changed := changed + {i};
      newest := newest[bufs[i].blockno := data];
      ChangeCoherent(old(bufs), i, data, old(changed), disk, old(newest));
      StillKept(old(bufs), bufs, listed);
    }

    /** bwrite: afterwards the disk has the newest content of the block, and it need not stay pinned. */
    method Bwrite(pid: Pid, i: nat) returns (ok: bool)
      requires Valid() && i < NBUF && bufs[i].valid
      modifies this`bufs, this`disk, this`changed, this`listed
      ensures Valid() && (ok <==> old(bufs)[i].lock == HeldBy(pid))
      ensures listed == if ok then old(listed) - {bufs[i].blockno} else old(listed)
      ensures ok ==> bufs[i].blockno < |disk| && disk == old(disk)[bufs[i].blockno := newest[bufs[i].blockno]]
      ensures ok ==> changed == old(changed) - {i}
      ensures ok ==> bufs == old(bufs)[i := old(bufs)[i].(dirty := false)]
      ensures !ok ==> bufs == old(bufs) && disk == old(disk) && changed == old(changed)
    {
      if bufs[i].lock != HeldBy(pid) {
        return false;
      }
      bufs := bufs[i := bufs[i].(dirty := true)];
      SameEvidence(old(bufs), bufs, changed, disk, newest);
      StillKept(old(bufs), bufs, listed);
      ok := Iderw(pid, i);
    }

    /** The end of log_write: the block is listed, and B_DIRTY pins its buffer.  From here on every method
        but the write to disk keeps the block listed, and Valid keeps its buffer. */
    method Pin(pid: Pid, i: nat)
      requires Valid() && i < NBUF && bufs[i].lock == HeldBy(pid) && bufs[i].valid
      modifies this`bufs, this`changed, this`listed
      ensures Valid() && changed == old(changed) - {i} && listed == old(listed) + {bufs[i].blockno}
      ensures bufs == old(bufs)[i := old(bufs)[i].(dirty := true)]
    {
      PinCoherent(bufs, i, changed, disk, newest);
      PinKept(bufs, i, listed);
      bufs := bufs[i := bufs[i].(dirty := true)];
      changed := changed - {i};
      listed := listed + {bufs[i].blockno};
    }

    /** brelse, first half: releasesleep.  The discipline of the cache's clients is that they write or
        log what they changed before they let go. */
    method Unlock(pid: Pid, i: nat) returns (ok: bool)
      requires Valid() && i < NBUF && i !in changed
      modifies this`bufs
      ensures Valid() && (ok <==> old(bufs)[i].lock == HeldBy(pid))
      ensures bufs == if ok then old(bufs)[i := old(bufs)[i].(lock := Free)] else old(bufs)
    {
      if bufs[i].lock != HeldBy(pid) {
        return false;
      }
      bufs := bufs[i := bufs[i].(lock := Free)];
      SameEvidence(old(bufs), bufs, changed, disk, newest);
      StillKept(old(bufs), bufs, listed);
      return true;
    }

    /** brelse, second half: the last user moves the buffer to the front of the list. */
    method Unref(pid: Pid, i: nat)
      requires Valid() && i < NBUF && pid in users[i] && bufs[i].lock != HeldBy(pid)
      modifies this`bufs, this`next, this`prev, this`order, this`stamp, this`clock, this`users
      ensures Valid() && users == old(users)[i := old(users)[i] - {pid}]
      ensures bufs == old(bufs)[i := old(bufs)[i].(refcnt := |users[i]|)]
      ensures users[i] != {} ==> order == old(order) && stamp == old(stamp)
      ensures users[i] == {} ==> stamp == old(stamp)[i := old(clock)] && order[0] == i
      ensures users[i] == {} ==> exists k :: 0 <= k < NBUF && old(order)[k] == i && order == [i] + Without(old(order), k)
    {
      DropUser(pid, i);
      if bufs[i].refcnt == 0 {
        ToFront(i);
      }
    }

    method DropUser(pid: Pid, i: nat)
      requires Valid() && i < NBUF && pid in users[i] && bufs[i].lock != HeldBy(pid)
      modifies this`bufs, this`users
      ensures Valid() && users == old(users)[i := old(users)[i] - {pid}]
      ensures bufs == old(bufs)[i := old(bufs)[i].(refcnt := |users[i]|)]
    {
      users := users[i := users[i] - {pid}];
      bufs := bufs[i := bufs[i].(refcnt := bufs[i].refcnt - 1)];
      SameEvidence(old(bufs), bufs, changed, disk, newest);
      StillKept(old(bufs), bufs, listed);
    }

    method ToFront(i: nat)
      requires Valid() && i < NBUF
      modifies this`next, this`prev, this`order, this`stamp, this`clock
      ensures Valid() && stamp == old(stamp)[i := old(clock)]
      ensures exists k :: 0 <= k < NBUF && old(order)[k] == i && order == [i] + Without(old(order), k)
    {
      ghost var k := FullListHasAll(order, i);
      MoveToFront(order, next, prev, k);
      StampFront(order, stamp, clock, k);
      next, prev := next[prev[i] := next[i]], prev[next[i] := prev[i]];
      next, prev := next[i := next[HEAD]][HEAD := i], prev[i := HEAD][next[HEAD] := i];
      order := [i] + Without(order, k);
      stamp, clock := stamp[i := clock], clock + 1;
    }
  }

  /** Buffers that keep their block, data and state of being ahead of the disk keep the cache coherent. */
  lemma SameEvidence(bs: seq<Buf>, cs: seq<Buf>, changed: set<nat>, disk: seq<Block>, newest: seq<Block>)
    requires Coherent(bs, changed, disk, newest) && |bs| == |cs|
    requires forall i | 0 <= i < |bs| ::
               && cs[i].dev == bs[i].dev && cs[i].blockno == bs[i].blockno && cs[i].valid == bs[i].valid
               && cs[i].data == bs[i].data && (bs[i].dirty ==> cs[i].dirty)
    ensures Coherent(cs, changed, disk, newest)
  {
    forall b | 0 <= b < |disk| && disk[b] != newest[b]
      ensures exists i :: 0 <= i < |cs| && cs[i].valid && cs[i].blockno == b && (cs[i].dirty || i in changed)
    {
      var i :| 0 <= i < |bs| && bs[i].valid && bs[i].blockno == b && (bs[i].dirty || i in changed);
      assert cs[i].valid && cs[i].blockno == b;
    }
  }

  lemma StillKept(bs: seq<Buf>, cs: seq<Buf>, listed: set<nat>)
    requires Kept(bs, listed) && |bs| == |cs|
    requires forall i | 0 <= i < |bs| && bs[i].dirty && bs[i].valid ::
               cs[i].dev == bs[i].dev && cs[i].blockno == bs[i].blockno && cs[i].valid && cs[i].dirty
    ensures Kept(cs, listed)
  {
    forall b | b in listed
      ensures exists i :: 0 <= i < |cs| && Pins(cs[i], b)
    {
      var i :| 0 <= i < |bs| && Pins(bs[i], b);
      assert Pins(cs[i], b);
    }
  }

  /** A dirty buffer is as good as one whose holder is still changing it. */
  lemma PinCoherent(bs: seq<Buf>, i: nat, changed: set<nat>, disk: seq<Block>, newest: seq<Block>)
    requires Coherent(bs, changed, disk, newest) && i < |bs|
    ensures Coherent(bs[i := bs[i].(dirty := true)], changed - {i}, disk, newest)
  {
    var cs := bs[i := bs[i].(dirty := true)];
    forall b | 0 <= b < |disk| && disk[b] != newest[b]
      ensures exists k :: 0 <= k < |cs| && cs[k].valid && cs[k].blockno == b && (cs[k].dirty || k in changed - {i})
    {
      var k :| 0 <= k < |bs| && bs[k].valid && bs[k].blockno == b && (bs[k].dirty || k in changed);
      assert cs[k].valid && cs[k].blockno == b;
    }
  }

  lemma ChangeCoherent(bs: seq<Buf>, i: nat, data: Block, changed: set<nat>, disk: seq<Block>, newest: seq<Block>)
    requires Coherent(bs, changed, disk, newest) && Unique(bs) && i < |bs| && bs[i].valid
    ensures Coherent(bs[i := bs[i].(data := data)], changed + {i}, disk, newest[bs[i].blockno := data])
  {
    var cs, now := bs[i := bs[i].(data := data)], newest[bs[i].blockno := data];
    forall x | 0 <= x < |disk| && disk[x] != now[x]
      ensures exists k :: 0 <= k < |cs| && cs[k].valid && cs[k].blockno == x && (cs[k].dirty || k in changed + {i})
    {
      if x == bs[i].blockno {
        assert cs[i].valid && i in changed + {i};
      } else {
        var k :| 0 <= k < |bs| && bs[k].valid && bs[k].blockno == x && (bs[k].dirty || k in changed);
        assert cs[k] == bs[k];
      }
    }
  }

  lemma PinKept(bs: seq<Buf>, i: nat, listed: set<nat>)
    requires Kept(bs, listed) && i < |bs| && bs[i].valid && bs[i].dev == DISK
    ensures Kept(bs[i := bs[i].(dirty := true)], listed + {bs[i].blockno})
  {
    var cs := bs[i := bs[i].(dirty := true)];
    StillKept(bs, cs, listed);
    assert Pins(cs[i], bs[i].blockno);
  }

  /** A transfer of buffer i unpins no other block. */
  lemma IoKept(bs: seq<Buf>, cs: seq<Buf>, i: nat, listed: set<nat>)
    requires i < |bs| == |cs| && cs == bs[i := cs[i]] && Kept(bs, listed)
    requires Pins(bs[i], bs[i].blockno) ==> bs[i].blockno !in listed
    ensures Kept(cs, listed)
  {
    forall b | b in listed
      ensures exists k :: 0 <= k < |cs| && Pins(cs[k], b)
    {
      var k :| 0 <= k < |bs| && Pins(bs[k], b);
      assert cs[k] == bs[k];
    }
  }

  /** The block of an invalid buffer is in no other buffer, so the disk has its newest contents. */
  lemma CleanIsNewest(bs: seq<Buf>, i: nat, changed: set<nat>, disk: seq<Block>, newest: seq<Block>)
    requires Coherent(bs, changed, disk, newest) && Unique(bs) && i < |bs| && !bs[i].valid && bs[i].dev == DISK && bs[i].blockno < |disk|
    ensures disk[bs[i].blockno] == newest[bs[i].blockno]
  {
  }

  /** After a transfer buffer i and its disk block are both the newest. */
  lemma IoCoherent(bs: seq<Buf>, cs: seq<Buf>, i: nat, ch: set<nat>, ch': set<nat>, disk: seq<Block>, disk': seq<Block>, newest: seq<Block>)
    requires Coherent(bs, ch, disk, newest) && i < |bs| == |cs| && cs == bs[i := cs[i]] && ch - {i} <= ch'
    requires cs[i].valid && cs[i].dev == DISK && cs[i].blockno < |disk| && cs[i].data == newest[cs[i].blockno]
    requires bs[i].blockno == cs[i].blockno && disk' == disk[cs[i].blockno := newest[cs[i].blockno]]
    ensures Coherent(cs, ch', disk', newest)
  {
    forall x | 0 <= x < |disk'| && disk'[x] != newest[x]
      ensures exists k :: 0 <= k < |cs| && cs[k].valid && cs[k].blockno == x && (cs[k].dirty || k in ch')
    {
      var k :| 0 <= k < |bs| && bs[k].valid && bs[k].blockno == x && (bs[k].dirty || k in ch);
      assert cs[k] == bs[k];
    }
  }

  /** A clean buffer nobody uses can be given to another block. */
  lemma RecycleCoherent(bs: seq<Buf>, cs: seq<Buf>, i: nat, changed: set<nat>, disk: seq<Block>, newest: seq<Block>)
    requires Coherent(bs, changed, disk, newest) && i < |bs| && !bs[i].dirty && i !in changed
    requires |cs| == |bs| && cs == bs[i := cs[i]] && !cs[i].valid
    ensures Coherent(cs, changed, disk, newest)
  {
    forall b | 0 <= b < |disk| && disk[b] != newest[b]
      ensures exists k :: 0 <= k < |cs| && cs[k].valid && cs[k].blockno == b && (cs[k].dirty || k in changed)
    {
      var k :| 0 <= k < |bs| && bs[k].valid && bs[k].blockno == b && (bs[k].dirty || k in changed);
      assert cs[k] == bs[k];
    }
  }

  lemma StampFront(order: seq<nat>, stamp: seq<nat>, clock: nat, k: nat)
    requires Sorted(order, stamp, clock) && k < |order|
    ensures Sorted([order[k]] + Without(order, k), stamp[order[k] := clock], clock + 1)
  {
  }

  // ---------- how many buffers are left ----------

  ghost function Pinned(bufs: seq<Buf>, listed: set<nat>): set<nat> {
    set i: nat | i < |bufs| && bufs[i].blockno in listed && Pins(bufs[i], bufs[i].blockno)
  }

  /** Buffers that bget cannot take and that are not pinned for a listed block. */
  ghost function Others(bufs: seq<Buf>, listed: set<nat>): set<nat> {
    set i: nat | i < |bufs| && !Recyclable(bufs[i]) && i !in Pinned(bufs, listed)
  }

  /** Each listed block pins one buffer. */
  lemma {:induction false} PinnedCount(bufs: seq<Buf>, listed: set<nat>)
    requires Kept(bufs, listed) && Unique(bufs)
    ensures |Pinned(bufs, listed)| == |listed|
  {
    if listed == {} {
      assert Pinned(bufs, listed) == {};
    } else {
      var b :| b in listed;
      var rest := listed - {b};
      var i := PinnerOf(bufs, listed, b);
      OneMorePinned(bufs, rest, b, i);
      assert listed == rest + {b};
      PinnedCount(bufs, rest);
    }
  }

  lemma PinnerOf(bufs: seq<Buf>, listed: set<nat>, b: nat) returns (i: nat)
    requires Kept(bufs, listed) && b in listed
    ensures i < |bufs| && Pins(bufs[i], b) && Kept(bufs, listed - {b})
  {
    assert exists k :: 0 <= k < |bufs| && Pins(bufs[k], b);
    i :| i < |bufs| && Pins(bufs[i], b);
  }

  lemma OneMorePinned(bufs: seq<Buf>, rest: set<nat>, b: nat, i: nat)
    requires Unique(bufs) && b !in rest && i < |bufs| && Pins(bufs[i], b)
    ensures i !in Pinned(bufs, rest) && Pinned(bufs, rest + {b}) == Pinned(bufs, rest) + {i}
  {
    forall j: nat | j < |bufs| && Pins(bufs[j], b)
      ensures j == i
    {
      OnePinsIt(bufs, b, i, j);
    }
  }

  lemma OnePinsIt(bufs: seq<Buf>, b: nat, i: nat, j: nat)
    requires Unique(bufs) && i < |bufs| && j < |bufs| && Pins(bufs[i], b) && Pins(bufs[j], b)
    ensures i == j
  {
  }

  /** bget of a block that is not cached finds a buffer exactly while the listed blocks and the buffers
      in other use are fewer than NBUF. */
  lemma BuffersLeft(bufs: seq<Buf>, listed: set<nat>)
    requires |bufs| == NBUF && Kept(bufs, listed) && Unique(bufs)
    ensures (exists j :: 0 <= j < NBUF && Recyclable(bufs[j])) <==> |listed| + |Others(bufs, listed)| < NBUF
  {
    PinnedCount(bufs, listed);
    var taken: set<int> := set i: int | 0 <= i < NBUF && !Recyclable(bufs[i]);
    TakenCount(bufs, listed, taken);
    FullExactly(taken, NBUF);
  }

  lemma TakenCount(bufs: seq<Buf>, listed: set<nat>, taken: set<int>)
    requires forall i :: i in taken <==> 0 <= i < |bufs| && !Recyclable(bufs[i])
    ensures |taken| == |Pinned(bufs, listed)| + |Others(bufs, listed)|
  {
    var ps: set<int>, os: set<int> := Pinned(bufs, listed), Others(bufs, listed);
    assert taken == ps + os;
    assert ps !! os;
  }

  // ---------- a commit that finds no buffer ----------

  /** Nobody uses a buffer, and exactly the blocks below n are cached, listed and pinned. */
  ghost predicate Logged(bufs: seq<Buf>, users: seq<set<Pid>>, listed: set<nat>, n: nat) {
    && |bufs| == |users| == NBUF && |listed| == n && (forall b | b in listed :: b < n)
    && (forall i | 0 <= i < NBUF :: bufs[i].refcnt == 0 && users[i] == {} && bufs[i].lock == Free)
    && (forall i | 0 <= i < NBUF && (bufs[i].dev == DISK || bufs[i].dirty) ::
          bufs[i].blockno in listed && Pins(bufs[i], bufs[i].blockno))
  }

  lemma LoggedOthers(bufs: seq<Buf>, users: seq<set<Pid>>, listed: set<nat>, n: nat)
    requires Logged(bufs, users, listed, n)
    ensures Others(bufs, listed) == {} && forall i, b | 0 <= i < NBUF && n <= b :: !bufs[i].Holds(DISK, b)
  {
  }

  lemma LoggedNext(bufs: seq<Buf>, users: seq<set<Pid>>, listed: set<nat>, n: nat, i: nat, data: Block)
    requires Logged(bufs, users, listed, n) && i < NBUF && !bufs[i].dirty
    ensures Logged(bufs[i := Buf(DISK, n, 0, true, true, Free, data)], users, listed + {n}, n + 1)
  {
  }

  lemma OneReader(bs: seq<Buf>, cs: seq<Buf>, users: seq<set<Pid>>, listed: set<nat>, n: nat, i: nat)
    requires |cs| == NBUF == |bs| && i < NBUF && cs == bs[i := cs[i]] && cs[i].refcnt == 1 && !cs[i].dirty && cs[i].Holds(DISK, n) && n < NBUF
    requires |users| == NBUF && Logged(bs, users[i := {}], listed, n)
    ensures Others(cs, listed) == {i} && forall j | 0 <= j < NBUF :: !cs[j].Holds(DISK, NBUF)
  {
  }

  /** bread of a block that is not cached. */
  method Fetch(c: Cache, pid: Pid, b: nat) returns (i: nat)
    requires c.Valid() && b < |c.disk| && |c.listed| + |Others(c.bufs, c.listed)| < NBUF
    requires forall j | 0 <= j < NBUF :: !c.bufs[j].Holds(DISK, b)
    modifies c
    ensures c.Valid() && i < NBUF && Recyclable(old(c.bufs)[i]) && c.users == old(c.users)[i := {pid}]
    ensures c.bufs == old(c.bufs)[i := Buf(DISK, b, 1, true, false, HeldBy(pid), c.bufs[i].data)]
    ensures c.listed == old(c.listed) && |c.disk| == |old(c.disk)|
  {
    var ok;
    ok, i := c.Bget(pid, DISK, b);
    assert old(c.users)[i] == {};
    c.Lock(pid, i);
    ok := c.Bread(pid, i);
  }

  /** log_write and brelse by the only user. */
  method LogAndRelease(c: Cache, pid: Pid, i: nat)
    requires c.Valid() && i < NBUF && c.bufs[i].lock == HeldBy(pid) && c.bufs[i].valid && c.users[i] == {pid}
    modifies c
    ensures c.Valid() && c.users == old(c.users)[i := {}] && |c.disk| == |old(c.disk)|
    ensures c.bufs == old(c.bufs)[i := old(c.bufs)[i].(dirty := true, lock := Free, refcnt := 0)]
    ensures c.listed == old(c.listed) + {c.bufs[i].blockno}
  {
    c.Pin(pid, i);
    var ok := c.Unlock(pid, i);
    c.Unref(pid, i);
  }

  method LogNext(c: Cache, pid: Pid, b: nat)
    requires c.Valid() && Logged(c.bufs, c.users, c.listed, b) && b < NBUF && b < |c.disk|
    modifies c
    ensures c.Valid() && Logged(c.bufs, c.users, c.listed, b + 1) && |c.disk| == |old(c.disk)|
  {
    LoggedOthers(c.bufs, c.users, c.listed, b);
    var i := Fetch(c, pid, b);
    LogAndRelease(c, pid, i);
    LoggedNext(old(c.bufs), old(c.users), old(c.listed), b, i, c.bufs[i].data);
    assert c.users == old(c.users);
  }

  method LogFirst(c: Cache, n: nat)
    requires c.Valid() && Logged(c.bufs, c.users, c.listed, 0) && n <= NBUF && n <= |c.disk|
    modifies c
    ensures c.Valid() && Logged(c.bufs, c.users, c.listed, n) && |c.disk| == |old(c.disk)|
  {
    var b := 0;
    while b < n
      invariant 0 <= b <= n && c.Valid() && Logged(c.bufs, c.users, c.listed, b) && |c.disk| == |old(c.disk)|
    {
      LogNext(c, 1, b);
      b := b + 1;
    }
  }

  /** With 29 blocks listed, as many as mkfs's log has slots for, one reader is one too many: the next
      block that is not cached, as a log slot is at a commit, finds no buffer. */
  method OneTooMany(c: Cache) returns (ok: bool)
    requires c.Valid() && Logged(c.bufs, c.users, c.listed, NBUF - 1) && |c.disk| > NBUF
    modifies c
    ensures c.Valid() && |c.listed| == NBUF - 1 && |Others(c.bufs, c.listed)| == 1 && !ok
  {
    LoggedOthers(c.bufs, c.users, c.listed, NBUF - 1);
    ghost var bs := c.bufs;
    var i := Fetch(c, 2, NBUF - 1);
    OneReader(bs, c.bufs, c.users, c.listed, NBUF - 1, i);
    ok, i := c.Bget(3, DISK, NBUF);
  }

  /** That state is reached from an empty cache. */
  method NoBufferLeft(image: seq<Block>, junk: Block) returns (c: Cache, ok: bool)
    requires |image| > NBUF
    ensures fresh(c) && c.Valid() && |c.listed| == NBUF - 1 && |Others(c.bufs, c.listed)| == 1 && !ok
  {
    c := new Cache(image, junk);
    LogFirst(c, NBUF - 1);
    ok := OneTooMany(c);
  }
}
