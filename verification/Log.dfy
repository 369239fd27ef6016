/** log.c as it runs on one CPU: the in-memory header, the pinned (B_DIRTY) buffers and the disk, all
    updated in place.  The ghost field `trace` records the disk after every single block write, so a
    contract about what was added to `trace` speaks of every point at which a crash can fall. */
module Log {
  import opened RedoLog

  /** Wherever the machine stopped in ts, recovery ends at the home blocks of d. */
  ghost predicate AllRecoverTo(l: Layout, ts: seq<Disk>, d: Disk) {
    forall k | 0 <= k < |ts| :: RecoversTo(l, ts[k], d)
  }

  lemma AllRecoverToBoth(l: Layout, ss: seq<Disk>, ts: seq<Disk>, d: Disk)
    requires AllRecoverTo(l, ss, d) && AllRecoverTo(l, ts, d)
    ensures AllRecoverTo(l, ss + ts, d)
  {
  }

  lemma AllRecoverToSame(l: Layout, ts: seq<Disk>, d: Disk, e: Disk)
    requires AllRecoverTo(l, ts, d) && Agree(l, d, e)
    ensures AllRecoverTo(l, ts, e)
  {
    forall k | 0 <= k < |ts|
      ensures RecoversTo(l, ts[k], e)
    {
      assert RecoversTo(l, ts[k], d);
    }
  }

  lemma AllRecoverToMore(l: Layout, ts: seq<Disk>, t: Disk, d: Disk)
    requires AllRecoverTo(l, ts, d) && RecoversTo(l, t, d)
    ensures AllRecoverTo(l, ts + [t], d)
  {
  }

  /** The first n slots hold the pinned copies of the first n logged blocks. */
  ghost predicate Filled(l: Layout, d: Disk, bs: seq<int>, dirty: map<int, Block>, n: int) {
    n <= |bs| && l.start + n < |d| && forall i | 0 <= i < n :: bs[i] in dirty && d[l.start + 1 + i] == dirty[bs[i]]
  }

  lemma FilledMore(l: Layout, d: Disk, bs: seq<int>, dirty: map<int, Block>, n: nat)
    requires Filled(l, d, bs, dirty, n) && n < |bs| && l.start + n + 1 < |d| && bs[n] in dirty
    ensures Filled(l, d[l.start + n + 1 := dirty[bs[n]]], bs, dirty, n + 1)
  {
  }

  lemma TraceMore(t: seq<Disk>, u: seq<Disk>, d: Disk)
    ensures t + u + [d] == t + (u + [d])
  {
  }

  /** One slot of write_log. */
  lemma SlotStep(l: Layout, d0: Disk, d: Disk, k: nat, v: Block, steps: seq<Disk>)
    requires OnDisk(l, d) && d[l.start].words[0] == 0 && k < l.size - 1 && Agree(l, d, d0) && AllRecoverTo(l, steps, d0)
    ensures var e := d[l.start + 1 + k := v];
            OnDisk(l, e) && e[l.start] == d[l.start] && Agree(l, e, d0) && AllRecoverTo(l, steps + [e], d0)
  {
    var e := d[l.start + 1 + k := v];
    RecoverEmpty(l, e);
    AllRecoverToMore(l, steps, e, d0);
  }

  /** write_log after its first k slots. */
  ghost predicate Writing(l: Layout, d0: Disk, d: Disk, bs: seq<int>, dirty: map<int, Block>, steps: seq<Disk>, k: int) {
    && OnDisk(l, d) && d[l.start].words[0] == 0 && Agree(l, d, d0) && Filled(l, d, bs, dirty, k)
    && AllRecoverTo(l, steps, d0)
  }

  lemma WritingNext(l: Layout, d0: Disk, d: Disk, bs: seq<int>, dirty: map<int, Block>, steps: seq<Disk>, k: nat)
    requires Writing(l, d0, d, bs, dirty, steps, k) && GoodList(l, bs) && k < |bs| && dirty.Keys == Elems(bs)
    ensures l.start + k + 1 < |d| && 0 <= bs[k] < |d| && bs[k] in dirty && dirty - {l.start + k + 1} == dirty
    ensures var e := d[l.start + k + 1 := dirty[bs[k]]]; Writing(l, d0, e, bs, dirty, steps + [e], k + 1)
  {
    assert bs[k] in Elems(bs) && l.Home(bs[k]);
    SlotStep(l, d0, d, k, dirty[bs[k]], steps);
    FilledMore(l, d, bs, dirty, k);
    NotPinned(l, bs, dirty, l.start + k + 1);
  }

  /** One block of install_trans. */
  lemma InstallStep(l: Layout, d: Disk, bs: seq<int>, k: nat, steps: seq<Disk>)
    requires GoodHead(l, d) && bs == Logged(l, d) && k < |bs| && AllRecoverTo(l, steps, Recover(l, d))
    ensures var r := Install(l, d, bs, k);
            && l.start + 1 + k < |r| && 0 <= bs[k] < |r| && r[bs[k] := r[l.start + 1 + k]] == Install(l, d, bs, k + 1)
            && AllRecoverTo(l, steps + [Install(l, d, bs, k + 1)], Recover(l, d))
  {
    InstallNext(l, d, bs, k);
    PartInstalled(l, d, k + 1);
    AllRecoverToMore(l, steps, Install(l, d, bs, k + 1), Recover(l, d));
  }

  /** recover_from_log after its install_trans. */
  lemma RecoverEnds(l: Layout, d: Disk, steps: seq<Disk>)
    requires GoodHead(l, d) && AllRecoverTo(l, steps, Recover(l, d))
    ensures var bs := Logged(l, d); var f := Install(l, d, bs, |bs|);
            && OnDisk(l, f) && f[l.start := EncodeHead(f[l.start], [])] == Recover(l, d)
            && OnDisk(l, Recover(l, d)) && Recover(l, d)[l.start].words[0] == 0
            && AllRecoverTo(l, steps + [Recover(l, d)], Recover(l, d))
  {
    InstalledAll(l, d);
    RecoverIdempotent(l, d);
    HeadRoundTrip(d[l.start], []);
    AllRecoverToMore(l, steps, Recover(l, d), Recover(l, d));
  }

  /** Log blocks are not pinned. */
  lemma NotPinned(l: Layout, bs: seq<int>, dirty: map<int, Block>, b: int)
    requires l.Valid() && GoodList(l, bs) && dirty.Keys == Elems(bs) && !l.Home(b)
    ensures b !in dirty && dirty - {b} == dirty
  {
    assert forall x | x in bs :: l.Home(x);
  }

  lemma PinnedAlso(bs: seq<int>, b: int, i: nat)
    requires i <= |bs| && b !in bs[..i] && (i < |bs| ==> bs[i] == b)
    ensures i < |bs| ==> bs[i := b] == bs && b in bs && Elems(bs) == Elems(bs) + {b}
    ensures i == |bs| ==> b !in bs && Elems(bs + [b]) == Elems(bs) + {b}
  {
    if i == |bs| {
      assert bs[..i] == bs;
    }
  }

  lemma HeadReady(l: Layout, d: Disk, bs: seq<int>, dirty: map<int, Block>)
    requires OnDisk(l, d) && GoodList(l, bs)
    ensures var e := d[l.start := EncodeHead(d[l.start], bs)]; GoodHead(l, e) && Logged(l, e) == bs
    ensures dirty.Keys == Elems(bs) ==> forall b | b in dirty :: l.Home(b)
  {
    HeadGood(l, d, bs);
    assert forall b | b in Elems(bs) :: l.Home(b);
  }

  /** From disk d with every slot filled: e is the disk at the header write, f the one with everything
      installed, after the writes between. */
  ghost predicate Installed(l: Layout, d: Disk, e: Disk, f: Disk, bs: seq<int>, dirty: map<int, Block>, after: seq<Disk>) {
    && OnDisk(l, d) && GoodList(l, bs) && dirty.Keys == Elems(bs) && Filled(l, d, bs, dirty, |bs|)
    && e == d[l.start := EncodeHead(d[l.start], bs)] && GoodHead(l, e) && f == Install(l, e, bs, |bs|) && OnDisk(l, f)
    && AllRecoverTo(l, after, Recover(l, e))
  }

  /** The home blocks of g are the pinned ones over those of d. */
  ghost predicate Merged(l: Layout, d: Disk, dirty: map<int, Block>, g: Disk) {
    |g| == |d| == l.blocks && forall b | l.Home(b) :: g[b] == if b in dirty then dirty[b] else d[b]
  }

  /** g is the disk that commit ends with. */
  lemma CommitTail(l: Layout, d: Disk, e: Disk, f: Disk, g: Disk, bs: seq<int>, dirty: map<int, Block>, after: seq<Disk>)
    requires Installed(l, d, e, f, bs, dirty, after) && g == f[l.start := EncodeHead(f[l.start], [])]
    ensures OnDisk(l, g) && g[l.start].words[0] == 0 && AllRecoverTo(l, [e] + after + [g], g) && Merged(l, d, dirty, g)
  {
    CommitOutcome(l, d, e, f, g, bs, dirty);
    CommitSteps(l, e, after, g);
  }

  lemma UnpinAll(m: map<int, Block>, bs: seq<int>)
    requires m.Keys == Elems(bs)
    ensures m - Elems(bs) == map[]
  {
    assert (m - Elems(bs)).Keys == {};
  }

  /** Every disk from the header write to its erasure recovers to what the commit ends with. */
  lemma CommitSteps(l: Layout, c: Disk, after: seq<Disk>, d: Disk)
    requires GoodHead(l, c) && AllRecoverTo(l, after, Recover(l, c)) && RecoversTo(l, c, d) && RecoversTo(l, d, d)
    ensures AllRecoverTo(l, [c] + after + [d], d)
  {
    AllRecoverToSame(l, after, Recover(l, c), d);
    AllRecoverToBoth(l, [c], after, d);
    AllRecoverToBoth(l, [c] + after, [d], d);
  }

  lemma Regroup(t: seq<Disk>, c: Disk, u: seq<Disk>, d: Disk)
    ensures t + [c] + u + [d] == t + ([c] + u + [d])
  {
  }

  lemma UnpinNext(m: map<int, Block>, bs: seq<int>, k: nat)
    requires k < |bs|
    ensures m - Elems(bs[..k]) - {bs[k]} == m - Elems(bs[..k + 1])
  {
    assert bs[..k + 1] == bs[..k] + [bs[k]];
  }

  class Log {
    const layout: Layout
    var lh: seq<int>                // log.lh.block[0 .. log.lh.n]
    var outstanding: nat
    var disk: Disk
    var dirty: map<int, Block>      // buffers pinned in the cache until installed
    ghost var trace: seq<Disk>

    ghost predicate Valid()
      reads this
    {
      OnDisk(layout, disk) && GoodList(layout, lh)
    }

    /** Between commits: the log on disk is empty and exactly the logged blocks are pinned. */
    ghost predicate Open()
      reads this
    {
      && Valid()
      && disk[layout.start].words[0] == 0
      && dirty.Keys == Elems(lh)
    }

    /** What bread(b) returns: the cached copy if it is pinned, the disk copy otherwise. */
    function View(b: int): Block
      reads this
      requires 0 <= b < |disk|
    {
      if b in dirty then dirty[b] else disk[b]
    }

    /** The machine comes up with a disk and nothing in memory. */
    constructor (l: Layout, d: Disk)
      requires OnDisk(l, d)
      ensures layout == l && disk == d && lh == [] && outstanding == 0 && dirty == map[] && trace == []
    {
      layout, disk, lh, outstanding, dirty, trace := l, d, [], 0, map[], [];
    }

    /** bwrite: one block reaches the disk and its buffer is no longer pinned. */
    method Bwrite(b: int, v: Block)
      requires 0 <= b < |disk|
      modifies this`disk, this`dirty, this`trace
      ensures disk == old(disk)[b := v]
      ensures dirty == old(dirty) - {b}
      ensures trace == old(trace) + [disk]
    {
      disk := disk[b := v];
      dirty := dirty - {b};
      trace := trace + [disk];
    }

    /** write_log: no disk state on the way recovers to anything but the old home blocks, and at the end
        every slot holds its pinned block. */
    method WriteLog() returns (ghost steps: seq<Disk>)
      requires Open()
      modifies this`disk, this`dirty, this`trace
      ensures Open() && dirty == old(dirty)
      ensures Agree(layout, disk, old(disk))
      ensures Filled(layout, disk, lh, dirty, |lh|)
      ensures trace == old(trace) + steps && AllRecoverTo(layout, steps, old(disk))
    {
      steps := [];
      var tail := 0;
      while tail < |lh|
        invariant 0 <= tail <= |lh| && dirty == old(dirty) && trace == old(trace) + steps
        invariant Writing(layout, old(disk), disk, lh, dirty, steps, tail)
      {
        WritingNext(layout, old(disk), disk, lh, dirty, steps, tail);
        TraceMore(old(trace), steps, disk[layout.start + tail + 1 := View(lh[tail])]);
        Bwrite(layout.start + tail + 1, View(lh[tail]));
        steps := steps + [disk];
        tail := tail + 1;
      }
    }

    /** write_head: the header block on disk says what `lh` says; its unused entries stay as they are. */
    method WriteHead()
      requires Valid()
      requires layout.start !in dirty
      modifies this`disk, this`dirty, this`trace
      ensures Valid() && dirty == old(dirty)
      ensures disk == old(disk)[layout.start := EncodeHead(old(disk)[layout.start], lh)]
      ensures var hb := disk[layout.start].words;
        && hb[0] == |lh| && (forall i | 0 <= i < |lh| :: hb[1 + i] == lh[i])
        && forall i | 1 + |lh| <= i < WORDS :: hb[i] == old(disk)[layout.start].words[i]
      ensures trace == old(trace) + [disk]
    {
      var hb := disk[layout.start].words;
      hb := hb[0 := |lh|];
      var i := 0;
      while i < |lh|
        invariant 0 <= i <= |lh| && |hb| == WORDS
        invariant hb == [|lh|] + lh[..i] + disk[layout.start].words[1 + i..]
      {
        hb := hb[1 + i := lh[i]];
        i := i + 1;
      }
      assert lh[..|lh|] == lh;
      Bwrite(layout.start, Block(hb));
    }

    /** install_trans: recovery would end at the same disk after each of its copies. */
    method InstallTrans() returns (ghost steps: seq<Disk>)
      requires Valid() && GoodHead(layout, disk) && Logged(layout, disk) == lh
      requires forall b | b in dirty :: layout.Home(b)
      modifies this`disk, this`dirty, this`trace
      ensures disk == Install(layout, old(disk), lh, |lh|)
      ensures dirty == old(dirty) - Elems(lh)
      ensures trace == old(trace) + steps && AllRecoverTo(layout, steps, Recover(layout, old(disk)))
    {
      ghost var d0, m0 := disk, dirty;
      steps := [];
      var tail := 0;
      while tail < |lh|
        invariant 0 <= tail <= |lh|
        invariant disk == Install(layout, d0, lh, tail)
        invariant dirty == m0 - Elems(lh[..tail])
        invariant trace == old(trace) + steps && AllRecoverTo(layout, steps, Recover(layout, d0))
      {
        InstallStep(layout, d0, lh, tail, steps);
        UnpinNext(m0, lh, tail);
        assert !layout.Home(layout.start + tail + 1);
        TraceMore(old(trace), steps, disk[lh[tail] := View(layout.start + tail + 1)]);
        Bwrite(lh[tail], View(layout.start + tail + 1));
        steps := steps + [disk];
        tail := tail + 1;
      }
      assert lh[..|lh|] == lh;
    }

    /** read_head: `lh` becomes what the header block lists. */
    method ReadHead()
      requires OnDisk(layout, disk) && GoodHead(layout, disk)
      requires layout.start !in dirty
      modifies this`lh
      ensures lh == Logged(layout, disk)
    {
      var hb := View(layout.start).words;
      lh := [];
      var i := 0;
      while i < hb[0]
        invariant 0 <= i <= hb[0] < WORDS
        invariant lh == hb[1..1 + i]
      {
        lh := lh + [hb[1 + i]];
        i := i + 1;
      }
    }

    /** Recovery at boot.  Wherever it is cut short by another crash, the disk it leaves still recovers
        to the same home blocks; left alone, it reaches them and empties the log. */
    method RecoverFromLog() returns (ghost steps: seq<Disk>)
      requires GoodHead(layout, disk) && dirty == map[]
      modifies this`lh, this`disk, this`dirty, this`trace
      ensures Open() && lh == [] && dirty == map[]
      ensures disk == Recover(layout, old(disk))
      ensures trace == old(trace) + steps && AllRecoverTo(layout, steps, disk)
    {
      ghost var d0 := disk;
      ReadHead();
      steps := InstallTrans();
      RecoverEnds(layout, d0, steps);
      Erase();
      steps := steps + [disk];
    }

    /** Empty the log, in memory and on disk. */
    method Erase()
      requires OnDisk(layout, disk) && dirty == map[]
      modifies this`lh, this`disk, this`dirty, this`trace
      ensures lh == [] && dirty == map[] && trace == old(trace) + [disk]
      ensures disk == old(disk)[layout.start := EncodeHead(old(disk)[layout.start], [])]
    {
      lh := [];
      WriteHead();
    }

    /** commit() from its header write on, when every slot holds its pinned block. */
    method CommitWritten() returns (ghost after: seq<Disk>)
      requires Open()
      requires Filled(layout, disk, lh, dirty, |lh|)
      modifies this`lh, this`disk, this`dirty, this`trace
      ensures Open() && lh == [] && dirty == map[]
      ensures Merged(layout, old(disk), old(dirty), disk)
      ensures trace == old(trace) + after && after != []
      ensures AllRecoverTo(layout, after, disk)
    {
      ghost var committed;
      committed, after := CommitInstall();
      ghost var installed := disk;
      Erase();
      CommitTail(layout, old(disk), committed, installed, disk, old(lh), old(dirty), after);
      Regroup(old(trace), committed, after, disk);
      after := [committed] + after + [disk];
    }

    /** The header write and the install_trans of commit(). */
    method CommitInstall() returns (ghost committed: Disk, ghost after: seq<Disk>)
      requires Open()
      requires Filled(layout, disk, lh, dirty, |lh|)
      modifies this`disk, this`dirty, this`trace
      ensures Installed(layout, old(disk), committed, disk, lh, old(dirty), after)
      ensures dirty == map[] && trace == old(trace) + [committed] + after
    {
      NotPinned(layout, lh, dirty, layout.start);
      HeadReady(layout, disk, lh, dirty);
      WriteHead();
      committed := disk;
      after := InstallTrans();
      InstalledAll(layout, committed);
      UnpinAll(old(dirty), lh);
    }

    /** commit(): the writes split in two.  A crash during `before` recovers to the home blocks as they
        were; a crash during `after` recovers to the home blocks as the running kernel saw them.  A
        transaction that logged nothing writes nothing. */
    method Commit() returns (ghost before: seq<Disk>, ghost after: seq<Disk>)
      requires Open()
      modifies this`lh, this`disk, this`dirty, this`trace
      ensures Open() && lh == [] && dirty == map[]
      ensures forall b | layout.Home(b) :: disk[b] == old(View(b))
      ensures trace == old(trace) + before + after
      ensures AllRecoverTo(layout, before, old(disk)) && AllRecoverTo(layout, after, disk)
      ensures after == [] <==> old(lh) == []
    {
      before, after := [], [];
      if lh != [] {
        before := WriteLog();
        after := CommitWritten();
      }
    }

    /** Record that the caller changed block b to v, absorbing a repeated write.  `ok` is false where
        the code panics: the transaction is already at capacity (whether or not the write would be
        absorbed), or no operation is in progress. */
    method LogWrite(b: int, v: Block) returns (ok: bool)
      requires Open() && layout.Home(b)
      modifies this`lh, this`dirty
      ensures Open()
      ensures ok <==> |old(lh)| < layout.Capacity() && outstanding >= 1
      ensures ok ==> View(b) == v && forall c | layout.Home(c) && c != b :: View(c) == old(View(c))
      ensures ok ==> lh == old(lh) + (if b in old(lh) then [] else [b])
      ensures !ok ==> dirty == old(dirty) && lh == old(lh)
    {
      if |lh| >= LOGSIZE || |lh| >= layout.size - 1 || outstanding < 1 {
        return false;
      }
      var i := 0;
      while i < |lh|
        invariant 0 <= i <= |lh|
        invariant b !in lh[..i]
      {
        if lh[i] == b {
          break;
        }
        i := i + 1;
      }
      PinnedAlso(lh, b, i);
      lh := if i == |lh| then lh + [b] else lh[i := b];
      dirty := dirty[b := v];
      assert dirty.Keys == old(dirty).Keys + {b};
      return true;
    }

    /** One pass of begin_op's loop: the operation enters only if the log has room for every operation
        in progress to write MAXOPBLOCKS more blocks; otherwise the caller sleeps and tries again. */
    method TryBeginOp() returns (entered: bool)
      requires Open()
      modifies this`outstanding
      ensures entered <==> |lh| + (old(outstanding) + 1) * MAXOPBLOCKS <= LOGSIZE
      ensures outstanding == old(outstanding) + if entered then 1 else 0
    {
      entered := |lh| + (outstanding + 1) * MAXOPBLOCKS <= LOGSIZE;
      if entered {
        outstanding := outstanding + 1;
      }
    }

    /** end_op: only the last operation out commits, and it makes everything visible durable; a crash
        on the way recovers to all of it or to none of it. */
    method EndOp() returns (ghost before: seq<Disk>, ghost after: seq<Disk>)
      requires Open() && outstanding >= 1
      modifies this`outstanding, this`lh, this`disk, this`dirty, this`trace
      ensures Open() && outstanding == old(outstanding) - 1
      ensures outstanding > 0 ==> lh == old(lh) && disk == old(disk) && dirty == old(dirty) && before + after == []
      ensures outstanding == 0 ==> lh == [] && dirty == map[]
      ensures forall b | layout.Home(b) :: View(b) == old(View(b))
      ensures trace == old(trace) + before + after
      ensures AllRecoverTo(layout, before, old(disk)) && AllRecoverTo(layout, after, disk)
    {
      before, after := [], [];
      outstanding := outstanding - 1;
      if outstanding == 0 {
        before, after := Commit();
      }
    }
  }
}
