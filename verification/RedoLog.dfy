/** The on-disk redo log of log.c, as functions of a disk: what the header says, what installing the
    logged blocks does, and what a complete recovery leaves behind.  One block write is one element
    update of the disk, so a crash can fall between any two of them. */
module RedoLog {

  const LOGSIZE: nat := 30
  const MAXOPBLOCKS: nat := 10
  const WORDS: nat := 512  // BSIZE / sizeof(uint)

  /** A disk block, read as the uint array that log.c takes a header block to be. */
  datatype Block = Block(words: seq<int>)
  type Disk = seq<Block>

  /** sb.logstart, sb.nlog and sb.size: the header is block `start`, the slots are the rest of the log. */
  datatype Layout = Layout(start: nat, size: nat, blocks: nat) {
    predicate Valid() {
      1 <= size && start + size <= blocks
    }

    predicate Home(b: int) {
      0 <= b < blocks && !(start <= b < start + size)
    }

    /** log_write refuses to start a block once lh.n reaches this. */
    function Capacity(): nat
      requires Valid()
    {
      if size - 1 < LOGSIZE then size - 1 else LOGSIZE
    }
  }

  predicate OnDisk(l: Layout, d: Disk) {
    l.Valid() && |d| == l.blocks && |d[l.start].words| == WORDS
  }

  ghost function Elems(bs: seq<int>): set<int> {
    set b | b in bs
  }

  predicate Distinct(bs: seq<int>) {
    forall i, j | 0 <= i < j < |bs| :: bs[i] != bs[j]
  }

  /** A list of logged block numbers: it fits the log, names only home blocks, and names each once. */
  predicate GoodList(l: Layout, bs: seq<int>)
    requires l.Valid()
  {
    && |bs| <= l.Capacity()
    && (forall i | 0 <= i < |bs| :: l.Home(bs[i]))
    && Distinct(bs)
  }

  function EncodeHead(prev: Block, bs: seq<int>): (b: Block)
    requires |bs| < WORDS == |prev.words|
    ensures |b.words| == WORDS
  {
    Block([|bs|] + bs + prev.words[1 + |bs|..])
  }

  function HeadBlocks(b: Block): seq<int>
    requires |b.words| == WORDS && 0 <= b.words[0] < WORDS
  {
    b.words[1..1 + b.words[0]]
  }

  lemma HeadRoundTrip(prev: Block, bs: seq<int>)
    requires |bs| < WORDS == |prev.words|
    ensures EncodeHead(prev, bs).words[0] == |bs|
    ensures HeadBlocks(EncodeHead(prev, bs)) == bs
  {
  }

  predicate GoodHead(l: Layout, d: Disk) {
    && OnDisk(l, d)
    && 0 <= d[l.start].words[0] <= l.Capacity()
    && GoodList(l, HeadBlocks(d[l.start]))
  }

  function Logged(l: Layout, d: Disk): seq<int>
    requires GoodHead(l, d)
  {
    HeadBlocks(d[l.start])
  }

  /** The disk after install_trans has copied the first k slots home. */
  function Install(l: Layout, d: Disk, bs: seq<int>, k: nat): (r: Disk)
    requires OnDisk(l, d) && GoodList(l, bs) && k <= |bs|
    ensures |r| == |d|
  {
    if k == 0 then d else Install(l, d, bs, k - 1)[bs[k - 1] := d[l.start + k]]
  }

  /** What the first k copies leave behind: those blocks from their slots, every other block as it was. */
  ghost predicate Copied(l: Layout, d: Disk, bs: seq<int>, k: nat, r: Disk)
    requires OnDisk(l, d) && GoodList(l, bs) && k <= |bs| && |r| == |d|
  {
    && (forall i | 0 <= i < k :: r[bs[i]] == d[l.start + 1 + i])
    && (forall b | 0 <= b < |d| && b !in bs[..k] :: r[b] == d[b])
    && (forall b | 0 <= b < |d| && !l.Home(b) :: r[b] == d[b])
  }

  /** One copy more. */
  lemma CopyOneMore(l: Layout, d: Disk, p: Disk, bs: seq<int>, k: nat)
    requires OnDisk(l, d) && GoodList(l, bs) && 0 < k <= |bs| && |p| == |d| && Copied(l, d, bs, k - 1, p)
    ensures Copied(l, d, bs, k, p[bs[k - 1] := d[l.start + k]])
  {
    assert bs[..k] == bs[..k - 1] + [bs[k - 1]];
  }

  lemma {:induction false} InstallAt(l: Layout, d: Disk, bs: seq<int>, k: nat)
    requires OnDisk(l, d) && GoodList(l, bs) && k <= |bs|
    ensures Copied(l, d, bs, k, Install(l, d, bs, k))
  {
    if k > 0 {
      var p := Install(l, d, bs, k - 1);
      assert Install(l, d, bs, k) == p[bs[k - 1] := d[l.start + k]];
      InstallAt(l, d, bs, k - 1);
      CopyOneMore(l, d, p, bs, k);
    }
  }

  /** One more copy, reading the slot from the disk as it now is. */
  lemma InstallNext(l: Layout, d: Disk, bs: seq<int>, k: nat)
    requires OnDisk(l, d) && GoodList(l, bs) && k < |bs|
    ensures var r := Install(l, d, bs, k);
            r[bs[k] := r[l.start + 1 + k]] == Install(l, d, bs, k + 1)
  {
    InstallAt(l, d, bs, k);
  }

  /** The disk after an undisturbed recover_from_log. */
  function Recover(l: Layout, d: Disk): (r: Disk)
    requires GoodHead(l, d)
    ensures |r| == |d|
  {
    var bs := Logged(l, d);
    Install(l, d, bs, |bs|)[l.start := EncodeHead(d[l.start], [])]
  }

  ghost predicate Agree(l: Layout, d: Disk, e: Disk) {
    |d| == |e| == l.blocks && forall b | l.Home(b) :: d[b] == e[b]
  }

  /** A crash that leaves disk t behind is recovered to the home blocks of d. */
  ghost predicate RecoversTo(l: Layout, t: Disk, d: Disk) {
    GoodHead(l, t) && Agree(l, Recover(l, t), d)
  }

  /** Recovery, block by block: a logged block comes from its slot, any other stays. */
  lemma RecoverAt(l: Layout, d: Disk)
    requires GoodHead(l, d)
    ensures forall i | 0 <= i < |Logged(l, d)| :: Recover(l, d)[Logged(l, d)[i]] == d[l.start + 1 + i]
    ensures forall b | l.Home(b) && b !in Logged(l, d) :: Recover(l, d)[b] == d[b]
  {
    var bs := Logged(l, d);
    InstallAt(l, d, bs, |bs|);
    assert bs[..|bs|] == bs;
  }

  lemma RecoverEmpty(l: Layout, d: Disk)
    requires OnDisk(l, d) && d[l.start].words[0] == 0
    ensures GoodHead(l, d) && Agree(l, Recover(l, d), d)
  {
    RecoverAt(l, d);
  }

  /** Recovery leaves an empty log, so recovering again changes nothing at all. */
  lemma RecoverIdempotent(l: Layout, d: Disk)
    requires GoodHead(l, d)
    ensures GoodHead(l, Recover(l, d))
    ensures Recover(l, Recover(l, d)) == Recover(l, d)
  {
    HeadRoundTrip(d[l.start], []);
    var r := Recover(l, d);
    InstallAt(l, d, Logged(l, d), |Logged(l, d)|);
    assert Logged(l, r) == [];
    assert EncodeHead(r[l.start], []) == r[l.start];
  }

  /** write_log: filling slots under an empty header is invisible to recovery. */
  lemma SlotWrite(l: Layout, d: Disk, k: nat, v: Block)
    requires OnDisk(l, d) && d[l.start].words[0] == 0
    requires k < l.size - 1
    ensures var e := d[l.start + 1 + k := v];
            GoodHead(l, d) && GoodHead(l, e) && Agree(l, Recover(l, e), Recover(l, d))
  {
    RecoverEmpty(l, d);
    RecoverEmpty(l, d[l.start + 1 + k := v]);
  }

  /** The header that write_head writes reads back. */
  lemma HeadGood(l: Layout, d: Disk, bs: seq<int>)
    requires OnDisk(l, d) && GoodList(l, bs)
    ensures var e := d[l.start := EncodeHead(d[l.start], bs)]; GoodHead(l, e) && Logged(l, e) == bs
  {
    HeadRoundTrip(d[l.start], bs);
  }

  lemma LoggedAt(l: Layout, e: Disk, b: int) returns (i: nat)
    requires GoodHead(l, e) && b in Logged(l, e)
    ensures i < |Logged(l, e)| && Logged(l, e)[i] == b && Recover(l, e)[b] == e[l.start + 1 + i]
  {
    i :| i < |Logged(l, e)| && Logged(l, e)[i] == b;
    RecoverAt(l, e);
  }

  /** write_head: one block write moves recovery from the old home blocks to the pinned ones. */
  lemma HeadWrite(l: Layout, d: Disk, bs: seq<int>, dirty: map<int, Block>)
    requires OnDisk(l, d) && GoodList(l, bs)
    requires dirty.Keys == Elems(bs)
    requires forall i | 0 <= i < |bs| :: d[l.start + 1 + i] == dirty[bs[i]]
    ensures var e := d[l.start := EncodeHead(d[l.start], bs)];
            && GoodHead(l, e) && Logged(l, e) == bs
            && forall b | l.Home(b) :: Recover(l, e)[b] == if b in dirty then dirty[b] else d[b]
  {
    var e := d[l.start := EncodeHead(d[l.start], bs)];
    HeadGood(l, d, bs);
    forall b | l.Home(b)
      ensures Recover(l, e)[b] == if b in dirty then dirty[b] else d[b]
    {
      if b in dirty {
        var i := LoggedAt(l, e, b);
        assert e[l.start + 1 + i] == d[l.start + 1 + i];
      } else {
        RecoverAt(l, e);
      }
    }
  }

  /** install_trans: however many of the copies were made, recovery still ends at the same home blocks. */
  lemma PartInstalled(l: Layout, d: Disk, k: nat)
    requires GoodHead(l, d) && k <= |Logged(l, d)|
    ensures var e := Install(l, d, Logged(l, d), k);
            GoodHead(l, e) && Logged(l, e) == Logged(l, d) && RecoversTo(l, e, Recover(l, d))
  {
    var bs := Logged(l, d);
    var e := Install(l, d, bs, k);
    InstallAt(l, d, bs, k);
    RecoverAt(l, d);
    RecoverAt(l, e);
    forall b | l.Home(b)
      ensures Recover(l, e)[b] == Recover(l, d)[b]
    {
      if b in bs {
        var i :| 0 <= i < |bs| && bs[i] == b;
        assert e[l.start + 1 + i] == d[l.start + 1 + i];
      }
    }
  }

  lemma InstalledAll(l: Layout, d: Disk)
    requires GoodHead(l, d)
    ensures var bs := Logged(l, d); var e := Install(l, d, bs, |bs|);
            && GoodHead(l, e) && Logged(l, e) == bs && e[l.start] == d[l.start]
            && forall i | 0 <= i < |bs| :: e[bs[i]] == e[l.start + 1 + i]
  {
    var bs := Logged(l, d);
    PartInstalled(l, d, |bs|);
    InstallAt(l, d, bs, |bs|);
  }

  /** Erasing the header is invisible once every logged block is home. */
  lemma ClearWrite(l: Layout, d: Disk)
    requires GoodHead(l, d)
    requires forall i | 0 <= i < |Logged(l, d)| :: d[Logged(l, d)[i]] == d[l.start + 1 + i]
    ensures var e := d[l.start := EncodeHead(d[l.start], [])];
            && GoodHead(l, e) && e[l.start].words[0] == 0
            && Agree(l, Recover(l, e), Recover(l, d)) && Agree(l, Recover(l, e), e)
  {
    var bs := Logged(l, d);
    var e := d[l.start := EncodeHead(d[l.start], [])];
    RecoverAt(l, d);
    RecoverEmpty(l, e);
    forall b | l.Home(b)
      ensures Recover(l, e)[b] == Recover(l, d)[b]
    {
      if b in bs {
        var i :| 0 <= i < |bs| && bs[i] == b;
      }
    }
  }

  /** From the header write to its erasure: e is the disk at the header write, f the one with everything
      installed, g the one commit() ends with.  Recovery would make g of any of them, and the home
      blocks of g are the pinned ones over the old ones. */
  lemma CommitOutcome(l: Layout, d: Disk, e: Disk, f: Disk, g: Disk, bs: seq<int>, dirty: map<int, Block>)
    requires OnDisk(l, d) && GoodList(l, bs) && dirty.Keys == Elems(bs)
    requires forall i | 0 <= i < |bs| :: d[l.start + 1 + i] == dirty[bs[i]]
    requires e == d[l.start := EncodeHead(d[l.start], bs)] && OnDisk(l, e) && f == Install(l, e, bs, |bs|)
    requires OnDisk(l, f) && g == f[l.start := EncodeHead(f[l.start], [])]
    ensures OnDisk(l, g) && g[l.start].words[0] == 0 && RecoversTo(l, e, g) && RecoversTo(l, g, g)
    ensures forall b | l.Home(b) :: g[b] == if b in dirty then dirty[b] else d[b]
  {
    HeadWrite(l, d, bs, dirty);
    InstalledAll(l, e);
    PartInstalled(l, e, |bs|);
    ClearWrite(l, f);
    SameOutcome(l, e, f, g);
  }

  lemma SameOutcome(l: Layout, e: Disk, f: Disk, g: Disk)
    requires GoodHead(l, e) && GoodHead(l, f) && GoodHead(l, g) && RecoversTo(l, f, Recover(l, e))
    requires Agree(l, Recover(l, g), Recover(l, f)) && Agree(l, Recover(l, g), g)
    ensures RecoversTo(l, e, g) && RecoversTo(l, g, g)
    ensures Agree(l, g, Recover(l, e))
  {
    forall b | l.Home(b)
      ensures g[b] == Recover(l, e)[b]
    {
      assert Recover(l, g)[b] == Recover(l, f)[b] && Recover(l, f)[b] == Recover(l, e)[b];
    }
  }
}
