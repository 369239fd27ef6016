/** mkfs.c: how the first image is built, and that it satisfies what the kernel's file system keeps. */
module Mkfs {
  import opened FsModel
  import opened FileBytes
  import opened BlockCount

  const FSSIZE: int := 1000
  const NINODES: int := 200
  const NLOG: int := 30
  /** boot and super block, log, inode blocks, bitmap */
  const NMETA: int := 2 + NLOG + (NINODES / 32 + 1) + (FSSIZE / (BSIZE * 8) + 1)

  function FirstBits(n: int): (r: seq<bool>)
    ensures |r| == FSSIZE && forall b | 0 <= b < FSSIZE :: r[b] == (b < n)
  {
    seq(FSSIZE, b => b < n)
  }

  lemma NextBit(n: int)
    requires 0 <= n < FSSIZE
    ensures FirstBits(n)[n := true] == FirstBits(n + 1)
  {
  }

  class Image {
    var disk: seq<Block>
    var ino: seq<Inode>
    var freeblock: int
    var freeinode: int

    /** The image as a file system in which the blocks below freeblock are the ones in use. */
    ghost function Img(): Fs
      reads this
    {
      Fs(NMETA, FirstBits(freeblock), disk, ino)
    }

    ghost predicate Valid()
      reads this
    {
      Fresh() && FilesOk(Img())
    }

    ghost predicate Fresh()
      reads this
    {
      && NMETA <= freeblock <= FSSIZE == |disk| && |ino| == NINODES
      && (forall b | freeblock <= b < FSSIZE :: disk[b] == Zero())
      && 1 <= freeinode
      && forall i | freeinode <= i < NINODES :: ino[i] == Inode(0, seq(NDIRECT + 1, k => 0))
    }

    /** Every sector zeroed, every inode empty. */
    constructor ()
      ensures Valid() && freeinode == 1 && freeblock == NMETA
      ensures forall i | 0 <= i < NINODES :: Contents(Img(), i) == []
    {
      disk := seq(FSSIZE, b => Zero());
      ino := seq(NINODES, i => Inode(0, seq(NDIRECT + 1, k => 0)));
      freeblock, freeinode := NMETA, 1;
      new;
      assert forall p | IsPos(Img(), p) :: Held(Img(), p) == 0;
      forall i, bn | 0 <= i < NINODES && 0 <= bn < MAXFILE
        ensures BlockAt(Img(), i, bn) == 0
      {
        assert IsPos(Img(), PosOf(i, bn));
      }
    }

    /** The next inode, empty; mkfs has no more than NINODES. */
    method Ialloc() returns (ok: bool, inum: int)
      requires Valid()
      modifies this`freeinode
      ensures Valid() && inum == old(freeinode) && (ok <==> inum < NINODES) && freeinode == inum + One(ok)
      ensures ok ==> Contents(Img(), inum) == []
    {
      inum := freeinode;
      ok := inum < NINODES;
      if ok {
        freeinode := freeinode + 1;
      }
    }

    /** Take block freeblock for block fbn of file i unless it has one, and a table if it needs one.
        Fails exactly when the image has no room for those. */
    method BlockFor(i: int, fbn: int) returns (ok: bool, x: int)
      requires Fresh() && Owned(Img()) && 0 <= i < freeinode && i < NINODES && 0 <= fbn < MAXFILE
      modifies this`freeblock, this`ino, this`disk
      ensures ok <==> old(freeblock + Lacks(Img(), i, fbn)) <= FSSIZE
      ensures ok ==> Fresh() && Bmapped(old(Img()), Img(), i, fbn, x) && freeblock == old(freeblock + Lacks(Img(), i, fbn))
    {
      assert IsPos(Img(), PosOf(i, fbn));
      if fbn < NDIRECT {
        ok, x := SlotFor(i, fbn);
      } else {
        ghost var s := Img();
        x := 0;
        ok := TableFor(i);
        if ok {
          ghost var t := Img();
          ok, x := EntryFor(i, fbn);
          if ok && s.ino[i].addrs[NDIRECT] == 0 {
            BmappedBoth(s, t, Img(), i, fbn, x);
          }
        }
      }
    }

    method SlotFor(i: int, k: int) returns (ok: bool, x: int)
      requires Fresh() && Owned(Img()) && 0 <= i < freeinode && i < NINODES && 0 <= k < NDIRECT
      modifies this`freeblock, this`ino
      ensures ok <==> old(freeblock) + One(old(BlockAt(Img(), i, k)) == 0) <= FSSIZE
      ensures ok ==> Fresh() && Bmapped(old(Img()), Img(), i, k, x) && freeblock == old(freeblock) + One(old(BlockAt(Img(), i, k)) == 0)
    {
      ghost var s := Img();
      assert IsPos(s, PosOf(i, k));
      ok, x := true, ino[i].addrs[k];
      if x == 0 {
        if freeblock == FSSIZE {
          return false, 0;
        }
        x := freeblock;
        NextBit(freeblock);
        freeblock := freeblock + 1;
        ino := ino[i := ino[i].(addrs := ino[i].addrs[k := x])];
        assert disk[x := Zero()] == disk;
        assert Img() == FillSlot(s, i, k, x);
        BmappedDirect(s, i, k, x);
      }
    }

    method TableFor(i: int) returns (ok: bool)
      requires Fresh() && Owned(Img()) && 0 <= i < freeinode && i < NINODES
      modifies this`freeblock, this`ino
      ensures old(ino)[i].addrs[NDIRECT] != 0 ==> ok && Img() == old(Img())
      ensures ok <==> old(freeblock) + One(old(ino)[i].addrs[NDIRECT] == 0) <= FSSIZE
      ensures ok ==> freeblock == old(freeblock) + One(old(ino)[i].addrs[NDIRECT] == 0)
      ensures ok ==> Fresh() && Owned(Img()) && Keeps(old(Img()), Img()) && ino[i].addrs[NDIRECT] != 0
      ensures ok ==> forall f, c | 0 <= f < |ino| && 0 <= c < MAXFILE :: BlockAt(Img(), f, c) == BlockAt(old(Img()), f, c)
      ensures ok ==> forall f | 0 <= f < |ino| && f != i :: ino[f] == old(ino)[f]
      ensures ok ==> ino[i].size == old(ino)[i].size
    {
      ghost var s := Img();
      ok := true;
      if ino[i].addrs[NDIRECT] == 0 {
        if freeblock == FSSIZE {
          return false;
        }
        var x := freeblock;
        NextBit(freeblock);
        freeblock := freeblock + 1;
        ino := ino[i := ino[i].(addrs := ino[i].addrs[NDIRECT := x])];
        assert disk[x := Zero()] == disk;
        assert Img() == FillSlot(s, i, NDIRECT, x);
        TableAdded(s, i, x);
      }
    }

    method EntryFor(i: int, fbn: int) returns (ok: bool, x: int)
      requires Fresh() && Owned(Img()) && 0 <= i < freeinode && i < NINODES && NDIRECT <= fbn < MAXFILE
      requires ino[i].addrs[NDIRECT] != 0
      modifies this`freeblock, this`disk
      ensures ok <==> old(freeblock) + One(old(BlockAt(Img(), i, fbn)) == 0) <= FSSIZE
      ensures ok ==> Fresh() && Bmapped(old(Img()), Img(), i, fbn, x) && freeblock == old(freeblock) + One(old(BlockAt(Img(), i, fbn)) == 0)
    {
      ghost var s := Img();
      assert IsPos(s, PosOf(i, fbn)) && IsPos(s, Table(i));
      var tb := ino[i].addrs[NDIRECT];
      assert Held(s, Table(i)) == tb && tb < freeblock;
      ok, x := true, WordAt(disk[tb], fbn - NDIRECT);
      if x == 0 {
        if freeblock == FSSIZE {
          return false, 0;
        }
        x := freeblock;
        NextBit(freeblock);
        FillEntryLinks(s, i, fbn - NDIRECT, x);
        freeblock := freeblock + 1;
        assert disk[x := Zero()] == disk;
        disk := disk[tb := SetWord(disk[tb], fbn - NDIRECT, x)];
        assert Img() == FillEntry(s, i, fbn - NDIRECT, x);
        BmappedEntry(s, i, fbn, x);
      }
    }

    /** iappend: the file grows by exactly these bytes and every other file stays as it is.  It fails
        exactly where mkfs's assertion on the file size does, or when the image has no room for the
        blocks that the new bytes need. */
    method Iappend(i: int, src: seq<int>) returns (ok: bool)
      requires Valid() && 0 <= i < freeinode && i < NINODES
      modifies this`freeblock, this`ino, this`disk
      ensures var e := old(ino)[i].size;
        ok <==> e + |src| <= MAXFILE * BSIZE && old(freeblock) + Cost(e + |src|) - Cost(e) <= FSSIZE
      ensures ok ==> freeblock == old(freeblock) + Cost(old(ino)[i].size + |src|) - Cost(old(ino)[i].size)
      ensures ok ==> Valid() && Contents(Img(), i) == old(Contents(Img(), i)) + src
      ensures ok ==> forall f | 0 <= f < NINODES && f != i :: Contents(Img(), f) == Contents(old(Img()), f)
    {
      ghost var s0 := Img();
      assert MappedTo(s0, i, s0.ino[i].size);
      var off := ino[i].size;
      if off + |src| > MAXFILE * BSIZE {
        return false;
      }
      ok := AppendBlocks(i, off, src);
      if ok {
        WrittenAll(s0, Img(), i, off, src);
        ino := ino[i := ino[i].(size := off + |src|)];
        assert Contents(s0, i)[..off] == Contents(s0, i);
      }
    }

    method AppendBlocks(i: int, off: int, src: seq<int>) returns (ok: bool)
      requires Valid() && 0 <= i < freeinode && i < NINODES && off == ino[i].size && off + |src| <= MAXFILE * BSIZE
      modifies this`freeblock, this`ino, this`disk
      ensures ok <==> old(freeblock) + Cost(off + |src|) - Cost(off) <= FSSIZE
      ensures ok ==> freeblock == old(freeblock) + Cost(off + |src|) - Cost(off)
      ensures ok ==> Fresh() && Img() in During(old(Img()), i, off, src, |src|)
    {
      ghost var s0 := Img();
      WrittenNone(s0, i, off, src);
      var tot := 0;
      while tot < |src|
        invariant Fresh() && Img() in During(s0, i, off, src, tot)
        invariant freeblock == old(freeblock) + Cost(off + tot) - Cost(off)
        decreases |src| - tot
      {
        var m;
        ok, m := AppendPass(s0, i, off, src, tot);
        CostGrows(off + tot + m, off + |src|);
        if !ok {
          return;
        }
        tot := tot + m;
      }
      ok := true;
    }

    method AppendPass(ghost s0: Fs, i: int, off: int, src: seq<int>, tot: int) returns (ok: bool, m: int)
      requires Fresh() && 0 <= i < freeinode && i < NINODES && Img() in During(s0, i, off, src, tot) && tot < |src|
      requires off == s0.ino[i].size
      modifies this`freeblock, this`ino, this`disk
      ensures 0 < m <= |src| - tot
      ensures ok <==> old(freeblock) + Cost(off + tot + m) - Cost(off + tot) <= FSSIZE
      ensures ok ==> freeblock == old(freeblock) + Cost(off + tot + m) - Cost(off + tot)
      ensures ok ==> Fresh() && Img() in During(s0, i, off, src, tot + m)
    {
      var fbn := (off + tot) / BSIZE;
      ghost var s := Img();
      m := PassLen(off + tot, |src| - tot);
      PassCost(s, i, off + tot, |src| - tot);
      assert Lacks(s, i, fbn) == Cost(off + tot + m) - Cost(off + tot);
      var x;
      ok, x := BlockFor(i, fbn);
      if ok {
        CopyIn(s0, s, i, off, src, tot, m, x);
      }
    }

    method CopyIn(ghost s0: Fs, ghost s: Fs, i: int, off: int, src: seq<int>, tot: int, m: int, x: int)
      requires Fresh() && s in During(s0, i, off, src, tot) && 0 < m <= |src| - tot && (off + tot) % BSIZE + m <= BSIZE
      requires Bmapped(s, Img(), i, (off + tot) / BSIZE, x)
      modifies this`disk
      ensures Fresh() && Img() in During(s0, i, off, src, tot + m)
    {
      ghost var t := Img();
      assert t.bitmap[x] by {
        assert IsPos(t, PosOf(i, (off + tot) / BSIZE));
      }
      disk := disk[x := Patch(disk[x], (off + tot) % BSIZE, src[tot..tot + m])];
      WrittenStep(s0, s, t, Img(), i, off, src, tot, m, x);
    }

    /** balloc(freeblock) writes the bitmap: the finished image is a file system the kernel can run on. */
    method Finish() returns (s: Fs)
      requires Valid()
      ensures FilesOk(s) && s == Img()
    {
      var bits := seq(FSSIZE, b => false);
      var b := 0;
      while b < freeblock
        invariant NMETA <= freeblock && 0 <= b <= freeblock && bits == FirstBits(b)
      {
        NextBit(b);
        bits := bits[b := true];
        b := b + 1;
      }
      s := Fs(NMETA, bits, disk, ino);
    }
  }

  /** How much of the remaining bytes goes into the block of byte e. */
  function PassLen(e: int, rest: int): int {
    var n := (e / BSIZE + 1) * BSIZE - e;
    if rest < n then rest else n
  }

  lemma PassCost(s: Fs, i: int, e: int, rest: int)
    requires Shape(s) && 0 <= i < |s.ino| && MappedTo(s, i, e) && e < MAXFILE * BSIZE && 0 < rest
    ensures var m := PassLen(e, rest);
      && 0 <= e / BSIZE < MAXFILE && 0 < m <= rest && e % BSIZE + m <= BSIZE
      && Lacks(s, i, e / BSIZE) == Cost(e + m) - Cost(e)
  {
    LacksIs(s, i, e);
    CostStep(e, PassLen(e, rest));
  }

  ghost function Rounded(s: Fs, i: int): Fs
    requires 0 <= i < |s.ino|
  {
    s.(ino := s.ino[i := s.ino[i].(size := (s.ino[i].size / BSIZE + 1) * BSIZE)])
  }

  /** mkfs finally rounds the root directory up to the next block.  That keeps files free of holes
      exactly when the size was not a whole number of blocks before. */
  lemma RootRounding(s: Fs, i: int)
    requires FilesOk(s) && 0 <= i < |s.ino| && (s.ino[i].size / BSIZE + 1) * BSIZE <= MAXFILE * BSIZE
    ensures FilesOk(Rounded(s, i)) <==> s.ino[i].size % BSIZE != 0
  {
    var n := s.ino[i].size;
    var t := Rounded(s, i);
    assert MappedTo(s, i, n);
    assert Shape(t);
    assert forall q | IsPos(s, q) :: Held(t, q) == Held(s, q);
    SameHeld(s, t);
    forall f, c | 0 <= f < |s.ino| && 0 <= c < MAXFILE
      ensures BlockAt(t, f, c) == BlockAt(s, f, c)
    {
      assert IsPos(s, PosOf(f, c));
    }
    if n % BSIZE != 0 {
      forall f | 0 <= f < |s.ino|
        ensures MappedTo(t, f, t.ino[f].size)
      {
        assert MappedTo(s, f, s.ino[f].size);
      }
    } else {
      assert BlockAt(t, i, n / BSIZE) == 0;
      assert !MappedTo(t, i, t.ino[i].size);
    }
  }

  const DIRENT: int := 16  // sizeof(struct dirent)

  /** 128 entries fill the root directory's first block, and the rounding then leaves a hole behind it. */
  method RootWithHole() returns (im: Image)
    ensures fresh(im) && im.Valid() && |Contents(im.Img(), 1)| == BSIZE && !FilesOk(Rounded(im.Img(), 1))
  {
    im := new Image();
    var ok, root := im.Ialloc();
    var n := 0;
    while n < BSIZE / DIRENT
      invariant 0 <= n <= BSIZE / DIRENT && fresh(im) && im.Valid() && im.freeinode == 2
      invariant im.ino[1].size == n * DIRENT && im.freeblock == NMETA + Cost(n * DIRENT)
    {
      ok := im.Iappend(1, seq(DIRENT, _ => 1));
      n := n + 1;
    }
    RootRounding(im.Img(), 1);
  }
}
