/** balloc, bfree, bmap, itrunc, iupdate, readi and writei of fs.c and the loop of file.c's filewrite,
    changing the bitmap, the disk and the inodes in place. */
module FileSystem {
  import opened FsModel
  import opened FileBytes
  import opened BlockCount
  import opened Finite
  import opened Truncate

  const BPB: int := BSIZE * 8
  const IPB: int := 32  // BSIZE / sizeof(struct dinode)
  const CHUNK: int := 1536  // (MAXOPBLOCKS - 1 - 1 - 2) / 2 * 512
  const MAXBYTES: int := 1073152  // MAXFILE * BSIZE

  function Min(a: int, b: int): int {
    if a < b then a else b
  }

  /** uint addition. */
  function Add32(a: int, b: int): int {
    (a + b) % WORD
  }

  predicate InOneBlock(off: int, n: int) {
    0 < n && off % BSIZE + n <= BSIZE
  }

  /** How many blocks the bytes from off to off + n touch. */
  function Span(off: int, n: int): int {
    if n <= 0 then 0 else (off + n - 1) / BSIZE - off / BSIZE + 1
  }

  lemma SameBitBlock(b: int, bi: int)
    requires b % BPB == 0 && 0 <= bi < BPB
    ensures (b + bi) / BPB == b / BPB
  {
  }

  /** How many blocks the bitmap of a disk of n blocks has. */
  function BitmapSize(n: nat): nat {
    (n + BPB - 1) / BPB
  }

  lemma BitInside(b: int, n: nat)
    requires 0 <= b < n
    ensures 0 <= b / BPB < BitmapSize(n)
  {
  }

  class FileSystem {
    const nmeta: int
    const bmapstart: int
    const inodestart: int
    var bitmap: seq<bool>
    var disk: seq<Block>
    var ino: seq<Inode>         // in-core inodes
    var dino: seq<Inode>        // inodes on disk
    ghost var logged: set<int>  // blocks given to log_write since begin_op

    ghost function Now(): Fs
      reads this
    {
      Fs(nmeta, bitmap, disk, ino)
    }

    /** Between calls: exclusive ownership, no holes, and the inodes on disk are up to date. */
    ghost predicate Valid()
      reads this
    {
      FilesOk(Now()) && dino == ino
    }

    function BBlock(b: int): int {
      b / BPB + bmapstart
    }

    function IBlock(i: int): int {
      i / IPB + inodestart
    }

    constructor (s: Fs, bmapstart: int, inodestart: int)
      requires FilesOk(s)
      ensures Valid() && Now() == s
    {
      nmeta, bitmap, disk, ino, dino, logged := s.nmeta, s.bitmap, s.disk, s.ino, s.ino, {};
      this.bmapstart, this.inodestart := bmapstart, inodestart;
    }

    /** Take the first free block and zero it; fail ("out of blocks") only when none is free. */
    method Balloc() returns (ok: bool, r: int)
      requires |bitmap| == |disk|
      modifies this`bitmap, this`disk, this`logged
      ensures ok <==> exists b :: 0 <= b < |old(bitmap)| && !old(bitmap)[b]
      ensures ok <==> old(Unused(bitmap)) > 0
      ensures ok ==> Unused(bitmap) == old(Unused(bitmap)) - 1
      ensures ok ==> 0 <= r < |old(bitmap)| && !old(bitmap)[r] && forall b | 0 <= b < r :: old(bitmap)[b]
      ensures ok ==> bitmap == old(bitmap)[r := true] && disk == old(disk)[r := Zero()]
      ensures ok ==> logged == old(logged) + {BBlock(r), r}
      ensures !ok ==> bitmap == old(bitmap) && disk == old(disk) && logged == old(logged)
    {
      var b := 0;
      while b < |bitmap|
        invariant 0 <= b && bitmap == old(bitmap) && disk == old(disk) && logged == old(logged)
        invariant forall c | 0 <= c < b && c < |bitmap| :: bitmap[c]
        invariant b % BPB == 0
      {
        var bi := 0;
        while bi < BPB && b + bi < |bitmap|
          invariant 0 <= bi <= BPB && bitmap == old(bitmap) && disk == old(disk) && logged == old(logged)
          invariant forall c | 0 <= c < b + bi && c < |bitmap| :: bitmap[c]
        {
          if !bitmap[b + bi] {
            TakeBlock(b, bi);
            return true, b + bi;
          }
          bi := bi + 1;
        }
        b := b + BPB;
      }
      UnusedNone(bitmap);
      return false, 0;
    }

    /** What balloc does with the free block it has found: bit bi of the bitmap block that begins at b. */
    method TakeBlock(b: int, bi: int)
      requires 0 <= b && b % BPB == 0 && 0 <= bi < BPB && b + bi < |bitmap| == |disk| && !bitmap[b + bi]
      modifies this`bitmap, this`disk, this`logged
      ensures bitmap == old(bitmap)[b + bi := true] && disk == old(disk)[b + bi := Zero()]
      ensures logged == old(logged) + {BBlock(b + bi), b + bi}
      ensures Unused(bitmap) == old(Unused(bitmap)) - 1
    {
      UnusedTake(bitmap, b + bi);
      SameBitBlock(b, bi);
      bitmap := bitmap[b + bi := true];
      disk := disk[b + bi := Zero()];
      logged := logged + {b / BPB + bmapstart} + {b + bi};
    }

    /** Free a block; fail ("freeing free block") if it is not in use. */
    method Bfree(b: int) returns (ok: bool)
      requires 0 <= b < |bitmap|
      modifies this`bitmap, this`logged
      ensures ok <==> old(bitmap)[b]
      ensures bitmap == old(bitmap)[b := false]
      ensures logged == if ok then old(logged) + {BBlock(b)} else old(logged)
    {
      ok := bitmap[b];
      if ok {
        bitmap := bitmap[b := false];
        logged := logged + {BBlock(b)};
      }
    }

    /** A block and the bitmap block with its bit. */
    ghost function Both(a: int): set<int> {
      {a, BBlock(a)}
    }

    /** The bitmap blocks of a disk of n blocks. */
    ghost function BitBlocks(n: nat): set<int> {
      Range(bmapstart, BitmapSize(n))
    }

    /** l has the bitmap block of every block. */
    ghost predicate Covers(l: set<int>, n: int) {
      forall b | 0 <= b < n :: BBlock(b) in l
    }

    lemma AllCovered(l: set<int>, n: nat)
      ensures Covers(l + BitBlocks(n), n)
    {
      forall b | 0 <= b < n
        ensures BBlock(b) in BitBlocks(n)
      {
        BitInside(b, n);
      }
    }

    ghost function TableBlocks(tb: int): set<int> {
      if tb == 0 then {} else {tb, BBlock(tb)}
    }

    /** The disk block of block bn of file i, allocating it if there is none.  Fails only when the disk
        is full. */
    method Bmap(i: int, bn: int) returns (ok: bool, addr: int)
      requires Owned(Now()) && 0 <= i < |ino| && 0 <= bn < MAXFILE
      modifies this`bitmap, this`disk, this`ino, this`logged
      ensures ok ==> Bmapped(old(Now()), Now(), i, bn, addr)
      ensures ok ==> logged <= old(logged) + {addr, BBlock(addr)} + TableBlocks(ino[i].addrs[NDIRECT])
      ensures old(BlockAt(Now(), i, bn)) != 0 ==> ok && logged == old(logged)
      ensures ok <==> old(Unused(bitmap)) >= old(Lacks(Now(), i, bn))
      ensures ok ==> Unused(bitmap) == old(Unused(bitmap)) - old(Lacks(Now(), i, bn))
      ensures !ok ==> forall b | 0 <= b < |bitmap| :: bitmap[b]
    {
      assert IsPos(Now(), PosOf(i, bn));
      if bn < NDIRECT {
        ok, addr := BmapDirect(i, bn);
      } else {
        ghost var s := Now();
        addr := 0;
        ok := EnsureTable(i);
        if ok {
          ghost var t := Now();
          ok, addr := BmapEntry(i, bn);
          if ok && s.ino[i].addrs[NDIRECT] == 0 {
            BmappedBoth(s, t, Now(), i, bn, addr);
          }
        }
      }
    }

    method BmapDirect(i: int, bn: int) returns (ok: bool, addr: int)
      requires Owned(Now()) && 0 <= i < |ino| && 0 <= bn < NDIRECT
      modifies this`bitmap, this`disk, this`ino, this`logged
      ensures ok ==> Bmapped(old(Now()), Now(), i, bn, addr)
      ensures ok ==> logged <= old(logged) + {addr, BBlock(addr)}
      ensures old(BlockAt(Now(), i, bn)) != 0 ==> ok && logged == old(logged)
      ensures ok <==> old(Unused(bitmap)) >= One(old(BlockAt(Now(), i, bn)) == 0)
      ensures ok ==> Unused(bitmap) == old(Unused(bitmap)) - One(old(BlockAt(Now(), i, bn)) == 0)
      ensures !ok ==> forall b | 0 <= b < |bitmap| :: bitmap[b]
    {
      ghost var s := Now();
      assert IsPos(s, PosOf(i, bn));
      ok, addr := true, ino[i].addrs[bn];
      if addr == 0 {
        ok, addr := Balloc();
        if ok {
          ino := ino[i := ino[i].(addrs := ino[i].addrs[bn := addr])];
          assert Now() == FillSlot(s, i, bn, addr);
          BmappedDirect(s, i, bn, addr);
        }
      }
    }

    method BmapEntry(i: int, bn: int) returns (ok: bool, addr: int)
      requires Owned(Now()) && 0 <= i < |ino| && NDIRECT <= bn < MAXFILE && ino[i].addrs[NDIRECT] != 0
      modifies this`bitmap, this`disk, this`logged
      ensures ok ==> Bmapped(old(Now()), Now(), i, bn, addr)
      ensures ok ==> logged <= old(logged) + {addr, BBlock(addr)} + TableBlocks(ino[i].addrs[NDIRECT])
      ensures old(BlockAt(Now(), i, bn)) != 0 ==> ok && logged == old(logged)
      ensures ok <==> old(Unused(bitmap)) >= One(old(BlockAt(Now(), i, bn)) == 0)
      ensures ok ==> Unused(bitmap) == old(Unused(bitmap)) - One(old(BlockAt(Now(), i, bn)) == 0)
      ensures !ok ==> forall b | 0 <= b < |bitmap| :: bitmap[b]
    {
      ghost var s := Now();
      assert IsPos(s, PosOf(i, bn));
      var tb := ino[i].addrs[NDIRECT];
      ok, addr := true, WordAt(disk[tb], bn - NDIRECT);
      if addr == 0 {
        ok, addr := Balloc();
        if ok {
          SetEntry(s, i, bn, tb, addr);
        }
      }
    }

    /** The new block's address goes into the table. */
    method SetEntry(ghost s: Fs, ghost i: int, bn: int, tb: int, addr: int)
      requires Owned(s) && 0 <= i < |s.ino| && NDIRECT <= bn < MAXFILE && tb == s.ino[i].addrs[NDIRECT] != 0
      requires BlockAt(s, i, bn) == 0 && 0 <= addr < |s.bitmap| && !s.bitmap[addr]
      requires bitmap == s.bitmap[addr := true] && disk == s.disk[addr := Zero()] && ino == s.ino && nmeta == s.nmeta
      modifies this`disk, this`logged
      ensures Bmapped(s, Now(), i, bn, addr) && logged == old(logged) + {tb}
    {
      BmappedEntry(s, i, bn, addr);
      disk := disk[tb := SetWord(disk[tb], bn - NDIRECT, addr)];
      logged := logged + {tb};
      assert Now() == FillEntry(s, i, bn - NDIRECT, addr);
    }

    /** The indirect table of file i, allocated if there is none; no file's blocks change by that. */
    method EnsureTable(i: int) returns (ok: bool)
      requires Owned(Now()) && 0 <= i < |ino|
      modifies this`bitmap, this`disk, this`ino, this`logged
      ensures old(ino)[i].addrs[NDIRECT] != 0 ==> ok && Now() == old(Now()) && logged == old(logged)
      ensures ok ==> Owned(Now()) && Keeps(old(Now()), Now()) && ino[i].addrs[NDIRECT] != 0
      ensures ok ==> forall f, c | 0 <= f < |ino| && 0 <= c < MAXFILE :: BlockAt(Now(), f, c) == BlockAt(old(Now()), f, c)
      ensures ok ==> forall f | 0 <= f < |ino| && f != i :: ino[f] == old(ino)[f]
      ensures ok ==> ino[i].size == old(ino)[i].size
      ensures ok ==> forall b | 0 <= b < |bitmap| :: old(bitmap)[b] ==> bitmap[b]
      ensures ok ==> logged <= old(logged) + TableBlocks(ino[i].addrs[NDIRECT])
      ensures ok <==> old(Unused(bitmap)) >= One(old(ino)[i].addrs[NDIRECT] == 0)
      ensures ok ==> Unused(bitmap) == old(Unused(bitmap)) - One(old(ino)[i].addrs[NDIRECT] == 0)
      ensures !ok ==> forall b | 0 <= b < |bitmap| :: bitmap[b]
    {
      ghost var s := Now();
      ok := true;
      if ino[i].addrs[NDIRECT] == 0 {
        var tb;
        ok, tb := Balloc();
        if ok {
          ino := ino[i := ino[i].(addrs := ino[i].addrs[NDIRECT := tb])];
          assert Now() == FillSlot(s, i, NDIRECT, tb);
          TableAdded(s, i, tb);
        }
      }
    }

    /** Every inode but i is up to date on disk. */
    ghost predicate StaleAt(i: int)
      reads this
    {
      |dino| == |ino| && forall f | 0 <= f < |ino| && f != i :: dino[f] == ino[f]
    }

    /** iupdate: if inode i was the only one out of date on disk, the file system is consistent again.
        That logs one block. */
    method Iupdate(i: int)
      requires 0 <= i < |ino| == |dino|
      modifies this`dino, this`logged
      ensures dino == old(dino)[i := ino[i]]
      ensures old(StaleAt(i) && FilesOk(Now())) ==> Valid()
      ensures logged == old(logged) + {IBlock(i)} == old(logged) + {i / 32 + inodestart}
    {
      dino := dino[i := ino[i]];
      logged := logged + {IBlock(i)};
    }

    /** readi on a regular file: -1 for a bad range, otherwise the bytes that are there.  It allocates
        nothing and changes nothing. */
    method Readi(i: int, off: int, n: int) returns (r: int, dst: seq<int>)
      requires Valid() && 0 <= i < |ino| && 0 <= off < WORD && 0 <= n < WORD
      modifies this`bitmap, this`disk, this`ino, this`logged
      ensures Now() == old(Now()) && logged == old(logged)
      ensures r == -1 <==> off > ino[i].size || off + n >= WORD
      ensures r == -1 ==> dst == []
      ensures r != -1 ==> r == |dst| == Min(n, ino[i].size - off) && dst == Contents(Now(), i)[off..off + r]
    {
      dst := [];
      if off > ino[i].size || Add32(off, n) < off {
        return -1, [];
      }
      r := if off + n > ino[i].size then ino[i].size - off else n;
      dst := ReadBytes(Now(), Contents(Now(), i), i, off, r);
    }

    /** The loop of readi. */
    method ReadBytes(ghost s: Fs, ghost c: seq<int>, i: int, off: int, n: int) returns (dst: seq<int>)
      requires Now() == s && (s, c) in Reads(i) && 0 <= off && 0 <= n && off + n <= |c|
      modifies this`bitmap, this`disk, this`ino, this`logged
      ensures Now() == s && logged == old(logged)
      ensures dst == c[off..off + n]
    {
      dst := [];
      var tot := 0;
      while tot < n
        invariant 0 <= tot <= n && Now() == s && logged == old(logged)
        invariant dst == c[off..off + tot]
        decreases n - tot
      {
        var bytes := ReadPass(s, c, i, off + tot, n - tot);
        SliceMore(c, off, tot, |bytes|);
        dst, tot := dst + bytes, tot + |bytes|;
      }
    }

    /** One round of readi: as many of the n bytes from cur on as the block of byte cur has. */
    method ReadPass(ghost s: Fs, ghost c: seq<int>, i: int, cur: int, n: int) returns (bytes: seq<int>)
      requires Now() == s && (s, c) in Reads(i) && 0 <= cur < cur + n <= |c|
      modifies this`bitmap, this`disk, this`ino, this`logged
      ensures Now() == s && logged == old(logged)
      ensures 0 < |bytes| <= n && cur + |bytes| <= |c| && bytes == c[cur..cur + |bytes|]
    {
      assert MappedTo(s, i, s.ino[i].size);
      assert BlockAt(s, i, cur / BSIZE) != 0;
      var ok, addr := Bmap(i, cur / BSIZE);
      var m := Min(n, BSIZE - cur % BSIZE);
      ReadChunk(s, i, cur, m, addr);
      bytes := disk[addr].bytes[cur % BSIZE..cur % BSIZE + m];
    }

    /** writei on a regular file: -1, and nothing changes, for a bad range; -2 where balloc panics, exactly
        if there are fewer unused blocks than the file has to grow by; otherwise the file reads as its old
        contents with src laid over it, none of its blocks has moved, every other file reads as before, and
        the inode on disk is up to date again. */
    method Writei(i: int, off: int, src: seq<int>) returns (r: int)
      requires Valid() && 0 <= i < |ino| && 0 <= off < WORD && |src| < WORD
      modifies this`bitmap, this`disk, this`ino, this`dino, this`logged
      ensures r == -1 <==> off > old(ino)[i].size || off + |src| > MAXFILE * BSIZE
      ensures r == -1 ==> Now() == old(Now()) && dino == old(dino) && logged == old(logged)
      ensures r == -2 ==> forall b | 0 <= b < |bitmap| :: bitmap[b]
      ensures r != -1 ==> (r == -2 <==> old(Unused(bitmap)) < Grown(old(ino)[i].size, off + |src|))
      ensures r >= 0 ==> Unused(bitmap) == old(Unused(bitmap)) - Grown(old(ino)[i].size, off + |src|)
      ensures r != -1 && r != -2 ==> r == |src| && Valid() && |ino| == |old(ino)| && Now() in Staying(old(Now()), i)
      ensures r != -1 && r != -2 ==> Contents(Now(), i) == Splice(old(Contents(Now(), i)), off, src)
      ensures r != -1 && r != -2 ==> forall f | 0 <= f < |ino| && f != i ::
                Contents(Now(), f) == Contents(old(Now()), f) && ino[f] == old(ino)[f]
      ensures r != -1 && r != -2 ==> |logged - old(logged)| <= 2 * Span(off, |src|) + 3
      ensures r != -1 && r != -2 && InOneBlock(off, |src|) ==>
                logged <= old(logged) + Both(BlockAt(Now(), i, LastBlock(off, |src|)))
                          + TableBlocks(ino[i].addrs[NDIRECT]) + {IBlock(i)}
    {
      if off > ino[i].size || Add32(off, |src|) < off {
        return -1;
      }
      if Add32(off, |src|) > MAXFILE * BSIZE {
        return -1;
      }
      var ok := WriteAll(Now(), i, off, src);
      r := if ok then |src| else -2;
    }

    /** writei behind its checks. */
    method WriteAll(ghost s0: Fs, i: int, off: int, src: seq<int>) returns (ok: bool)
      requires Now() == s0 && Valid() && 0 <= i < |ino| && 0 <= off <= ino[i].size && off + |src| <= MAXFILE * BSIZE
      modifies this`bitmap, this`disk, this`ino, this`dino, this`logged
      ensures !ok ==> forall b | 0 <= b < |bitmap| :: bitmap[b]
      ensures ok <==> old(Unused(bitmap)) >= Grown(s0.ino[i].size, off + |src|)
      ensures ok ==> Unused(bitmap) == old(Unused(bitmap)) - Grown(s0.ino[i].size, off + |src|)
      ensures ok ==> Valid() && |ino| == |s0.ino| && Now() in Staying(s0, i)
      ensures ok ==> Contents(Now(), i) == Splice(Contents(s0, i), off, src)
      ensures ok ==> forall f | 0 <= f < |ino| && f != i ::
                Contents(Now(), f) == Contents(s0, f) && ino[f] == s0.ino[f]
      ensures ok ==> |logged - old(logged)| <= 2 * Span(off, |src|) + 3
      ensures ok && InOneBlock(off, |src|) ==>
                logged <= old(logged) + Both(BlockAt(Now(), i, LastBlock(off, |src|)))
                          + TableBlocks(ino[i].addrs[NDIRECT]) + {IBlock(i)}
    {
      ghost var data;
      WrittenNone(s0, i, off, src);
      ok, data := WriteBlocks(s0, i, off, src);
      if ok {
        SetSize(s0, i, off, src, data);
        FewLogged(old(logged), logged, data, TableBlocks(ino[i].addrs[NDIRECT]), IBlock(i));
      }
    }

    /** The end of writei: a file that has grown gets its new size, in core and on disk. */
    method SetSize(ghost s0: Fs, i: int, off: int, src: seq<int>, ghost data: set<int>)
      requires Now() in During(s0, i, off, src, |src|) && Now() in Staying(s0, i) && dino == s0.ino
      requires InOneBlock(off, |src|) ==> data == Both(BlockAt(Now(), i, LastBlock(off, |src|)))
      modifies this`ino, this`dino, this`logged
      ensures Valid() && Now() in Staying(s0, i) && |ino| == |s0.ino| && ino[i].addrs == old(ino)[i].addrs
      ensures InOneBlock(off, |src|) ==> data == Both(BlockAt(Now(), i, LastBlock(off, |src|)))
      ensures Contents(Now(), i) == Splice(Contents(s0, i), off, src)
      ensures forall f | 0 <= f < |ino| && f != i :: Contents(Now(), f) == Contents(s0, f) && ino[f] == s0.ino[f]
      ensures logged <= old(logged) + {IBlock(i)}
    {
      WrittenAll(s0, Now(), i, off, src);
      if |src| > 0 && off + |src| > ino[i].size {
        ino := ino[i := ino[i].(size := off + |src|)];
        Iupdate(i);
      } else {
        assert ino[i := ino[i]] == ino;
      }
    }

    /** The loop of writei. */
    method WriteBlocks(ghost s0: Fs, i: int, off: int, src: seq<int>) returns (ok: bool, ghost data: set<int>)
      requires Now() == s0 && Now() in During(s0, i, off, src, 0) && Now() in Staying(s0, i)
      modifies this`bitmap, this`disk, this`ino, this`logged
      ensures ok ==> Now() in During(s0, i, off, src, |src|) && Now() in Staying(s0, i)
      ensures ok ==> logged <= old(logged) + data + TableBlocks(ino[i].addrs[NDIRECT]) && |data| <= 2 * Span(off, |src|)
      ensures ok && InOneBlock(off, |src|) ==> data == Both(BlockAt(Now(), i, LastBlock(off, |src|)))
      ensures !ok ==> old(Unused(bitmap)) < Grown(s0.ino[i].size, off + |src|)
      ensures ok ==> Unused(bitmap) == old(Unused(bitmap)) - Grown(s0.ino[i].size, off + |src|)
      ensures !ok ==> forall b | 0 <= b < |bitmap| :: bitmap[b]
    {
      ghost var l0, u0 := logged, Unused(bitmap);
      data := {};
      ghost var last := {};
      var tot := 0;
      while tot < |src|
        invariant 0 <= tot <= |src| && Now() in During(s0, i, off, src, tot) && Now() in Staying(s0, i)
        invariant logged <= l0 + data + TableBlocks(ino[i].addrs[NDIRECT])
        invariant Counted(off, tot, |src|, data, last)
        invariant tot > 0 ==> last == Both(BlockAt(Now(), i, LastBlock(off, tot)))
        invariant Unused(bitmap) == u0 - Grown(s0.ino[i].size, off + tot)
        decreases |src| - tot
      {
        ok, tot, data, last := WriteRound(s0, l0, u0, i, off, src, tot, data, last);
        if !ok {
          return;
        }
      }
      ok := true;
    }

    /** One round of writei, with what it has logged and taken since it began. */
    method WriteRound(ghost s0: Fs, ghost l0: set<int>, ghost u0: int, i: int, off: int, src: seq<int>, tot: int,
                      ghost data: set<int>, ghost last: set<int>)
      returns (ok: bool, tot': int, ghost data': set<int>, ghost last': set<int>)
      requires Now() in During(s0, i, off, src, tot) && Now() in Staying(s0, i) && tot < |src|
      requires logged <= l0 + data + TableBlocks(ino[i].addrs[NDIRECT])
      requires Counted(off, tot, |src|, data, last)
      requires Unused(bitmap) == u0 - Grown(s0.ino[i].size, off + tot)
      modifies this`bitmap, this`disk, this`ino, this`logged
      ensures tot < tot' <= |src|
      ensures ok ==> Now() in During(s0, i, off, src, tot') && Now() in Staying(s0, i)
      ensures ok ==> last' == Both(BlockAt(Now(), i, LastBlock(off, tot')))
      ensures ok ==> logged <= l0 + data' + TableBlocks(ino[i].addrs[NDIRECT])
      ensures ok ==> Counted(off, tot', |src|, data', last')
      ensures ok ==> Unused(bitmap) == u0 - Grown(s0.ino[i].size, off + tot')
      ensures !ok ==> u0 < Grown(s0.ino[i].size, off + |src|)
      ensures !ok ==> forall b | 0 <= b < |bitmap| :: bitmap[b]
    {
      var addr;
      ghost var table := TableBlocks(ino[i].addrs[NDIRECT]);
      tot' := tot + Min(|src| - tot, BSIZE - (off + tot) % BSIZE);
      PassCost(s0, Now(), i, off, src, tot, tot');
      ok, addr := WritePass(s0, i, off, src, tot, tot');
      last' := Both(addr);
      data' := data + last';
      if ok {
        CountNext(off, tot, |src|, tot', data, last, addr, BBlock(addr));
        LoggedNext(l0, old(logged), logged, data, Both(addr), table, TableBlocks(ino[i].addrs[NDIRECT]));
      } else {
        CostGrows(Max(s0.ino[i].size, off + tot'), Max(s0.ino[i].size, off + |src|));
      }
    }

    /** itrunc: the file's blocks, its table included, become free and no other block does.  No bfree on
        the way finds a block already free. */
    method Itrunc(i: int)
      requires Valid() && 0 <= i < |ino|
      modifies this`bitmap, this`ino, this`dino, this`logged
      ensures Valid() && Now() == Truncated(old(Now()), i)
      ensures logged <= old(logged) + BitBlocks(|bitmap|) + {IBlock(i)}
    {
      ghost var s, l := Now(), logged + BitBlocks(|bitmap|);
      AllCovered(logged, |bitmap|);
      FreeAll(s, l, i);
      ino := ino[i := ino[i].(size := 0)];
      assert ino == s.ino[i := Emptied()];
      TruncateKeepsFiles(s, i);
      Iupdate(i);
    }

    /** The two loops of itrunc. */
    method FreeAll(ghost s: Fs, ghost l: set<int>, i: int)
      requires logged <= l && Covers(l, |s.bitmap|) && Owned(s) && Now() == s && 0 <= i < |ino|
      modifies this`bitmap, this`ino, this`logged
      ensures bitmap == Cleared(s.bitmap, Blocks(s, i, PLACES))
      ensures ino == s.ino[i := Inode(s.ino[i].size, Emptied().addrs)]
      ensures logged <= l
    {
      FreeDirect(s, l, i);
      if ino[i].addrs[NDIRECT] != 0 {
        FreeIndirect(s, l, i);
        ino := ino[i := ino[i].(addrs := ino[i].addrs[NDIRECT := 0])];
      } else {
        NoTable(s, i, PLACES);
      }
      assert ino[i].addrs == Emptied().addrs;
    }

    method FreeDirect(ghost s: Fs, ghost l: set<int>, i: int)
      requires logged <= l && Covers(l, |s.bitmap|) && Owned(s) && Now() == s && 0 <= i < |ino|
      modifies this`bitmap, this`ino, this`logged
      ensures bitmap == Cleared(s.bitmap, Blocks(s, i, NDIRECT))
      ensures ino == Zeroed(s.ino, i, NDIRECT)
      ensures logged <= l
    {
      assert Blocks(s, i, 0) == {};
      ZeroedNext(ino, i, 0);
      var k := 0;
      while k < NDIRECT
        invariant 0 <= k <= NDIRECT && bitmap == Cleared(s.bitmap, Blocks(s, i, k)) && ino == Zeroed(s.ino, i, k)
        invariant logged <= l
      {
        ClearSlot(s, l, i, k);
        k := k + 1;
      }
    }

    /** One round of itrunc's first loop. */
    method ClearSlot(ghost s: Fs, ghost l: set<int>, i: int, k: int)
      requires logged <= l && Covers(l, |s.bitmap|) && Owned(s) && 0 <= i < |s.ino| && 0 <= k < NDIRECT
      requires bitmap == Cleared(s.bitmap, Blocks(s, i, k)) && ino == Zeroed(s.ino, i, k)
      modifies this`bitmap, this`ino, this`logged
      ensures bitmap == Cleared(s.bitmap, Blocks(s, i, k + 1)) && ino == Zeroed(s.ino, i, k + 1)
      ensures logged <= l
    {
      ZeroedNext(s.ino, i, k);
      FreeHeld(s, l, i, k, ino[i].addrs[k]);
      if ino[i].addrs[k] != 0 {
        ino := ino[i := ino[i].(addrs := ino[i].addrs[k := 0])];
      }
    }

    /** bfree on block b, if there is one at place n of file i, when those before it are free already. */
    method FreeHeld(ghost s: Fs, ghost l: set<int>, ghost i: int, ghost n: int, b: int)
      requires logged <= l && Covers(l, |s.bitmap|) && Owned(s)
      requires 0 <= i < |s.ino| && 0 <= n < PLACES && b == Held(s, Place(i, n))
      requires bitmap == Cleared(s.bitmap, Blocks(s, i, n))
      modifies this`bitmap, this`logged
      ensures bitmap == Cleared(s.bitmap, Blocks(s, i, n + 1))
      ensures logged <= l
    {
      if b != 0 {
        NextStillSet(s, i, n);
        var ok := Bfree(b);
        assert ok;
      } else {
        NothingThere(s, i, n);
      }
    }

    method FreeIndirect(ghost s: Fs, ghost l: set<int>, i: int)
      requires logged <= l && Covers(l, |s.bitmap|) && Owned(s) && 0 <= i < |ino| == |s.ino| && disk == s.disk
      requires |ino[i].addrs| == NDIRECT + 1 && ino[i].addrs[NDIRECT] == s.ino[i].addrs[NDIRECT] != 0
      requires bitmap == Cleared(s.bitmap, Blocks(s, i, NDIRECT))
      modifies this`bitmap, this`logged
      ensures bitmap == Cleared(s.bitmap, Blocks(s, i, PLACES))
      ensures logged <= l
    {
      var tb := ino[i].addrs[NDIRECT];
      var j := 0;
      while j < NINDIRECT
        invariant 0 <= j <= NINDIRECT && bitmap == Cleared(s.bitmap, Blocks(s, i, NDIRECT + j))
        invariant logged <= l
      {
        var a := WordAt(disk[tb], j);
        assert a == Held(s, Place(i, NDIRECT + j));
        FreeHeld(s, l, i, NDIRECT + j, a);
        j := j + 1;
      }
      FreeHeld(s, l, i, MAXFILE, tb);
    }

    /** filewrite on a regular file: transactions of at most CHUNK bytes, none of which logs more than
        seven blocks.  It writes all of src exactly if the file can take it and there are blocks for it.
        Otherwise the file has received the chunks that fit and the answer is -1, unless there are too few
        blocks for those: then balloc panics, and the answer is -2. */
    method Filewrite(i: int, off: int, src: seq<int>) returns (r: int, off': int)
      requires Valid() && 0 <= i < |ino| && 0 <= off < WORD && |src| < WORD
      modifies this`bitmap, this`disk, this`ino, this`dino, this`logged
      ensures Answer(old(ino)[i].size, old(Unused(bitmap)), off, |src|, r, off')
      ensures r != -2 ==> Valid() && off <= off' <= off + |src|
      ensures r != -2 ==> Files(Now()) in Received(old(Files(Now())), i, off, src, off' - off)
    {
      ghost var c, e, u := Files(Now()), ino[i].size, Unused(bitmap);
      var panics, n := WriteChunks(c, e, u, i, off, src);
      off' := off + n;
      if panics {
        PanicAnswer(e, u, off, |src|, off');
        return -2, off';
      }
      r := if n == |src| then |src| else -1;
      IsAnswer(e, u, ino[i].size, Unused(bitmap), off, n, |src|, r);
      assert off' - off == n;
    }

    /** The loop of filewrite; n is how far it has moved the offset. */
    method WriteChunks(ghost c: seq<seq<int>>, ghost e: int, ghost u: int, i: int, off: int, src: seq<int>)
      returns (panics: bool, n: int)
      requires Valid() && 0 <= i < |ino| && 0 <= off < WORD && |src| < WORD
      requires c == Files(Now()) && e == ino[i].size && u == Unused(bitmap)
      modifies this`bitmap, this`disk, this`ino, this`dino, this`logged
      ensures 0 <= n <= |src|
      ensures panics ==> src != [] && off <= e && u < Grown(e, off + Fitting(off, |src|))
      ensures !panics ==> Valid() && i < |ino| && (n == |src| || Stuck(e, off, n, |src|))
      ensures !panics ==> Files(Now()) in Received(c, i, off, src, n) && (ino[i].size, Unused(bitmap)) in Midway(e, u, off, n, |src|)
    {
      Begins(c, e, u, i, off, src);
      panics, n := false, 0;
      while n < |src|
        invariant 0 <= n <= |src| && off + n < WORD && Valid() && i < |ino| && !panics
        invariant Files(Now()) in Received(c, i, off, src, n) && (ino[i].size, Unused(bitmap)) in Midway(e, u, off, n, |src|)
        decreases |src| - n
      {
        var w, n' := WriteNext(c, e, u, i, off, src, n);
        if w == -2 {
          panics := true;
          return;
        }
        if w < 0 {
          return;
        }
        n := n';
      }
    }

    method WriteNext(ghost c: seq<seq<int>>, ghost e: int, ghost u: int, i: int, off: int, src: seq<int>, n: int)
      returns (w: int, n': int)
      requires Valid() && 0 <= i < |ino| && 0 <= n < |src| < WORD && 0 <= off && off + n < WORD && 0 <= e <= MAXBYTES
      requires Files(Now()) in Received(c, i, off, src, n) && (ino[i].size, Unused(bitmap)) in Midway(e, u, off, n, |src|)
      modifies this`bitmap, this`disk, this`ino, this`dino, this`logged
      ensures w == -1 || w == -2 || w == Min(|src| - n, CHUNK)
      ensures n' == n + w
      ensures w == -1 ==> Now() == old(Now()) && dino == old(dino)
      ensures w == -1 ==> Stuck(e, off, n, |src|)
      ensures w == -2 ==> off <= e && u < Grown(e, off + Fitting(off, |src|))
      ensures w > 0 ==> n' <= |src| && Valid() && 0 <= i < |ino| && off + n' < WORD
      ensures w > 0 ==> Files(Now()) in Received(c, i, off, src, n') && (ino[i].size, Unused(bitmap)) in Midway(e, u, off, n', |src|)
    {
      var n1 := Min(|src| - n, CHUNK);
      w := WriteMore(c, i, off, src, n, n + n1);
      n' := n + w;
      NextChunk(e, u, old(ino)[i].size, old(Unused(bitmap)), if w >= 0 then ino[i].size else 0, Unused(bitmap), off, n, |src|, w);
    }

    /** The bytes of src from n to z, behind those before. */
    method WriteMore(ghost c: seq<seq<int>>, i: int, off: int, src: seq<int>, n: int, z: int) returns (w: int)
      requires Valid() && 0 <= n < z <= |src| && z <= n + CHUNK && 0 <= off && off + n < WORD && 0 <= i < |ino|
      requires Files(Now()) in Received(c, i, off, src, n)
      modifies this`bitmap, this`disk, this`ino, this`dino, this`logged
      ensures w == -1 <==> off + n > old(ino)[i].size || off + z > MAXBYTES
      ensures w == -1 ==> Now() == old(Now()) && dino == old(dino)
      ensures w == -2 <==> w != -1 && old(Unused(bitmap)) < Grown(old(ino)[i].size, off + z)
      ensures w != -1 && w != -2 ==> w == z - n && Valid() && |ino| == |old(ino)| && Files(Now()) in Received(c, i, off, src, z)
      ensures w >= 0 ==> ino[i].size == Max(old(ino)[i].size, off + z)
      ensures w >= 0 ==> Unused(bitmap) == old(Unused(bitmap)) - Grown(old(ino)[i].size, off + z)
    {
      ghost var d := Files(Now());
      w := WriteChunk(i, off + n, src[n..z]);
      if w >= 0 {
        WroteMore(c, d, Files(Now()), i, off, src, n, z - n);
      }
    }

    /** One transaction of filewrite. */
    method WriteChunk(i: int, off: int, src: seq<int>) returns (r: int)
      requires Valid() && 0 <= i < |ino| && 0 <= off < WORD && 0 < |src| <= CHUNK
      modifies this`bitmap, this`disk, this`ino, this`dino, this`logged
      ensures r == -1 <==> off > old(ino)[i].size || off + |src| > MAXFILE * BSIZE
      ensures r == -1 ==> Now() == old(Now()) && dino == old(dino)
      ensures r == -2 <==> r != -1 && old(Unused(bitmap)) < Grown(old(ino)[i].size, off + |src|)
      ensures r != -1 && r != -2 ==> r == |src| && Valid() && |ino| == |old(ino)| && |logged| <= 7
      ensures r >= 0 ==> ino[i].size == Max(old(ino)[i].size, off + |src|)
      ensures r >= 0 ==> Unused(bitmap) == old(Unused(bitmap)) - Grown(old(ino)[i].size, off + |src|)
      ensures r >= 0 ==> Wrote(old(Files(Now())), Files(Now()), i, off, src)
    {
      logged := {};  // begin_op
      r := Writei(i, off, src);
      ChunkSpan(off, |src|);
      assert logged - {} == logged;
      if r >= 0 {
        assert |Contents(Now(), i)| == Max(old(ino)[i].size, off + |src|);
      }
    }

    /** The body of writei's loop, which copies the bytes of src from tot to tot' into one block. */
    method WritePass(ghost s0: Fs, i: int, off: int, src: seq<int>, tot: int, tot': int) returns (ok: bool, addr: int)
      requires Now() in During(s0, i, off, src, tot) && tot < |src|
      requires tot' == tot + Min(|src| - tot, BSIZE - (off + tot) % BSIZE) && Now() in Staying(s0, i)
      requires Owned(Now()) && 0 <= i < |ino| && 0 <= (off + tot) / BSIZE < MAXFILE
      modifies this`bitmap, this`disk, this`ino, this`logged
      ensures ok <==> old(Unused(bitmap)) >= old(Lacks(Now(), i, (off + tot) / BSIZE))
      ensures ok ==> Unused(bitmap) == old(Unused(bitmap)) - old(Lacks(Now(), i, (off + tot) / BSIZE))
      ensures ok ==> Now() in During(s0, i, off, src, tot') && Now() in Staying(s0, i)
      ensures ok ==> addr == BlockAt(Now(), i, (off + tot) / BSIZE)
      ensures ok ==> logged <= old(logged) + Both(addr) + TableBlocks(ino[i].addrs[NDIRECT])
      ensures ok && old(ino)[i].addrs[NDIRECT] != 0 ==> ino[i].addrs[NDIRECT] == old(ino)[i].addrs[NDIRECT]
      ensures !ok ==> forall b | 0 <= b < |bitmap| :: bitmap[b]
    {
      ghost var s := Now();
      ok, addr := Bmap(i, (off + tot) / BSIZE);
      if ok {
        CopyIn(s0, s, Now(), i, off, src, tot, tot', addr);
      }
    }

    /** memmove and log_write in writei's loop. */
    method CopyIn(ghost s0: Fs, ghost s: Fs, ghost t: Fs, i: int, off: int, src: seq<int>, tot: int, tot': int, addr: int)
      requires s in During(s0, i, off, src, tot) && s in Staying(s0, i) && 0 <= off && 0 <= tot < |src|
      requires tot' == tot + Min(|src| - tot, BSIZE - (off + tot) % BSIZE)
      requires Now() == t && Bmapped(s, t, i, (off + tot) / BSIZE, addr)
      modifies this`disk, this`logged
      ensures Now() in During(s0, i, off, src, tot') && Now() in Staying(s0, i)
      ensures addr == BlockAt(Now(), i, (off + tot) / BSIZE)
      ensures logged == old(logged) + {addr}
    {
      disk := disk[addr := Patch(disk[addr], (off + tot) % BSIZE, src[tot..tot'])];
      logged := logged + {addr};
      PassDone(s0, s, t, Now(), i, off, src, tot, tot', addr);
    }
  }

  /** How many of n bytes from off on are in chunks that end within the largest file. */
  function Fitting(off: int, n: int): int {
    if off + n <= MAXBYTES then n else (MAXBYTES - off) / CHUNK * CHUNK
  }

  predicate Chunked(n: int, len: int) {
    n % CHUNK == 0 || n == len
  }

  /** n of len bytes into filewrite, what the size and the number of unused blocks can be, if the file had e
      bytes and u blocks were unused. */
  ghost function Midway(e: int, u: int, off: int, n: int, len: int): iset<(int, int)> {
    iset size: int, left: int | InMidway(e, u, size, left, off, n) && Chunked(n, len) :: (size, left)
  }

  ghost predicate InMidway(e: int, u: int, size: int, left: int, off: int, n: int) {
    if off <= e then n <= MAXBYTES - off && size == Max(e, off + n) && left == u - Grown(e, off + n)
    else n == 0 && size == e && left == u
  }

  /** The next chunk does not fit. */
  predicate Stuck(e: int, off: int, n: int, len: int) {
    if off <= e then n == Fitting(off, len) && off + len > MAXBYTES else n == 0
  }

  /** What the files are when file i has received the first n bytes of src from off on. */
  ghost function Received(c: seq<seq<int>>, i: int, off: int, src: seq<int>, n: int): iset<seq<seq<int>>> {
    iset d | 0 <= n <= |src| && Wrote(c, d, i, off, src[..n])
  }

  lemma Begins(c: seq<seq<int>>, e: int, u: int, i: int, off: int, src: seq<int>)
    requires 0 <= i < |c| && 0 <= e <= MAXBYTES && 0 <= off
    ensures c in Received(c, i, off, src, 0) && (e, u) in Midway(e, u, off, 0, |src|)
  {
    assert src[..0] == [];
  }

  lemma NoRoom(off: int, n: int, len: int, n1: int)
    requires 0 <= n < len && Chunked(n, len) && n1 == Min(len - n, CHUNK) && off + n <= MAXBYTES < off + n + n1
    ensures n == Fitting(off, len) && off + len > MAXBYTES
  {
  }

  lemma HasRoom(off: int, n: int, len: int, n1: int)
    requires 0 <= n < len && Chunked(n, len) && n1 == Min(len - n, CHUNK) && off + n + n1 <= MAXBYTES
    ensures n + n1 <= Fitting(off, len) && Chunked(n + n1, len)
  {
    if off + len > MAXBYTES {
      var q, m := n / CHUNK, MAXBYTES - off;
      assert n + n1 == (q + 1) * CHUNK <= m;
      assert q + 1 <= m / CHUNK;
    }
  }

  /** A chunk that fits. */
  lemma GoodChunk(e: int, u: int, size: int, left: int, off: int, n: int, n1: int, z: int)
    requires InMidway(e, u, size, left, off, n) && 0 <= off <= e && 0 <= n && 0 < n1 && n + n1 <= z && off + n + n1 <= MAXBYTES
    ensures InMidway(e, u, Max(size, off + n + n1), left - Grown(size, off + n + n1), off, n + n1)
    ensures left < Grown(size, off + n + n1) ==> u < Grown(e, off + z)
  {
    CostGrows(Max(e, off + (n + n1)), Max(e, off + z));
  }

  /** What the answer w to the next chunk means for the whole. */
  lemma NextChunk(e: int, u: int, size: int, left: int, size': int, left': int, off: int, n: int, len: int, w: int)
    requires (size, left) in Midway(e, u, off, n, len) && 0 <= off && 0 <= e <= MAXBYTES && 0 <= n < len
    requires var n1 := Min(len - n, CHUNK);
      && (w == -1 <==> off + n > size || off + n + n1 > MAXBYTES)
      && (w == -2 <==> w != -1 && left < Grown(size, off + n + n1))
      && (w != -1 && w != -2 ==> w == n1 && size' == Max(size, off + n + n1) && left' == left - Grown(size, off + n + n1))
    ensures w == -1 ==> Stuck(e, off, n, len)
    ensures w == -2 ==> off <= e && u < Grown(e, off + Fitting(off, len))
    ensures w > 0 ==> (size', left') in Midway(e, u, off, n + w, len)
  {
    var n1 := Min(len - n, CHUNK);
    if off <= e {
      if off + n + n1 > MAXBYTES {
        NoRoom(off, n, len, n1);
      } else {
        HasRoom(off, n, len, n1);
        GoodChunk(e, u, size, left, off, n, n1, Fitting(off, len));
      }
    }
  }

  /** What filewrite of len bytes at off answers, on a file of e bytes with u blocks unused, and how far it
      moves the offset: all of it exactly if the file can take it and the blocks are there; a panic exactly
      if the chunks that fit need more blocks; otherwise -1, after the chunks that fit. */
  ghost predicate Answer(e: int, u: int, off: int, len: int, r: int, off': int) {
    && (r == len <==> len == 0 || (off <= e && off + len <= MAXBYTES && u >= Grown(e, off + len)))
    && (r == -2 <==> len > 0 && off <= e && u < Grown(e, off + Fitting(off, len)))
    && (r == len || r == -1 || r == -2)
    && (r == len ==> off' == off + len)
    && (r == -1 ==> off' == off + if off <= e then Fitting(off, len) else 0)
  }

  lemma PanicAnswer(e: int, u: int, off: int, len: int, off': int)
    requires 0 < len && off <= e && u < Grown(e, off + Fitting(off, len))
    ensures Answer(e, u, off, len, -2, off')
  {
  }

  lemma IsAnswer(e: int, u: int, size: int, left: int, off: int, n: int, len: int, r: int)
    requires (size, left) in Midway(e, u, off, n, len) && 0 <= left && 0 <= off && 0 <= n <= len && (n == len || Stuck(e, off, n, len))
    requires r == if n == len then len else -1
    ensures Answer(e, u, off, len, r, off + n)
  {
  }

  /** How many more blocks a file of e bytes needs to reach to. */
  ghost function Grown(e: int, to: int): int {
    Cost(Max(e, to)) - Cost(e)
  }

  /** In the middle of writei, the blocks its next bytes lack are those that the file still has to grow by. */
  lemma PassCost(s0: Fs, s: Fs, i: int, off: int, src: seq<int>, tot: int, tot': int)
    requires s in During(s0, i, off, src, tot) && tot < |src|
    requires tot' == tot + Min(|src| - tot, BSIZE - (off + tot) % BSIZE)
    ensures Owned(s) && 0 <= i < |s.ino| && 0 <= (off + tot) / BSIZE < MAXFILE
    ensures Lacks(s, i, (off + tot) / BSIZE) ==
            Grown(s0.ino[i].size, off + tot') - Grown(s0.ino[i].size, off + tot)
  {
    WriteCost(s, i, s0.ino[i].size, off + tot, tot' - tot);
  }

  lemma PassDone(s0: Fs, s: Fs, t: Fs, u: Fs, i: int, off: int, src: seq<int>, tot: int, tot': int, addr: int)
    requires s in Staying(s0, i) && Pass(s0, s, t, u, i, off, src, tot, tot' - tot, addr)
    ensures u in During(s0, i, off, src, tot') && u in Staying(s0, i) && addr == BlockAt(u, i, (off + tot) / BSIZE)
  {
    PassStays(s0, s, t, u, i, (off + tot) / BSIZE, addr, u.disk[addr]);
    PassWrites(s0, s, t, u, i, off, src, tot, tot', addr);
  }

  lemma PassWrites(s0: Fs, s: Fs, t: Fs, u: Fs, i: int, off: int, src: seq<int>, tot: int, tot': int, addr: int)
    requires Pass(s0, s, t, u, i, off, src, tot, tot' - tot, addr)
    ensures u in During(s0, i, off, src, tot')
  {
    WrittenStep(s0, s, t, u, i, off, src, tot, tot' - tot, addr);
    assert tot + (tot' - tot) == tot';
  }

  /** The states in which every block that file i has in s is where it is in s. */
  ghost function Staying(s: Fs, i: int): iset<Fs> {
    iset t | Stays(s, t, i)
  }

  ghost predicate Stays(s: Fs, t: Fs, i: int) {
    && Shape(s) && Shape(t) && 0 <= i < |s.ino| && i < |t.ino|
    && forall bn | 0 <= bn < MAXFILE && BlockAt(s, i, bn) != 0 :: BlockAt(t, i, bn) == BlockAt(s, i, bn)
  }

  lemma PassStays(s0: Fs, s: Fs, t: Fs, u: Fs, i: int, bn: int, addr: int, v: Block)
    requires s in Staying(s0, i) && Bmapped(s, t, i, bn, addr)
    requires |v.bytes| == BSIZE && u == t.(disk := t.disk[addr := v])
    ensures u in Staying(s0, i) && BlockAt(u, i, bn) == addr
  {
    PatchKeeps(t, i, bn, v);
    forall c | 0 <= c < MAXFILE
      ensures BlockAt(u, i, c) == BlockAt(t, i, c)
    {
      assert IsPos(t, PosOf(i, c));
    }
  }

  /** What writei may have logged, tot of n bytes into its loop: two blocks for each block of the file.
      Negative where its loop never is: off a block boundary, neither just begun nor done. */
  ghost function Budget(off: int, tot: int, n: int): int {
    if 0 < tot < n && (off + tot) % BSIZE != 0 then -1 else 2 * Span(off, tot)
  }

  /** The data and bitmap blocks logged so far, and those of the last round. */
  ghost predicate Counted(off: int, tot: int, n: int, data: set<int>, last: set<int>) {
    && |data| <= Budget(off, tot, n)
    && (tot == 0 ==> data == {})
    && (tot > 0 && InOneBlock(off, n) ==> tot == n && data == last)
  }

  /** The block of the last of n bytes from off on. */
  function LastBlock(off: int, n: int): int {
    (off + n - 1) / BSIZE
  }

  lemma CountNext(off: int, tot: int, n: int, tot': int, data: set<int>, last: set<int>, a: int, b: int)
    requires 0 <= off && 0 <= tot < n && tot' == tot + Min(n - tot, BSIZE - (off + tot) % BSIZE)
    requires Counted(off, tot, n, data, last)
    ensures Counted(off, tot', n, data + {a, b}, {a, b}) && LastBlock(off, tot') == (off + tot) / BSIZE
  {
    AddTwo(data, a, b);
    if InOneBlock(off, n) {
      assert tot == 0 && data + {a, b} == {a, b};
    }
    assert Span(off, tot') == Span(off, tot) + 1;
  }

  lemma LoggedNext(l0: set<int>, l1: set<int>, l2: set<int>, data: set<int>, more: set<int>, t1: set<int>, t2: set<int>)
    requires l1 <= l0 + data + t1 && l2 <= l1 + more + t2 && (t1 == {} || t1 == t2)
    ensures l2 <= l0 + (data + more) + t2
  {
  }

  /** The file systems in which file i has these contents. */
  ghost function Reads(i: int): iset<(Fs, seq<int>)> {
    iset s: Fs, c: seq<int> | FilesOk(s) && 0 <= i < |s.ino| && c == Contents(s, i) :: (s, c)
  }

  lemma SliceMore(c: seq<int>, off: int, n: int, m: int)
    requires 0 <= off && 0 <= n && 0 <= m && off + n + m <= |c|
    ensures c[off..off + n] + c[off + n..off + n + m] == c[off..off + (n + m)]
  {
  }

  lemma ReadChunk(s: Fs, i: int, cur: int, m: int, addr: int)
    requires FilesOk(s) && 0 <= i < |s.ino| && 0 <= cur < cur + m <= s.ino[i].size <= MAXFILE * BSIZE
    requires cur % BSIZE + m <= BSIZE && addr == BlockAt(s, i, cur / BSIZE) && 0 <= addr < |s.disk|
    ensures s.disk[addr].bytes[cur % BSIZE..cur % BSIZE + m] == Contents(s, i)[cur..cur + m]
  {
    var a, b := s.disk[addr].bytes[cur % BSIZE..cur % BSIZE + m], Contents(s, i)[cur..cur + m];
    forall k | 0 <= k < m
      ensures a[k] == b[k]
    {
      assert (cur + k) / BSIZE == cur / BSIZE && (cur + k) % BSIZE == cur % BSIZE + k;
    }
  }

  /** A chunk is shorter than a block, so it touches at most two. */
  lemma ChunkSpan(off: int, n: int)
    requires 0 <= off && n <= CHUNK
    ensures Span(off, n) <= 2
  {
  }

  /** What readers see of every file. */
  ghost function Files(s: Fs): (c: seq<seq<int>>)
    requires FilesOk(s)
    ensures |c| == |s.ino| && forall i | 0 <= i < |s.ino| :: c[i] == Contents(s, i)
  {
    seq(|s.ino|, i requires 0 <= i < |s.ino| => Contents(s, i))
  }

  /** File i received these bytes from off on, and no other file changed. */
  ghost predicate Wrote(c: seq<seq<int>>, d: seq<seq<int>>, i: int, off: int, bytes: seq<int>) {
    && 0 <= i < |c|
    && (bytes == [] ==> d == c)
    && (bytes != [] ==> 0 <= off <= |c[i]| && d == c[i := Splice(c[i], off, bytes)])
  }

  lemma WroteMore(c: seq<seq<int>>, d: seq<seq<int>>, e: seq<seq<int>>, i: int, off: int, src: seq<int>, n: int, m: int)
    requires 0 <= n < n + m <= |src| && Wrote(c, d, i, off, src[..n]) && Wrote(d, e, i, off + n, src[n..n + m])
    ensures Wrote(c, e, i, off, src[..n + m])
  {
    if n == 0 {
      assert src[..0] == [] && src[0..m] == src[..m];
    } else {
      SpliceTwice(c[i], off, src, n, m);
    }
  }

  lemma SpliceTwice(c: seq<int>, off: int, src: seq<int>, n: int, m: int)
    requires 0 <= off <= |c| && 0 <= n <= n + m <= |src|
    ensures off + n <= |Splice(c, off, src[..n])|
    ensures Splice(Splice(c, off, src[..n]), off + n, src[n..n + m]) == Splice(c, off, src[..n + m])
  {
  }

  lemma AddTwo(s: set<int>, a: int, b: int)
    ensures |s + {a, b}| <= |s| + 2
  {
    assert s + {a, b} == s + {a} + {b};
  }

  lemma FewLogged(before: set<int>, after: set<int>, data: set<int>, table: set<int>, inode: int)
    requires after <= before + data + table + {inode} && |table| <= 2
    ensures |after - before| <= |data| + 3
  {
    SubsetSize(after - before, data + table + {inode});
  }
}
