/** The system calls that change directories, on the file system of fs.c: what they do to the files, and
    how many blocks each gives to log_write.  Which inode a path leads to, which one ialloc picks, and
    whether the last reference to an inode goes are parameters. */
module FileOps {
  import opened FsModel
  import opened FileBytes
  import opened BlockCount
  import opened Truncate
  import opened FileSystem
  import opened Dirents
  import opened Finite
  import LogRoom

  /** readi of one entry: it fails exactly where less than an entry is left. */
  method ReadEntry(fs: FileSystem, ghost s: Fs, ghost c: seq<int>, dp: int, off: int, ghost k: int)
    returns (ok: bool, e: Ent)
    requires fs.Now() == s && fs.dino == s.ino && (s, c) in Reads(dp) && 0 <= off == DIRENT * k < |c|
    modifies fs`bitmap, fs`disk, fs`ino, fs`logged
    ensures fs.Now() == s && fs.logged == old(fs.logged)
    ensures ok <==> k < |Entries(c)|
    ensures ok ==> e == Entries(c)[k]
    ensures !ok ==> |c| % DIRENT != 0
  {
    assert MappedTo(s, dp, s.ino[dp].size);
    var r, de := fs.Readi(dp, off, DIRENT);
    ok := r == DIRENT;
    if ok {
      assert de == Slot(c, k);
      e := EntOf(de);
    } else {
      e := Ent(0, []);
    }
  }

  /** dirlookup: the first entry with that name, inode number 0 if there is none.  It panics exactly if
      the directory ends in part of an entry and the name is not found before. */
  method Dirlookup(fs: FileSystem, ghost s: Fs, ghost c: seq<int>, ghost es: seq<Ent>, dp: int, name: seq<int>)
    returns (ok: bool, inum: int, off: int, ghost k: int)
    requires fs.Now() == s && fs.dino == s.ino && (s, c) in Reads(dp) && es == Entries(c)
    modifies fs`bitmap, fs`disk, fs`ino, fs`logged
    ensures fs.Now() == s && fs.logged == old(fs.logged)
    ensures ok <==> Has(es, name) || |c| % DIRENT == 0
    ensures ok && inum == 0 ==> !Has(es, name)
    ensures ok && inum != 0 ==> 0 <= k < |es| && off == DIRENT * k && Hit(es[k], name) && inum == es[k].inum
    ensures ok && inum != 0 ==> Missed(es, k, name)
  {
    off, k := 0, 0;
    while off < fs.ino[dp].size
      invariant fs.Now() == s && fs.logged == old(fs.logged) && off == DIRENT * k && 0 <= k <= |es|
      invariant Missed(es, k, name)
      decreases |c| - off
    {
      var e;
      ok, e := ReadEntry(fs, s, c, dp, off, k);
      if !ok {
        return false, 0, off, k;
      }
      if Hit(e, name) {
        return true, e.inum, off, k;
      }
      MissedNext(es, k, name);
      off, k := off + DIRENT, k + 1;
    }
    return true, 0, off, k;
  }

  /** None of the first n entries is free. */
  ghost predicate Taken(es: seq<Ent>, n: int) {
    0 <= n <= |es| && forall j | 0 <= j < n :: es[j].inum != 0
  }

  lemma TakenNext(es: seq<Ent>, n: int)
    requires Taken(es, n) && n < |es| && es[n].inum != 0
    ensures Taken(es, n + 1)
  {
  }

  /** Slot k is the first free one, or none is and k is behind the last. */
  ghost predicate FirstFree(es: seq<Ent>, k: int) {
    Taken(es, k) && (k < |es| ==> es[k].inum == 0)
  }

  /** The second loop of dirlink. */
  method FindFree(fs: FileSystem, ghost s: Fs, ghost c: seq<int>, ghost es: seq<Ent>, dp: int)
    returns (off: int, ghost k: int)
    requires fs.Now() == s && fs.dino == s.ino && (s, c) in Reads(dp) && es == Entries(c) && |c| % DIRENT == 0
    modifies fs`bitmap, fs`disk, fs`ino, fs`logged
    ensures fs.Now() == s && fs.logged == old(fs.logged)
    ensures 0 <= off == DIRENT * k <= |c| && FirstFree(es, k)
  {
    off, k := 0, 0;
    while off < fs.ino[dp].size
      invariant fs.Now() == s && fs.logged == old(fs.logged) && off == DIRENT * k
      invariant Taken(es, k)
      decreases |c| - off
    {
      var ok, e := ReadEntry(fs, s, c, dp, off, k);
      assert ok;
      if e.inum == 0 {
        return;
      }
      TakenNext(es, k);
      off, k := off + DIRENT, k + 1;
    }
  }

  /** The states that writing entry e into slot k of directory dp leads to: only that file has changed, and
      none of its blocks has moved. */
  ghost function Entered(s: Fs, dp: int, k: int, e: seq<int>): iset<Fs> {
    iset t | FilesOk(s) && FilesOk(t) && |t.ino| == |s.ino| && 0 <= dp < |s.ino| && t in Staying(s, dp)
             && 0 <= DIRENT * k <= s.ino[dp].size && Contents(t, dp) == Splice(Contents(s, dp), DIRENT * k, e)
             && forall f | 0 <= f < |s.ino| && f != dp :: Contents(t, f) == Contents(s, f) && t.ino[f] == s.ino[f]
  }

  /** The blocks that writing slot k of directory dp may log: the one it is in, the table, their bitmap
      blocks, and the inode's. */
  ghost function EntryBlocks(fs: FileSystem, s: Fs, dp: int, k: int): set<int>
    requires Shape(s) && 0 <= dp < |s.ino| && 0 <= k < MAXBYTES / DIRENT
  {
    fs.Both(BlockAt(s, dp, k / (BSIZE / DIRENT))) + fs.TableBlocks(s.ino[dp].addrs[NDIRECT]) + {fs.IBlock(dp)}
  }

  /** Entries do not straddle blocks. */
  lemma EntryInBlock(k: int)
    requires 0 <= k
    ensures InOneBlock(DIRENT * k, DIRENT) && LastBlock(DIRENT * k, DIRENT) == k / (BSIZE / DIRENT)
  {
  }

  /** writei of one entry: -1 exactly if the directory is as large as a file can be, -2 exactly if it has
      to grow and there are too few unused blocks. */
  method WriteEntry(fs: FileSystem, ghost s: Fs, ghost c: seq<int>, dp: int, off: int, ghost k: int, e: seq<int>)
    returns (r: int)
    requires fs.Now() == s && fs.dino == s.ino && (s, c) in Reads(dp) && |e| == DIRENT && 0 <= off == DIRENT * k <= |c|
    modifies fs`bitmap, fs`disk, fs`ino, fs`dino, fs`logged
    ensures r == -1 <==> off + DIRENT > MAXBYTES
    ensures r == -2 <==> r != -1 && Unused(s.bitmap) < Grown(|c|, off + DIRENT)
    ensures r != -1 && r != -2 ==> r == DIRENT && fs.Valid() && fs.Now() in Entered(s, dp, k, e)
    ensures r == DIRENT ==> fs.logged <= old(fs.logged) + EntryBlocks(fs, fs.Now(), dp, k)
    ensures r == DIRENT ==> Unused(fs.bitmap) == Unused(s.bitmap) - Grown(|c|, off + DIRENT)
  {
    EntryInBlock(k);
    assert MappedTo(s, dp, s.ino[dp].size);
    r := fs.Writei(dp, off, e);
  }

  datatype Linked = Linked | Exists | Damaged | Full | NoBlock

  /** How an entry goes into the first free slot k of a directory of e bytes: not at all exactly if that
      makes the file too long or needs more blocks than are unused. */
  ghost predicate Placed(r: Linked, s: Fs, e: int, es: seq<Ent>, k: int) {
    && FirstFree(es, k) && (r.Linked? || r.Full? || r.NoBlock?)
    && (r.Full? <==> DIRENT * k + DIRENT > MAXBYTES)
    && (r.NoBlock? <==> !r.Full? && Unused(s.bitmap) < Grown(e, DIRENT * k + DIRENT))
  }

  /** dirlink when the name is not there. */
  method AddEntry(fs: FileSystem, ghost s: Fs, ghost c: seq<int>, ghost es: seq<Ent>, dp: int, e: seq<int>)
    returns (r: Linked, ghost k: int)
    requires fs.Now() == s && fs.dino == s.ino && (s, c) in Reads(dp) && es == Entries(c)
    requires |c| % DIRENT == 0 && |e| == DIRENT
    modifies fs`bitmap, fs`disk, fs`ino, fs`dino, fs`logged
    ensures Placed(r, s, |c|, es, k)
    ensures r.Linked? ==> Unused(fs.bitmap) == Unused(s.bitmap) - Grown(|c|, DIRENT * k + DIRENT)
    ensures r.Linked? ==> fs.Valid() && fs.Now() in Entered(s, dp, k, e)
    ensures r.Linked? ==> fs.logged <= old(fs.logged) + EntryBlocks(fs, fs.Now(), dp, k)
  {
    var off;
    off, k := FindFree(fs, s, c, es, dp);
    var w := WriteEntry(fs, s, c, dp, off, k, e);
    r := if w == -1 then Full else if w == -2 then NoBlock else Linked;
  }

  /** dirlink: refused if the name is there; otherwise the entry goes into the first free slot.  The other
      three outcomes are panics: part of an entry at the end, no room in the file, no block for it. */
  method Dirlink(fs: FileSystem, ghost s: Fs, ghost c: seq<int>, ghost es: seq<Ent>, dp: int, name: seq<int>, inum: int)
    returns (r: Linked, ghost k: int)
    requires fs.Now() == s && fs.dino == s.ino && (s, c) in Reads(dp) && es == Entries(c) && IsName(name)
    modifies fs`bitmap, fs`disk, fs`ino, fs`dino, fs`logged
    ensures r.Exists? <==> Has(es, name)
    ensures r.Damaged? <==> !Has(es, name) && |c| % DIRENT != 0
    ensures r.Exists? || r.Damaged? ==> fs.Now() == s && fs.dino == s.ino && fs.logged == old(fs.logged)
    ensures !r.Exists? && !r.Damaged? ==> Placed(r, s, |c|, es, k)
    ensures r.Linked? ==> Unused(fs.bitmap) == Unused(s.bitmap) - Grown(|c|, DIRENT * k + DIRENT)
    ensures r.Linked? ==> fs.Valid() && fs.Now() in Entered(s, dp, k, Entry(inum, name))
    ensures r.Linked? ==> fs.logged <= old(fs.logged) + EntryBlocks(fs, fs.Now(), dp, k)
  {
    var ok, found, off;
    ok, found, off, k := Dirlookup(fs, s, c, es, dp, name);
    if !ok {
      return Damaged, k;
    }
    if found != 0 {
      return Exists, k;
    }
    r, k := AddEntry(fs, s, c, es, dp, Entry(inum, name));
  }

  /** If es binds names, so does fs, and it binds name as well. */
  ghost predicate Bound(es: seq<Ent>, fs: seq<Ent>, name: seq<int>, inum: int) {
    IsDir(es) ==> IsDir(fs) && Binds(fs) == Binds(es)[name := inum]
  }

  /** What dirlink writes is bound from then on, and nothing else changes. */
  lemma EnteredBinds(s: Fs, t: Fs, c: seq<int>, dp: int, k: int, name: seq<int>, inum: int)
    requires (s, c) in Reads(dp) && |c| % DIRENT == 0 && IsDir(Entries(c)) && !Has(Entries(c), name)
    requires IsName(name) && FirstFree(Entries(c), k) && inum % 65536 != 0 && t in Entered(s, dp, k, Entry(inum, name))
    ensures IsDir(Entries(Contents(t, dp)))
    ensures Binds(Entries(Contents(t, dp))) == Binds(Entries(c))[name := inum % 65536]
  {
    SpliceSlot(c, k, Entry(inum, name));
    EntryReads(inum, name);
    LinkBinds(Entries(c), k, Ent(inum % 65536, name));
  }

  lemma EntryBlocksFew(fs: FileSystem, s: Fs, dp: int, k: int)
    requires Shape(s) && 0 <= dp < |s.ino| && 0 <= k < MAXBYTES / DIRENT
    ensures |EntryBlocks(fs, s, dp, k)| <= 5
  {
    var a, t := fs.Both(BlockAt(s, dp, k / (BSIZE / DIRENT))), fs.TableBlocks(s.ino[dp].addrs[NDIRECT]);
    UnionSize(a, t);
    UnionSize(a + t, {fs.IBlock(dp)});
  }

  /** sys_link on inode ip: the name is bound to it, or nothing changes because the name is there.  It logs
      at most six blocks. */
  method Link(fs: FileSystem, ip: int, dp: int, name: seq<int>) returns (r: Linked, ghost k: int)
    requires fs.Valid() && 0 <= ip < |fs.ino| && 0 <= dp < |fs.ino| && IsName(name)
    modifies fs`bitmap, fs`disk, fs`ino, fs`dino, fs`logged
    ensures r.Exists? <==> Has(Entries(old(Contents(fs.Now(), dp))), name)
    ensures r.Damaged? <==> !r.Exists? && |old(Contents(fs.Now(), dp))| % DIRENT != 0
    ensures !r.Exists? && !r.Damaged? ==>
              Placed(r, old(fs.Now()), old(fs.ino)[dp].size, Entries(old(Contents(fs.Now(), dp))), k)
    ensures r.Exists? ==> fs.Valid() && fs.Now() == old(fs.Now())
    ensures r.Linked? ==> fs.Valid() && fs.Now() in Entered(old(fs.Now()), dp, k, Entry(ip, name))
    ensures r.Linked? && ip % 65536 != 0 ==>
              Bound(Entries(old(Contents(fs.Now(), dp))), Entries(Contents(fs.Now(), dp)), name, ip % 65536)
    ensures r.Linked? || r.Exists? ==> |fs.logged| <= 6 <= LogRoom.SAFE
  {
    ghost var s, c := fs.Now(), Contents(fs.Now(), dp);
    fs.logged := {};  // begin_op
    fs.Iupdate(ip);
    r, k := Dirlink(fs, s, c, Entries(c), dp, name, ip);
    if r.Exists? {
      fs.Iupdate(ip);
    } else if r.Linked? {
      ghost var more := EntryBlocks(fs, fs.Now(), dp, k);
      EntryBlocksFew(fs, fs.Now(), dp, k);
      UnionSize({fs.IBlock(ip)}, more);
      SubsetSize(fs.logged, {fs.IBlock(ip)} + more);
      if ip % 65536 != 0 && IsDir(Entries(c)) {
        EnteredBinds(s, fs.Now(), c, dp, k, name, ip);
      }
    }
  }

  datatype Unlinked = Unlinked | Missing | Broken

  /** The bitmap blocks of what writing an entry logs are among all bitmap blocks. */
  lemma EntryBlocksIn(fs: FileSystem, s: Fs, dp: int, k: int)
    requires FilesOk(s) && 0 <= dp < |s.ino| && 0 <= k && DIRENT * k < s.ino[dp].size
    ensures k < MAXBYTES / DIRENT
    ensures exists a, t :: EntryBlocks(fs, s, dp, k) <= {a, t, fs.IBlock(dp)} + fs.BitBlocks(|s.bitmap|)
  {
    assert MappedTo(s, dp, s.ino[dp].size);
    var bn := k / (BSIZE / DIRENT);
    var a, t := BlockAt(s, dp, bn), s.ino[dp].addrs[NDIRECT];
    assert IsPos(s, PosOf(dp, bn)) && IsPos(s, Table(dp)) && a != 0;
    fs.AllCovered({}, |s.bitmap|);
    assert EntryBlocks(fs, s, dp, k) <= {a, t, fs.IBlock(dp)} + fs.BitBlocks(|s.bitmap|);
  }

  lemma FewInUnlink(fs: FileSystem, l: set<int>, more: set<int>, ip: int, dp: int, n: nat)
    requires exists a, t :: more <= {a, t, fs.IBlock(dp)} + fs.BitBlocks(n)
    requires l <= more + {fs.IBlock(ip), fs.IBlock(dp)} + fs.BitBlocks(n)
    ensures |l| <= 4 + BitmapSize(n)
  {
    var a, t :| more <= {a, t, fs.IBlock(dp)} + fs.BitBlocks(n);
    var four := {a, t, fs.IBlock(dp), fs.IBlock(ip)};
    UnionSize(four, fs.BitBlocks(n));
    SubsetSize(l, four + fs.BitBlocks(n));
  }

  lemma FreedBinds(s: Fs, t: Fs, c: seq<int>, dp: int, k: int, name: seq<int>)
    requires (s, c) in Reads(dp) && |c| % DIRENT == 0 && IsDir(Entries(c))
    requires 0 <= k < |Entries(c)| && Hit(Entries(c)[k], name) && t in Entered(s, dp, k, Pad(DIRENT))
    ensures IsDir(Entries(Contents(t, dp))) && Binds(Entries(Contents(t, dp))) == Binds(Entries(c)) - {name}
  {
    SpliceSlot(c, k, Pad(DIRENT));
    assert Inum(Pad(DIRENT)) == 0;
    UnlinkBinds(Entries(c), k, EntOf(Pad(DIRENT)));
  }

  /** What unlink leaves: the name unbound, an inode without references empty, and all else as it was. */
  ghost predicate Gone(s: Fs, u: Fs, dp: int, ip: int, name: seq<int>, last: bool) {
    && FilesOk(s) && FilesOk(u) && 0 <= dp < |s.ino| == |u.ino| && 0 <= ip < |s.ino|
    && (last ==> Contents(u, ip) == [])
    && (forall f | 0 <= f < |s.ino| && f != dp && !(last && f == ip) :: Contents(u, f) == Contents(s, f))
    && var es := Entries(Contents(s, dp));
    && (|Contents(s, dp)| % DIRENT == 0 && IsDir(es) ==> name in Binds(es) && Binds(es)[name] == ip)
    && (|Contents(s, dp)| % DIRENT == 0 && IsDir(es) && !(last && ip == dp) ==>
          IsDir(Entries(Contents(u, dp))) && Binds(Entries(Contents(u, dp))) == Binds(es) - {name})
  }

  lemma NowGone(s: Fs, t: Fs, c: seq<int>, dp: int, k: int, ip: int, name: seq<int>, last: bool)
    requires (s, c) in Reads(dp) && 0 <= k < |Entries(c)| && Hit(Entries(c)[k], name) && ip == Entries(c)[k].inum
    requires t in Entered(s, dp, k, Pad(DIRENT)) && 0 <= ip < |t.ino|
    ensures Gone(s, if last then Truncated(t, ip) else t, dp, ip, name, last)
  {
    if last {
      TruncateKeepsFiles(t, ip);
    }
    if |c| % DIRENT == 0 && IsDir(Entries(c)) {
      HitBinds(Entries(c), k, name);
      FreedBinds(s, t, c, dp, k, name);
    }
  }

  /** fs_unlink: its writei always succeeds, for it stays inside the directory. */
  method ClearEntry(fs: FileSystem, ghost s: Fs, ghost c: seq<int>, dp: int, off: int, ghost k: int)
    requires fs.Now() == s && fs.dino == s.ino && (s, c) in Reads(dp) && 0 <= k < |Entries(c)| && off == DIRENT * k
    modifies fs`bitmap, fs`disk, fs`ino, fs`dino, fs`logged
    ensures fs.Valid() && fs.Now() in Entered(s, dp, k, Pad(DIRENT)) && DIRENT * k < fs.ino[dp].size
    ensures k < MAXBYTES / DIRENT && fs.logged <= old(fs.logged) + EntryBlocks(fs, fs.Now(), dp, k)
  {
    assert MappedTo(s, dp, s.ino[dp].size);
    var w := WriteEntry(fs, s, c, dp, off, k, Pad(DIRENT));
    assert w == DIRENT;
    assert |Contents(fs.Now(), dp)| == |c|;
  }

  /** The end of sys_unlink: iupdate the directory if a directory goes, iupdate the inode, and iput it. */
  method Drop(fs: FileSystem, ghost t: Fs, dp: int, ip: int, isdir: bool, last: bool)
    requires fs.Now() == t && fs.Valid() && 0 <= dp < |t.ino| && 0 <= ip < |t.ino|
    modifies fs`bitmap, fs`ino, fs`dino, fs`logged
    ensures fs.Valid() && fs.Now() == if last then Truncated(t, ip) else t
    ensures fs.logged <= old(fs.logged) + {fs.IBlock(ip), fs.IBlock(dp)} + fs.BitBlocks(|t.bitmap|)
  {
    if isdir {
      fs.Iupdate(dp);
    }
    fs.Iupdate(ip);
    if last {
      fs.Itrunc(ip);
      fs.Iupdate(ip);
    }
  }

  /** sys_unlink: the name is bound no more, and the file loses its contents if that was the last
      reference to it.  It logs at most four blocks besides the bitmap. */
  method Unlink(fs: FileSystem, dp: int, name: seq<int>, isdir: bool, last: bool)
    returns (r: Unlinked, ip: int, ghost k: int, ghost t: Fs)
    requires fs.Valid() && 0 <= dp < |fs.ino|
    requires forall e | e in Entries(Contents(fs.Now(), dp)) :: 0 <= e.inum < |fs.ino|
    modifies fs`bitmap, fs`disk, fs`ino, fs`dino, fs`logged
    ensures r.Unlinked? <==> Has(Entries(old(Contents(fs.Now(), dp))), name)
    ensures r.Broken? <==> !r.Unlinked? && |old(Contents(fs.Now(), dp))| % DIRENT != 0
    ensures r.Missing? || r.Broken? ==> fs.Valid() && fs.Now() == old(fs.Now()) && fs.logged == {}
    ensures r.Unlinked? ==> t in Entered(old(fs.Now()), dp, k, Pad(DIRENT)) && 0 <= ip < |t.ino|
    ensures r.Unlinked? ==> fs.Valid() && fs.Now() == if last then Truncated(t, ip) else t
    ensures r.Unlinked? ==> Gone(old(fs.Now()), fs.Now(), dp, ip, name, last)
    ensures r.Unlinked? ==> |fs.logged| <= 4 + BitmapSize(|fs.bitmap|)
    ensures r.Unlinked? && BitmapSize(|fs.bitmap|) <= 5 ==> |fs.logged| <= LogRoom.SAFE
  {
    ghost var s, c := fs.Now(), Contents(fs.Now(), dp);
    fs.logged := {};  // begin_op
    t := s;
    var ok, off;
    ok, ip, off, k := Dirlookup(fs, s, c, Entries(c), dp, name);
    if !ok {
      return Broken, ip, k, t;
    }
    if ip == 0 {
      return Missing, ip, k, t;
    }
    assert Entries(c)[k] in Entries(c);
    ClearEntry(fs, s, c, dp, off, k);
    t := fs.Now();
    EntryBlocksIn(fs, t, dp, k);
    Drop(fs, t, dp, ip, isdir, last);
    FewInUnlink(fs, fs.logged, EntryBlocks(fs, t, dp, k), ip, dp, |t.bitmap|);
    NowGone(s, t, c, dp, k, ip, name, last);
    r := Unlinked;
  }

  const DOT: seq<int> := [46]
  const DOTDOT: seq<int> := [46, 46]

  /** A directory of at most two entries has no table. */
  lemma FirstBlockOnly(fs: FileSystem, s: Fs, ip: int, k: int)
    requires FilesOk(s) && 0 <= ip < |s.ino| && 0 <= k < 2 && 0 < s.ino[ip].size <= 2 * DIRENT
    ensures BlockAt(s, ip, 0) != 0
    ensures EntryBlocks(fs, s, ip, k) == fs.Both(BlockAt(s, ip, 0)) + {fs.IBlock(ip)}
  {
    assert MappedTo(s, ip, s.ino[ip].size);
  }

  lemma OneEntry(ip: int)
    requires 0 < ip < 65536
    ensures Entries(Entry(ip, DOT)) == [Ent(ip, DOT)]
  {
    EntryReads(ip, DOT);
    assert Slot(Entry(ip, DOT), 0) == Entry(ip, DOT);
  }

  /** A new directory with its two entries, and all else as it was. */
  ghost function Dotted(s: Fs, ip: int, dp: int): iset<Fs> {
    iset t | FilesOk(s) && FilesOk(t) && 0 <= ip < |s.ino| == |t.ino|
             && Contents(t, ip) == Entry(ip, DOT) + Entry(dp, DOTDOT)
             && forall f | 0 <= f < |s.ino| && f != ip :: Contents(t, f) == Contents(s, f) && t.ino[f] == s.ino[f]
  }

  lemma DotIn(fs: FileSystem, s: Fs, t: Fs, ip: int)
    requires t in Entered(s, ip, 0, Entry(ip, DOT)) && 0 < ip < 65536 && s.ino[ip].size == 0
    ensures (t, Entry(ip, DOT)) in Reads(ip) && BlockAt(t, ip, 0) != 0
    ensures EntryBlocks(fs, t, ip, 0) == fs.Both(BlockAt(t, ip, 0)) + {fs.IBlock(ip)}
  {
    assert Contents(s, ip) == [];
    assert Contents(t, ip) == Entry(ip, DOT);
    FirstBlockOnly(fs, t, ip, 0);
  }

  lemma DotDotIn(fs: FileSystem, t: Fs, u: Fs, ip: int, dp: int)
    requires (t, Entry(ip, DOT)) in Reads(ip) && u in Entered(t, ip, 1, Entry(dp, DOTDOT)) && BlockAt(t, ip, 0) != 0
    ensures Contents(u, ip) == Entry(ip, DOT) + Entry(dp, DOTDOT) && BlockAt(u, ip, 0) == BlockAt(t, ip, 0)
    ensures EntryBlocks(fs, u, ip, 1) == fs.Both(BlockAt(t, ip, 0)) + {fs.IBlock(ip)}
  {
    assert Contents(u, ip) == Splice(Entry(ip, DOT), DIRENT, Entry(dp, DOTDOT));
    FirstBlockOnly(fs, u, ip, 1);
  }

  lemma BothDots(s: Fs, t: Fs, u: Fs, ip: int, dp: int)
    requires t in Entered(s, ip, 0, Entry(ip, DOT)) && u in Entered(t, ip, 1, Entry(dp, DOTDOT))
    requires Contents(u, ip) == Entry(ip, DOT) + Entry(dp, DOTDOT)
    ensures u in Dotted(s, ip, dp)
  {
  }

  /** "." takes one block and ".." none. */
  lemma DotsCost()
    ensures Grown(0, DIRENT) == 1 && Grown(DIRENT, DIRENT + DIRENT) == 0
  {
    assert Cost(0) == 0 && Cost(DIRENT) == 1 && Cost(DIRENT + DIRENT) == 1;
  }

  method AddDot(fs: FileSystem, ghost s: Fs, ip: int) returns (r: Linked)
    requires fs.Now() == s && fs.dino == s.ino && (s, []) in Reads(ip) && 0 < ip < 65536
    modifies fs`bitmap, fs`disk, fs`ino, fs`dino, fs`logged
    ensures (r.Linked? || r.NoBlock?) && (r.NoBlock? <==> Unused(s.bitmap) == 0)
    ensures r.Linked? ==> Unused(fs.bitmap) == Unused(s.bitmap) - 1
    ensures r.Linked? ==> fs.Valid() && fs.Now() in Entered(s, ip, 0, Entry(ip, DOT))
    ensures r.Linked? ==> (fs.Now(), Entry(ip, DOT)) in Reads(ip) && BlockAt(fs.Now(), ip, 0) != 0
    ensures r.Linked? ==> fs.logged <= old(fs.logged) + (fs.Both(BlockAt(fs.Now(), ip, 0)) + {fs.IBlock(ip)})
  {
    ghost var k;
    r, k := Dirlink(fs, s, [], [], ip, DOT, ip);
    DotsCost();
    assert k == 0;
    if r.Linked? {
      DotIn(fs, s, fs.Now(), ip);
    }
  }

  method AddDotDot(fs: FileSystem, ghost t: Fs, ip: int, dp: int) returns (r: Linked)
    requires fs.Now() == t && fs.dino == t.ino && (t, Entry(ip, DOT)) in Reads(ip) && 0 < ip < 65536
    requires BlockAt(t, ip, 0) != 0
    modifies fs`bitmap, fs`disk, fs`ino, fs`dino, fs`logged
    ensures r.Linked? && Unused(fs.bitmap) == Unused(t.bitmap)
    ensures r.Linked? ==> fs.Valid() && fs.Now() in Entered(t, ip, 1, Entry(dp, DOTDOT))
    ensures r.Linked? ==> Contents(fs.Now(), ip) == Entry(ip, DOT) + Entry(dp, DOTDOT)
    ensures r.Linked? ==> BlockAt(fs.Now(), ip, 0) == BlockAt(t, ip, 0)
    ensures r.Linked? ==> fs.logged <= old(fs.logged) + (fs.Both(BlockAt(t, ip, 0)) + {fs.IBlock(ip)})
  {
    ghost var k;
    OneEntry(ip);
    r, k := Dirlink(fs, t, Entry(ip, DOT), [Ent(ip, DOT)], ip, DOTDOT, dp);
    DotsCost();
    assert k == 1;
    if r.Linked? {
      DotDotIn(fs, t, fs.Now(), ip, dp);
    }
  }

  /** create's "." and ".." in a new directory: they share its first block. */
  method Dots(fs: FileSystem, ghost s: Fs, ip: int, dp: int) returns (r: Linked)
    requires fs.Now() == s && fs.dino == s.ino && (s, []) in Reads(ip) && 0 < ip < 65536
    modifies fs`bitmap, fs`disk, fs`ino, fs`dino, fs`logged
    ensures (r.Linked? || r.NoBlock?) && (r.NoBlock? <==> Unused(s.bitmap) == 0)
    ensures r.Linked? ==> Unused(fs.bitmap) == Unused(s.bitmap) - 1
    ensures r.Linked? ==> fs.Valid() && fs.Now() in Dotted(s, ip, dp)
    ensures r.Linked? ==> fs.logged <= old(fs.logged) + (fs.Both(BlockAt(fs.Now(), ip, 0)) + {fs.IBlock(ip)})
  {
    r := AddDot(fs, s, ip);
    if r.Linked? {
      ghost var t := fs.Now();
      r := AddDotDot(fs, t, ip, dp);
      if r.Linked? {
        BothDots(s, t, fs.Now(), ip, dp);
      }
    }
  }

  /** What create leaves: the name bound to the new inode, a new directory with its two entries, and all
      else as it was. */
  ghost predicate Made(s: Fs, u: Fs, ip: int, dp: int, name: seq<int>, isdir: bool) {
    && FilesOk(s) && FilesOk(u) && 0 <= dp < |s.ino| == |u.ino| && 0 < ip < |s.ino| && ip < 65536
    && Contents(u, ip) == (if isdir then Entry(ip, DOT) + Entry(dp, DOTDOT) else [])
    && (forall f | 0 <= f < |s.ino| && f != ip && f != dp :: Contents(u, f) == Contents(s, f))
    && Bound(Entries(Contents(s, dp)), Entries(Contents(u, dp)), name, ip)
  }

  /** The states before create's last step: the new inode is ready, and no other file has changed. */
  ghost function Ready(s: Fs, ip: int, dp: int, isdir: bool): iset<Fs> {
    iset t | FilesOk(s) && FilesOk(t) && |t.ino| == |s.ino|
             && 0 <= dp < |s.ino| && 0 < ip < |s.ino| && ip < 65536 && ip != dp
             && Contents(t, ip) == (if isdir then Entry(ip, DOT) + Entry(dp, DOTDOT) else [])
             && forall f | 0 <= f < |s.ino| && f != ip :: Contents(t, f) == Contents(s, f)
  }

  lemma NowMade(s: Fs, t: Fs, u: Fs, c: seq<int>, ip: int, dp: int, k: int, name: seq<int>, isdir: bool)
    requires t in Ready(s, ip, dp, isdir)
    requires c == Contents(s, dp) && (t, c) in Reads(dp) && |c| % DIRENT == 0 && !Has(Entries(c), name)
    requires IsName(name) && FirstFree(Entries(c), k) && u in Entered(t, dp, k, Entry(ip, name))
    ensures Made(s, u, ip, dp, name, isdir)
  {
    assert Bound(Entries(c), Entries(Contents(u, dp)), name, ip) by {
      if IsDir(Entries(c)) {
        FitsUshort(ip);
        EnteredBinds(t, u, c, dp, k, name, ip);
      }
    }
    ReadyMade(s, t, u, ip, dp, k, name, isdir);
  }

  lemma FitsUshort(n: int)
    requires 0 <= n < 65536
    ensures n % 65536 == n
  {
  }

  lemma ReadyMade(s: Fs, t: Fs, u: Fs, ip: int, dp: int, k: int, name: seq<int>, isdir: bool)
    requires t in Ready(s, ip, dp, isdir) && IsName(name) && u in Entered(t, dp, k, Entry(ip, name))
    requires Bound(Entries(Contents(s, dp)), Entries(Contents(u, dp)), name, ip)
    ensures Made(s, u, ip, dp, name, isdir)
  {
  }

  lemma FewInCreate(l: set<int>, a: set<int>, more: set<int>, i: int, d: int)
    requires l <= {i, d} + a + more && |a| <= 2 && |more| <= 5 && d in more
    ensures |l| <= 8
  {
    UnionSize({i} + a, more);
    UnionSize({i}, a);
    SubsetSize(l, {i} + a + more);
  }

  /** How create ends when the name is not there: a new directory needs a block for its own entries before
      its parent's entry is placed in slot k. */
  ghost predicate Founded(r: Linked, s: Fs, e: int, es: seq<Ent>, k: int, isdir: bool) {
    && FirstFree(es, k) && (r.Linked? || r.Full? || r.NoBlock?)
    && (r.Full? <==> DIRENT * k + DIRENT > MAXBYTES && Unused(s.bitmap) >= One(isdir))
    && (r.NoBlock? <==> Unused(s.bitmap) < One(isdir)
                        || (DIRENT * k + DIRENT <= MAXBYTES && Unused(s.bitmap) < One(isdir) + Grown(e, DIRENT * k + DIRENT)))
  }

  ghost function FreeFrom(es: seq<Ent>, k: int): (r: int)
    requires Taken(es, k)
    ensures FirstFree(es, r)
    decreases |es| - k
  {
    if k < |es| && es[k].inum != 0 then TakenNext(es, k); FreeFrom(es, k + 1) else k
  }

  /** create, with ip the inode that ialloc finds.  It logs at most eight blocks. */
  method Create(fs: FileSystem, ip: int, dp: int, name: seq<int>, isdir: bool) returns (r: Linked, ghost k: int)
    requires fs.Valid() && 0 <= dp < |fs.ino| && 0 < ip < |fs.ino| && ip < 65536 && ip != dp && fs.ino[ip].size == 0
    requires IsName(name)
    modifies fs`bitmap, fs`disk, fs`ino, fs`dino, fs`logged
    ensures r.Exists? <==> Has(Entries(old(Contents(fs.Now(), dp))), name)
    ensures r.Damaged? <==> !r.Exists? && |old(Contents(fs.Now(), dp))| % DIRENT != 0
    ensures r.Exists? || r.Damaged? ==> fs.Valid() && fs.Now() == old(fs.Now()) && fs.logged == {}
    ensures !r.Exists? && !r.Damaged? ==>
              Founded(r, old(fs.Now()), old(fs.ino)[dp].size, Entries(old(Contents(fs.Now(), dp))), k, isdir)
    ensures r.Linked? ==> fs.Valid() && Made(old(fs.Now()), fs.Now(), ip, dp, name, isdir)
    ensures r.Linked? ==> |fs.logged| <= 8 <= LogRoom.SAFE
  {
    ghost var s, c := fs.Now(), Contents(fs.Now(), dp);
    fs.logged := {};  // begin_op
    var ok, found, off;
    ok, found, off, k := Dirlookup(fs, s, c, Entries(c), dp, name);
    if !ok {
      return Damaged, k;
    }
    if found != 0 {
      return Exists, k;
    }
    r, k := Make(fs, s, c, ip, dp, name, isdir);
  }

  /** create when the name is not there. */
  method Make(fs: FileSystem, ghost s: Fs, ghost c: seq<int>, ip: int, dp: int, name: seq<int>, isdir: bool)
    returns (r: Linked, ghost k: int)
    requires fs.Now() == s && fs.Valid() && 0 <= dp < |s.ino| && 0 < ip < |s.ino| && ip < 65536 && ip != dp
    requires s.ino[ip].size == 0 && c == Contents(s, dp) && IsName(name) && fs.logged == {}
    requires |c| % DIRENT == 0 && !Has(Entries(c), name)
    modifies fs`bitmap, fs`disk, fs`ino, fs`dino, fs`logged
    ensures Founded(r, s, |c|, Entries(c), k, isdir)
    ensures r.Linked? ==> fs.Valid() && Made(s, fs.Now(), ip, dp, name, isdir)
    ensures r.Linked? ==> |fs.logged| <= 8 <= LogRoom.SAFE
  {
    r := MakeInode(fs, s, ip, dp, isdir);
    k := FreeFrom(Entries(c), 0);
    if r.Linked? {
      r, k := Enlist(fs, s, fs.Now(), c, fs.Both(BlockAt(fs.Now(), ip, 0)), ip, dp, name, isdir);
    }
  }

  /** The end of create: the entry in the parent. */
  method Enlist(fs: FileSystem, ghost s: Fs, ghost t: Fs, ghost c: seq<int>, ghost b: set<int>, ip: int, dp: int,
                name: seq<int>, ghost isdir: bool)
    returns (r: Linked, ghost k: int)
    requires fs.Now() == t && fs.dino == t.ino && t in Ready(s, ip, dp, isdir) && c == Contents(s, dp) && IsName(name)
    requires |c| % DIRENT == 0 && !Has(Entries(c), name)
    requires fs.logged <= {fs.IBlock(ip), fs.IBlock(dp)} + b && |b| <= 2
    modifies fs`bitmap, fs`disk, fs`ino, fs`dino, fs`logged
    ensures Placed(r, t, |c|, Entries(c), k)
    ensures r.Linked? ==> fs.Valid() && Made(s, fs.Now(), ip, dp, name, isdir) && |fs.logged| <= 8 <= LogRoom.SAFE
  {
    assert (t, c) in Reads(dp);
    r, k := Dirlink(fs, t, c, Entries(c), dp, name, ip);
    if r.Linked? {
      NowMade(s, t, fs.Now(), c, ip, dp, k, name, isdir);
      EntryBlocksFew(fs, fs.Now(), dp, k);
      FewInCreate(fs.logged, b, EntryBlocks(fs, fs.Now(), dp, k), fs.IBlock(ip), fs.IBlock(dp));
    }
  }

  /** create up to the entry in the parent: ialloc and the iupdates, and the entries of a new directory. */
  method MakeInode(fs: FileSystem, ghost s: Fs, ip: int, dp: int, isdir: bool) returns (r: Linked)
    requires fs.Now() == s && fs.Valid() && 0 <= dp < |s.ino| && 0 < ip < |s.ino| && ip < 65536 && ip != dp
    requires s.ino[ip].size == 0
    modifies fs`bitmap, fs`disk, fs`ino, fs`dino, fs`logged
    ensures (r.Linked? || r.NoBlock?) && (r.NoBlock? <==> isdir && Unused(s.bitmap) == 0)
    ensures r.Linked? ==> Unused(fs.bitmap) == Unused(s.bitmap) - One(isdir)
    ensures r.Linked? ==> fs.Valid() && fs.Now() in Ready(s, ip, dp, isdir)
    ensures r.Linked? ==> fs.logged <= old(fs.logged) + {fs.IBlock(ip), fs.IBlock(dp)} + fs.Both(BlockAt(fs.Now(), ip, 0))
  {
    fs.Iupdate(ip);  // ialloc writes the same block
    r := Linked;
    assert Contents(s, ip) == [];
    if isdir {
      fs.Iupdate(dp);
      r := Dots(fs, s, ip, dp);
    }
  }
}
