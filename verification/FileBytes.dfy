/** What bmap and the loop of writei do to files seen as byte sequences. */
module FileBytes {
  import opened FsModel

  /** c with src laid over it from off on, growing if src reaches past the end. */
  function Splice(c: seq<int>, off: int, src: seq<int>): seq<int>
    requires 0 <= off <= |c|
  {
    c[..off] + src + if off + |src| < |c| then c[off + |src|..] else []
  }

  /** What bmap(i, bn) does to s: an existing block is found and nothing changes; otherwise a zeroed
      block that was free is now block bn of file i (and a table may have been added), and every other
      block of every file is where and what it was. */
  ghost predicate Bmapped(s: Fs, t: Fs, i: int, bn: int, addr: int) {
    && Owned(s) && Owned(t) && Keeps(s, t) && t.nmeta == s.nmeta
    && 0 <= i < |s.ino| && 0 <= bn < MAXFILE
    && addr == BlockAt(t, i, bn) != 0 && 0 <= addr < |t.disk|
    && (BlockAt(s, i, bn) != 0 ==> t == s)
    && (BlockAt(s, i, bn) == 0 ==> !s.bitmap[addr] && t.disk[addr] == Zero())
    && (forall f, c | 0 <= f < |s.ino| && 0 <= c < MAXFILE && (f != i || c != bn) :: BlockAt(t, f, c) == BlockAt(s, f, c))
    && (forall f | 0 <= f < |s.ino| && f != i :: t.ino[f] == s.ino[f])
    && t.ino[i].size == s.ino[i].size
    && (t.ino[i].addrs[NDIRECT] != 0 <==> s.ino[i].addrs[NDIRECT] != 0 || bn >= NDIRECT)
    && (s.ino[i].addrs[NDIRECT] != 0 ==> t.ino[i].addrs[NDIRECT] == s.ino[i].addrs[NDIRECT])
  }

  lemma BmappedDirect(s: Fs, i: int, bn: int, b: int)
    requires Owned(s) && 0 <= i < |s.ino| && 0 <= bn < NDIRECT && s.ino[i].addrs[bn] == 0
    requires 0 <= b < |s.bitmap| && !s.bitmap[b]
    ensures Bmapped(s, FillSlot(s, i, bn, b), i, bn, b)
  {
    FillSlotLinks(s, i, bn, b);
    var t := FillSlot(s, i, bn, b);
    forall f, c | 0 <= f < |s.ino| && 0 <= c < MAXFILE && (f != i || c != bn)
      ensures BlockAt(t, f, c) == BlockAt(s, f, c)
    {
      assert IsPos(s, PosOf(f, c)) && PosOf(f, c) != SlotPos(i, bn);
    }
  }

  lemma BmappedEntry(s: Fs, i: int, bn: int, b: int)
    requires Owned(s) && 0 <= i < |s.ino| && NDIRECT <= bn < MAXFILE
    requires s.ino[i].addrs[NDIRECT] != 0 && BlockAt(s, i, bn) == 0
    requires 0 <= b < |s.bitmap| && !s.bitmap[b]
    ensures b != s.ino[i].addrs[NDIRECT]
    ensures Bmapped(s, FillEntry(s, i, bn - NDIRECT, b), i, bn, b)
  {
    FillEntryLinks(s, i, bn - NDIRECT, b);
    var t := FillEntry(s, i, bn - NDIRECT, b);
    forall f, c | 0 <= f < |s.ino| && 0 <= c < MAXFILE && (f != i || c != bn)
      ensures BlockAt(t, f, c) == BlockAt(s, f, c)
    {
      assert IsPos(s, PosOf(f, c)) && PosOf(f, c) != Indirect(i, bn - NDIRECT);
    }
  }

  /** A new, empty table changes no file. */
  lemma TableAdded(s: Fs, i: int, b: int)
    requires Owned(s) && 0 <= i < |s.ino| && s.ino[i].addrs[NDIRECT] == 0
    requires 0 <= b < |s.bitmap| && !s.bitmap[b]
    ensures var t := FillSlot(s, i, NDIRECT, b);
            && Owned(t) && Keeps(s, t) && b != 0
            && forall f, c | 0 <= f < |s.ino| && 0 <= c < MAXFILE :: BlockAt(t, f, c) == BlockAt(s, f, c)
  {
    FillSlotLinks(s, i, NDIRECT, b);
    var t := FillSlot(s, i, NDIRECT, b);
    forall f, c | 0 <= f < |s.ino| && 0 <= c < MAXFILE
      ensures BlockAt(t, f, c) == BlockAt(s, f, c)
    {
      assert IsPos(s, PosOf(f, c)) && PosOf(f, c) != SlotPos(i, NDIRECT);
    }
  }

  lemma BmappedBoth(s: Fs, t: Fs, u: Fs, i: int, bn: int, addr: int)
    requires Owned(s) && Bmapped(t, u, i, bn, addr) && Keeps(s, t) && bn >= NDIRECT && t.nmeta == s.nmeta
    requires forall f, c | 0 <= f < |s.ino| && 0 <= c < MAXFILE :: BlockAt(t, f, c) == BlockAt(s, f, c)
    requires forall f | 0 <= f < |s.ino| && f != i :: t.ino[f] == s.ino[f]
    requires t.ino[i].size == s.ino[i].size && t.ino[i].addrs[NDIRECT] != 0 && s.ino[i].addrs[NDIRECT] == 0
    requires BlockAt(t, i, bn) == 0 && (forall b | 0 <= b < |s.bitmap| :: s.bitmap[b] ==> t.bitmap[b])
    ensures Bmapped(s, u, i, bn, addr)
  {
  }

  /** Rewriting one data block moves nothing and touches no other byte of any file. */
  lemma PatchKeeps(t: Fs, i: int, bn: int, v: Block)
    requires Owned(t) && 0 <= i < |t.ino| && 0 <= bn < MAXFILE && BlockAt(t, i, bn) != 0
    requires |v.bytes| == BSIZE
    ensures 0 <= BlockAt(t, i, bn) < |t.disk|
    ensures var u := t.(disk := t.disk[BlockAt(t, i, bn) := v]);
            && Owned(u)
            && (forall q | IsPos(t, q) :: Held(u, q) == Held(t, q))
            && (forall o | 0 <= o < MAXFILE * BSIZE && o / BSIZE == bn :: ByteAt(u, i, o) == v.bytes[o % BSIZE])
            && (forall f, o | 0 <= f < |t.ino| && 0 <= o < MAXFILE * BSIZE && (f != i || o / BSIZE != bn) ::
                  ByteAt(u, f, o) == ByteAt(t, f, o))
  {
    var p := PosOf(i, bn);
    assert IsPos(t, p);
    var addr := Held(t, p);
    var u := t.(disk := t.disk[addr := v]);
    assert Shape(u);
    forall q | IsPos(t, q)
      ensures Held(u, q) == Held(t, q)
    {
      if q.Indirect? && t.ino[q.i].addrs[NDIRECT] != 0 {
        assert Held(t, Table(q.i)) != addr;
      }
    }
    SameHeld(t, u);
    forall f, o | 0 <= f < |t.ino| && 0 <= o < MAXFILE * BSIZE && (f != i || o / BSIZE != bn)
      ensures ByteAt(u, f, o) == ByteAt(t, f, o)
    {
      assert IsPos(t, PosOf(f, o / BSIZE)) && PosOf(f, o / BSIZE) != p;
    }
  }

  lemma SameHeld(t: Fs, u: Fs)
    requires Owned(t) && Shape(u) && u.nmeta == t.nmeta && u.bitmap == t.bitmap && |u.ino| == |t.ino|
    requires forall q | IsPos(t, q) :: Held(u, q) == Held(t, q)
    ensures Owned(u)
  {
    forall q | IsPos(u, q) && Held(u, q) != 0
      ensures u.nmeta <= Held(u, q) < |u.bitmap| && u.bitmap[Held(u, q)]
    {
      assert IsPos(t, q);
    }
    forall q, r | IsPos(u, q) && IsPos(u, r) && q != r && Held(u, q) != 0
      ensures Held(u, q) != Held(u, r)
    {
      assert IsPos(t, q) && IsPos(t, r);
    }
    forall c | u.nmeta <= c < |u.bitmap| && u.bitmap[c]
      ensures exists q :: IsPos(u, q) && Held(u, q) == c
    {
      var q :| IsPos(t, q) && Held(t, q) == c;
      assert IsPos(u, q);
    }
  }

  function Max(a: int, b: int): int {
    if a < b then b else a
  }

  /** writei in progress: the first tot bytes of src are in file i from off on, block by block without
      holes, and no other file has changed. */
  ghost predicate Written(s0: Fs, s: Fs, i: int, off: int, src: seq<int>, tot: int) {
    && FilesOk(s0) && Owned(s) && |s.ino| == |s0.ino| && s.nmeta == s0.nmeta
    && 0 <= i < |s.ino| && 0 <= off <= s0.ino[i].size && 0 <= tot <= |src| && off + |src| <= MAXFILE * BSIZE
    && s.ino[i].size == s0.ino[i].size
    && MappedTo(s, i, Max(s0.ino[i].size, off + tot))
    && (off + tot <= s0.ino[i].size ==> s.ino == s0.ino)
    && (forall f | 0 <= f < |s.ino| && f != i :: s.ino[f] == s0.ino[f] && MappedTo(s, f, s.ino[f].size))
    && (forall o | 0 <= o < Max(s0.ino[i].size, off + tot) ::
          ByteAt(s, i, o) == if off <= o < off + tot then src[o - off] else ByteAt(s0, i, o))
    && (forall f, o | 0 <= f < |s.ino| && f != i && 0 <= o < s.ino[f].size :: ByteAt(s, f, o) == ByteAt(s0, f, o))
  }

  /** The states that writei can be in then. */
  ghost function During(s0: Fs, i: int, off: int, src: seq<int>, tot: int): iset<Fs> {
    iset s | Written(s0, s, i, off, src, tot)
  }

  lemma WrittenNone(s: Fs, i: int, off: int, src: seq<int>)
    requires FilesOk(s) && 0 <= i < |s.ino| && 0 <= off <= s.ino[i].size && off + |src| <= MAXFILE * BSIZE
    ensures Written(s, s, i, off, src, 0)
  {
    assert MappedTo(s, i, s.ino[i].size);
  }

  lemma BmapBytes(s: Fs, t: Fs, i: int, bn: int, addr: int)
    requires Bmapped(s, t, i, bn, addr)
    ensures forall f, o | 0 <= f < |s.ino| && 0 <= o < MAXFILE * BSIZE && BlockAt(s, f, o / BSIZE) != 0 ::
              ByteAt(t, f, o) == ByteAt(s, f, o)
  {
  }

  lemma BmapMaps(s: Fs, t: Fs, i: int, bn: int, addr: int, e: int, e': int)
    requires Bmapped(s, t, i, bn, addr) && MappedTo(s, i, e)
    requires bn * BSIZE <= e && e <= e' <= MAXFILE * BSIZE && e' > bn * BSIZE
    requires e' <= (bn + 1) * BSIZE || e' == e
    ensures MappedTo(t, i, e')
  {
    forall c | 0 <= c < MAXFILE
      ensures BlockAt(t, i, c) != 0 <==> c * BSIZE < e'
    {
      if c != bn {
        assert BlockAt(t, i, c) == BlockAt(s, i, c);
      }
    }
    assert BlockAt(s, i, bn) != 0 <==> bn * BSIZE < e;
  }

  function Patch(b: Block, at: int, bytes: seq<int>): (r: Block)
    requires 0 <= at && at + |bytes| <= |b.bytes|
    ensures |r.bytes| == |b.bytes|
    ensures forall k | 0 <= k < |b.bytes| ::
              r.bytes[k] == if at <= k < at + |bytes| then bytes[k - at] else b.bytes[k]
  {
    Block(b.bytes[..at] + bytes + b.bytes[at + |bytes|..])
  }

  /** One pass of writei's loop: find the block at the current offset, copy up to its end. */
  ghost predicate Pass(s0: Fs, s: Fs, t: Fs, u: Fs, i: int, off: int, src: seq<int>, tot: int, m: int, addr: int) {
    && Written(s0, s, i, off, src, tot) && tot < |src|
    && var cur := off + tot;
    && Bmapped(s, t, i, cur / BSIZE, addr)
    && 0 < m <= |src| - tot && cur % BSIZE + m <= BSIZE
    && u == t.(disk := t.disk[addr := Patch(t.disk[addr], cur % BSIZE, src[tot..tot + m])])
  }

  lemma PassMaps(s0: Fs, s: Fs, t: Fs, u: Fs, i: int, off: int, src: seq<int>, tot: int, m: int, addr: int)
    requires Pass(s0, s, t, u, i, off, src, tot, m, addr)
    ensures Owned(u)
    ensures MappedTo(u, i, Max(s0.ino[i].size, off + tot + m))
    ensures forall f | 0 <= f < |s.ino| && f != i :: u.ino[f] == s0.ino[f] && MappedTo(u, f, u.ino[f].size)
    ensures off + tot + m <= s0.ino[i].size ==> u.ino == s0.ino
  {
    var cur := off + tot;
    var bn := cur / BSIZE;
    var e, e' := Max(s0.ino[i].size, cur), Max(s0.ino[i].size, cur + m);
    BmapMaps(s, t, i, bn, addr, e, e');
    PatchKeeps(t, i, bn, u.disk[addr]);
    WrittenMaps(s0, s, t, u, i, bn, e');
    if cur + m <= s0.ino[i].size {
      assert BlockAt(s, i, bn) != 0;
    }
  }

  lemma PassBytes(s0: Fs, s: Fs, t: Fs, u: Fs, i: int, off: int, src: seq<int>, tot: int, m: int, addr: int)
    requires Pass(s0, s, t, u, i, off, src, tot, m, addr)
    ensures Shape(u)
    ensures forall o | 0 <= o < Max(s0.ino[i].size, off + tot + m) ::
              ByteAt(u, i, o) == if off <= o < off + tot + m then src[o - off] else ByteAt(s0, i, o)
    ensures forall f, o | 0 <= f < |u.ino| && f != i && 0 <= o < u.ino[f].size <= MAXFILE * BSIZE ::
              ByteAt(u, f, o) == ByteAt(s0, f, o)
  {
    var bn := (off + tot) / BSIZE;
    BmapBytes(s, t, i, bn, addr);
    PatchKeeps(t, i, bn, u.disk[addr]);
    WrittenBytes(s0, s, t, u, i, off, src, tot, m, addr);
    WrittenOthers(s0, s, t, u, i, bn);
  }

  lemma WrittenStep(s0: Fs, s: Fs, t: Fs, u: Fs, i: int, off: int, src: seq<int>, tot: int, m: int, addr: int)
    requires Pass(s0, s, t, u, i, off, src, tot, m, addr)
    ensures Written(s0, u, i, off, src, tot + m)
  {
    PassMaps(s0, s, t, u, i, off, src, tot, m, addr);
    PassBytes(s0, s, t, u, i, off, src, tot, m, addr);
    WrittenFrom(s0, u, i, off, src, tot + m);
  }

  lemma WrittenFrom(s0: Fs, s: Fs, i: int, off: int, src: seq<int>, tot: int)
    requires FilesOk(s0) && Owned(s) && |s.ino| == |s0.ino| && s.nmeta == s0.nmeta
    requires 0 <= i < |s.ino| && 0 <= off <= s0.ino[i].size && 0 <= tot <= |src| && off + |src| <= MAXFILE * BSIZE
    requires s.ino[i].size == s0.ino[i].size
    requires MappedTo(s, i, Max(s0.ino[i].size, off + tot))
    requires off + tot <= s0.ino[i].size ==> s.ino == s0.ino
    requires forall f | 0 <= f < |s.ino| && f != i :: s.ino[f] == s0.ino[f] && MappedTo(s, f, s.ino[f].size)
    requires forall o | 0 <= o < Max(s0.ino[i].size, off + tot) ::
               ByteAt(s, i, o) == if off <= o < off + tot then src[o - off] else ByteAt(s0, i, o)
    requires forall f, o | 0 <= f < |s.ino| && f != i && 0 <= o < s.ino[f].size :: ByteAt(s, f, o) == ByteAt(s0, f, o)
    ensures Written(s0, s, i, off, src, tot)
  {
  }

  lemma WrittenBytes(s0: Fs, s: Fs, t: Fs, u: Fs, i: int, off: int, src: seq<int>, tot: int, m: int, addr: int)
    requires Shape(s0) && Shape(s) && Shape(t) && Shape(u) && 0 <= i < |u.ino| == |t.ino| == |s.ino| == |s0.ino|
    requires 0 <= off <= s0.ino[i].size <= MAXFILE * BSIZE && 0 <= tot < tot + m <= |src| && off + |src| <= MAXFILE * BSIZE
    requires var cur := off + tot;
             && MappedTo(s, i, Max(s0.ino[i].size, cur))
             && (forall o | 0 <= o < Max(s0.ino[i].size, cur) ::
                  ByteAt(s, i, o) == if off <= o < cur then src[o - off] else ByteAt(s0, i, o))
             && (forall o | 0 <= o < MAXFILE * BSIZE && BlockAt(s, i, o / BSIZE) != 0 :: ByteAt(t, i, o) == ByteAt(s, i, o))
             && addr == BlockAt(t, i, cur / BSIZE) && 0 <= addr < |t.disk| && cur % BSIZE + m <= BSIZE
             && (forall o | 0 <= o < MAXFILE * BSIZE && o / BSIZE == cur / BSIZE ::
                  ByteAt(u, i, o) == Patch(t.disk[addr], cur % BSIZE, src[tot..tot + m]).bytes[o % BSIZE])
             && (forall o | 0 <= o < MAXFILE * BSIZE && o / BSIZE != cur / BSIZE :: ByteAt(u, i, o) == ByteAt(t, i, o))
    ensures forall o | 0 <= o < Max(s0.ino[i].size, off + tot + m) ::
              ByteAt(u, i, o) == if off <= o < off + tot + m then src[o - off] else ByteAt(s0, i, o)
  {
    forall o | 0 <= o < Max(s0.ino[i].size, off + tot + m)
      ensures ByteAt(u, i, o) == if off <= o < off + tot + m then src[o - off] else ByteAt(s0, i, o)
    {
      PatchedByte(t, u, i, off + tot, src[tot..tot + m], addr, o);
      if o < Max(s0.ino[i].size, off + tot) {
        assert BlockAt(s, i, o / BSIZE) != 0;
      }
    }
  }

  lemma PatchedByte(t: Fs, u: Fs, i: int, cur: int, bytes: seq<int>, addr: int, o: int)
    requires Shape(t) && Shape(u) && 0 <= i < |t.ino| == |u.ino| && 0 <= cur < MAXFILE * BSIZE && 0 <= o < MAXFILE * BSIZE
    requires addr == BlockAt(t, i, cur / BSIZE) && 0 <= addr < |t.disk| && cur % BSIZE + |bytes| <= BSIZE
    requires o / BSIZE == cur / BSIZE ==>
               ByteAt(u, i, o) == Patch(t.disk[addr], cur % BSIZE, bytes).bytes[o % BSIZE]
    requires o / BSIZE != cur / BSIZE ==> ByteAt(u, i, o) == ByteAt(t, i, o)
    ensures ByteAt(u, i, o) == if cur <= o < cur + |bytes| then bytes[o - cur] else ByteAt(t, i, o)
  {
    if o / BSIZE == cur / BSIZE {
      assert o % BSIZE - cur % BSIZE == o - cur;
    }
  }

  lemma WrittenOthers(s0: Fs, s: Fs, t: Fs, u: Fs, i: int, bn: int)
    requires Shape(s0) && Shape(s) && Shape(t) && Shape(u) && |u.ino| == |t.ino| == |s.ino| == |s0.ino| && u.ino == t.ino
    requires forall f | 0 <= f < |s.ino| && f != i :: t.ino[f] == s.ino[f] && MappedTo(s, f, s.ino[f].size)
    requires forall f, o | 0 <= f < |s.ino| && f != i && 0 <= o < s.ino[f].size <= MAXFILE * BSIZE ::
               ByteAt(s, f, o) == ByteAt(s0, f, o)
    requires forall f, o | 0 <= f < |s.ino| && 0 <= o < MAXFILE * BSIZE && BlockAt(s, f, o / BSIZE) != 0 ::
               ByteAt(t, f, o) == ByteAt(s, f, o)
    requires forall f, o | 0 <= f < |t.ino| && 0 <= o < MAXFILE * BSIZE && (f != i || o / BSIZE != bn) ::
               ByteAt(u, f, o) == ByteAt(t, f, o)
    ensures forall f, o | 0 <= f < |u.ino| && f != i && 0 <= o < u.ino[f].size <= MAXFILE * BSIZE ::
              ByteAt(u, f, o) == ByteAt(s0, f, o)
  {
    forall f, o | 0 <= f < |u.ino| && f != i && 0 <= o < u.ino[f].size <= MAXFILE * BSIZE
      ensures ByteAt(u, f, o) == ByteAt(s0, f, o)
    {
      assert MappedTo(s, f, s.ino[f].size);
      assert BlockAt(s, f, o / BSIZE) != 0;
    }
  }

  lemma WrittenMaps(s0: Fs, s: Fs, t: Fs, u: Fs, i: int, bn: int, e': int)
    requires Shape(s) && Shape(t) && Shape(u) && |u.ino| == |t.ino| == |s.ino| && 0 <= i < |s.ino| && u.ino == t.ino
    requires forall q | IsPos(t, q) :: Held(u, q) == Held(t, q)
    requires MappedTo(t, i, e')
    requires forall f, c | 0 <= f < |s.ino| && 0 <= c < MAXFILE && (f != i || c != bn) :: BlockAt(t, f, c) == BlockAt(s, f, c)
    requires forall f | 0 <= f < |s.ino| && f != i :: t.ino[f] == s.ino[f] && MappedTo(s, f, s.ino[f].size)
    ensures MappedTo(u, i, e')
    ensures forall f | 0 <= f < |s.ino| && f != i :: MappedTo(u, f, u.ino[f].size)
  {
    forall f, c | 0 <= f < |s.ino| && 0 <= c < MAXFILE
      ensures BlockAt(u, f, c) == BlockAt(t, f, c)
    {
      assert IsPos(t, PosOf(f, c));
    }
    forall f | 0 <= f < |s.ino| && f != i
      ensures MappedTo(u, f, u.ino[f].size)
    {
      assert MappedTo(s, f, s.ino[f].size);
    }
  }

  function Sized(s: Fs, i: int, size: int): Fs
    requires 0 <= i < |s.ino|
  {
    s.(ino := s.ino[i := s.ino[i].(size := size)])
  }

  /** Setting a size moves no block and changes no byte. */
  lemma SizedSame(s: Fs, i: int, size: int)
    requires Owned(s) && 0 <= i < |s.ino|
    ensures var u := Sized(s, i, size);
            && Owned(u)
            && (forall f, c | 0 <= f < |s.ino| && 0 <= c < MAXFILE :: BlockAt(u, f, c) == BlockAt(s, f, c))
            && (forall f, o | 0 <= f < |s.ino| && 0 <= o < MAXFILE * BSIZE :: ByteAt(u, f, o) == ByteAt(s, f, o))
  {
    var u := Sized(s, i, size);
    assert Shape(u);
    assert forall q | IsPos(s, q) :: Held(u, q) == Held(s, q);
    SameHeld(s, u);
    forall f, c | 0 <= f < |s.ino| && 0 <= c < MAXFILE
      ensures BlockAt(u, f, c) == BlockAt(s, f, c)
    {
      assert IsPos(s, PosOf(f, c));
    }
  }

  lemma WrittenFiles(s0: Fs, s: Fs, i: int, off: int, src: seq<int>)
    requires Written(s0, s, i, off, src, |src|)
    ensures FilesOk(Sized(s, i, Max(s0.ino[i].size, off + |src|)))
  {
    var u := Sized(s, i, Max(s0.ino[i].size, off + |src|));
    SizedSame(s, i, Max(s0.ino[i].size, off + |src|));
    forall f | 0 <= f < |u.ino|
      ensures MappedTo(u, f, u.ino[f].size)
    {
      if f != i {
        assert MappedTo(s, f, s.ino[f].size);
      }
    }
  }

  lemma SpliceIs(c: seq<int>, off: int, src: seq<int>, d: seq<int>)
    requires 0 <= off <= |c| && |d| == Max(|c|, off + |src|)
    requires forall o | 0 <= o < |d| :: d[o] == if off <= o < off + |src| then src[o - off] else if o < |c| then c[o] else 0
    ensures d == Splice(c, off, src)
  {
  }

  lemma ContentsAt(s: Fs, i: int, o: int)
    requires FilesOk(s) && 0 <= i < |s.ino| && 0 <= o < s.ino[i].size
    ensures o < MAXFILE * BSIZE && Contents(s, i)[o] == ByteAt(s, i, o)
  {
    assert MappedTo(s, i, s.ino[i].size);
  }

  lemma WrittenSelf(s0: Fs, s: Fs, u: Fs, i: int, off: int, src: seq<int>)
    requires Written(s0, s, i, off, src, |src|) && FilesOk(u) && u == Sized(s, i, Max(s0.ino[i].size, off + |src|))
    requires forall o | 0 <= o < MAXFILE * BSIZE :: ByteAt(u, i, o) == ByteAt(s, i, o)
    ensures Contents(u, i) == Splice(Contents(s0, i), off, src)
  {
    var c, d := Contents(s0, i), Contents(u, i);
    forall o | 0 <= o < |d|
      ensures d[o] == if off <= o < off + |src| then src[o - off] else if o < |c| then c[o] else 0
    {
      ContentsAt(u, i, o);
      if o < |c| {
        ContentsAt(s0, i, o);
      }
    }
    SpliceIs(c, off, src, d);
  }

  lemma WrittenOther(s0: Fs, s: Fs, u: Fs, i: int, off: int, src: seq<int>, f: int)
    requires Written(s0, s, i, off, src, |src|) && FilesOk(u) && u == Sized(s, i, Max(s0.ino[i].size, off + |src|))
    requires 0 <= f < |u.ino| && f != i && forall o | 0 <= o < MAXFILE * BSIZE :: ByteAt(u, f, o) == ByteAt(s, f, o)
    ensures Contents(u, f) == Contents(s0, f)
  {
    assert u.ino[f] == s.ino[f] && s.ino[f] == s0.ino[f];
    forall o | 0 <= o < u.ino[f].size
      ensures Contents(u, f)[o] == Contents(s0, f)[o]
    {
      ContentsAt(u, f, o);
      ContentsAt(s0, f, o);
      assert ByteAt(s, f, o) == ByteAt(s0, f, o);
    }
  }

  /** writei finished: with the size set, file i reads as the old contents with src laid over it, and
      every other file reads as before. */
  lemma WrittenAll(s0: Fs, s: Fs, i: int, off: int, src: seq<int>)
    requires Written(s0, s, i, off, src, |src|)
    ensures var u := Sized(s, i, Max(s0.ino[i].size, off + |src|));
            && FilesOk(u) && |u.ino| == |s0.ino|
            && Contents(u, i) == Splice(Contents(s0, i), off, src)
            && forall f | 0 <= f < |u.ino| && f != i :: Contents(u, f) == Contents(s0, f) && u.ino[f] == s0.ino[f]
  {
    var u := Sized(s, i, Max(s0.ino[i].size, off + |src|));
    WrittenFiles(s0, s, i, off, src);
    SizedSame(s, i, Max(s0.ino[i].size, off + |src|));
    WrittenSelf(s0, s, u, i, off, src);
    forall f | 0 <= f < |u.ino| && f != i
      ensures Contents(u, f) == Contents(s0, f) && u.ino[f] == s0.ino[f]
    {
      WrittenOther(s0, s, u, i, off, src, f);
    }
  }
}
