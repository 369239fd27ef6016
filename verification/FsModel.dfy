/** The block layer of fs.c as values: the free bitmap, the disk and the in-core inodes; which block is
    held where; and what allocating, linking and freeing a block do to that. */
module FsModel {

  const BSIZE: int := 2048
  const NDIRECT: int := 12
  const NINDIRECT: int := 512
  const MAXFILE: int := 524
  const WORD: int := 0x1_0000_0000

  datatype Block = Block(bytes: seq<int>)

  /** A block of zeroes. */
  function Zero(): (b: Block)
    ensures |b.bytes| == BSIZE && forall i | 0 <= i < BSIZE :: b.bytes[i] == 0
  {
    Block(seq(BSIZE, i => 0))
  }

  /** Entry j of a block read as an array of little-endian uints. */
  function WordAt(b: Block, j: int): int
    requires |b.bytes| == BSIZE && 0 <= j < NINDIRECT
  {
    b.bytes[4 * j] + 0x100 * b.bytes[4 * j + 1] + 0x1_0000 * b.bytes[4 * j + 2] + 0x100_0000 * b.bytes[4 * j + 3]
  }

  function SetWord(b: Block, j: int, w: int): (r: Block)
    requires |b.bytes| == BSIZE && 0 <= j < NINDIRECT
    ensures |r.bytes| == BSIZE
  {
    Block(b.bytes[4 * j := w % 0x100][4 * j + 1 := w / 0x100 % 0x100]
          [4 * j + 2 := w / 0x1_0000 % 0x100][4 * j + 3 := w / 0x100_0000 % 0x100])
  }

  lemma Bytes(w: int)
    requires 0 <= w < WORD
    ensures w % 0x100 + 0x100 * (w / 0x100 % 0x100) + 0x1_0000 * (w / 0x1_0000 % 0x100)
            + 0x100_0000 * (w / 0x100_0000 % 0x100) == w
  {
    assert w / 0x1_0000 == (w / 0x100) / 0x100;
    assert w / 0x100_0000 == (w / 0x1_0000) / 0x100;
  }

  lemma WordAfterSet(b: Block, j: int, w: int, k: int)
    requires |b.bytes| == BSIZE && 0 <= j < NINDIRECT && 0 <= k < NINDIRECT && 0 <= w < WORD
    ensures WordAt(SetWord(b, j, w), k) == if k == j then w else WordAt(b, k)
  {
    Bytes(w);
  }

  datatype Inode = Inode(size: int, addrs: seq<int>)

  datatype Fs = Fs(nmeta: int, bitmap: seq<bool>, disk: seq<Block>, ino: seq<Inode>)

  /** A place that can hold a block number: a direct slot of inode i, its indirect-table slot, or an
      entry of that table. */
  datatype Pos = Direct(i: int, k: int) | Table(i: int) | Indirect(i: int, j: int)

  ghost predicate Shape(s: Fs) {
    && 0 < s.nmeta <= |s.bitmap| == |s.disk| <= WORD
    && (forall b | 0 <= b < |s.disk| :: |s.disk[b].bytes| == BSIZE)
    && (forall i | 0 <= i < |s.ino| :: |s.ino[i].addrs| == NDIRECT + 1)
    && (forall i | 0 <= i < |s.ino| :: 0 <= s.ino[i].addrs[NDIRECT] < |s.disk|)
  }

  ghost predicate IsPos(s: Fs, p: Pos) {
    && 0 <= p.i < |s.ino|
    && (p.Direct? ==> 0 <= p.k < NDIRECT)
    && (p.Indirect? ==> 0 <= p.j < NINDIRECT)
  }

  /** The block number at a place; 0 means none. */
  ghost function Held(s: Fs, p: Pos): int
    requires Shape(s) && IsPos(s, p)
  {
    match p
    case Direct(i, k) => s.ino[i].addrs[k]
    case Table(i) => s.ino[i].addrs[NDIRECT]
    case Indirect(i, j) =>
      if s.ino[i].addrs[NDIRECT] == 0 then 0 else WordAt(s.disk[s.ino[i].addrs[NDIRECT]], j)
  }

  ghost predicate InRange(s: Fs)
    requires Shape(s)
  {
    forall p | IsPos(s, p) && Held(s, p) != 0 :: s.nmeta <= Held(s, p) < |s.bitmap| && s.bitmap[Held(s, p)]
  }

  ghost predicate OnceOnly(s: Fs)
    requires Shape(s)
  {
    forall p, q | IsPos(s, p) && IsPos(s, q) && p != q && Held(s, p) != 0 :: Held(s, p) != Held(s, q)
  }

  ghost predicate NoLeak(s: Fs)
    requires Shape(s)
  {
    && (forall b | 0 <= b < s.nmeta :: s.bitmap[b])
    && (forall b | s.nmeta <= b < |s.bitmap| && s.bitmap[b] :: exists p :: IsPos(s, p) && Held(s, p) == b)
  }

  /** Block ownership: a bit is set if and only if the block is metadata or is held at exactly one place
      of exactly one inode. */
  ghost predicate Owned(s: Fs) {
    Shape(s) && InRange(s) && OnceOnly(s) && NoLeak(s)
  }

  function PosOf(i: int, bn: int): Pos {
    if bn < NDIRECT then Direct(i, bn) else Indirect(i, bn - NDIRECT)
  }

  /** The disk block of block bn of file i, 0 if there is none. */
  ghost function BlockAt(s: Fs, i: int, bn: int): int
    requires Shape(s) && 0 <= i < |s.ino| && 0 <= bn < MAXFILE
  {
    Held(s, PosOf(i, bn))
  }

  /** Every data block stays where it is and keeps its contents. */
  ghost predicate Keeps(s: Fs, t: Fs) {
    && Shape(s) && Shape(t) && |s.ino| == |t.ino| && |s.disk| == |t.disk|
    && forall i, bn | 0 <= i < |s.ino| && 0 <= bn < MAXFILE && BlockAt(s, i, bn) != 0 ::
         && BlockAt(t, i, bn) == BlockAt(s, i, bn)
         && 0 <= BlockAt(s, i, bn) < |s.disk| && t.disk[BlockAt(s, i, bn)] == s.disk[BlockAt(s, i, bn)]
  }

  /** From s to t a free block b was taken and is now held at p, and nothing else moved. */
  ghost predicate Links(s: Fs, t: Fs, p: Pos, b: int) {
    && Shape(s) && Shape(t) && IsPos(s, p) && |t.ino| == |s.ino|
    && t.nmeta == s.nmeta && 0 <= b < |s.bitmap| && !s.bitmap[b] && t.bitmap == s.bitmap[b := true]
    && Held(s, p) == 0 && Held(t, p) == b
    && forall q | IsPos(s, q) && q != p :: Held(t, q) == Held(s, q)
  }

  lemma LinkKeepsOwned(s: Fs, t: Fs, p: Pos, b: int)
    requires Owned(s) && Links(s, t, p, b)
    ensures Owned(t)
  {
    assert b >= s.nmeta;
    forall q | IsPos(t, q) && Held(t, q) != 0
      ensures t.nmeta <= Held(t, q) < |t.bitmap| && t.bitmap[Held(t, q)]
    {
      assert IsPos(s, q);
    }
    forall q, r | IsPos(t, q) && IsPos(t, r) && q != r && Held(t, q) != 0
      ensures Held(t, q) != Held(t, r)
    {
      assert IsPos(s, q) && IsPos(s, r);
    }
    forall c | t.nmeta <= c < |t.bitmap| && t.bitmap[c]
      ensures exists q :: IsPos(t, q) && Held(t, q) == c
    {
      if c == b {
        assert IsPos(t, p) && Held(t, p) == c;
      } else {
        var q :| IsPos(s, q) && Held(s, q) == c;
        assert IsPos(t, q) && Held(t, q) == c;
      }
    }
  }

  /** Linking a block keeps the data blocks, if it changes only that block and perhaps table block tb. */
  lemma LinkKeepsData(s: Fs, t: Fs, p: Pos, b: int, i: int, tb: int)
    requires Owned(s) && Links(s, t, p, b) && |t.disk| == |s.disk|
    requires tb == b || (0 <= i < |s.ino| && tb == s.ino[i].addrs[NDIRECT])
    requires forall c | 0 <= c < |s.disk| && c != b && c != tb :: t.disk[c] == s.disk[c]
    ensures Keeps(s, t)
  {
    forall f, bn | 0 <= f < |s.ino| && 0 <= bn < MAXFILE && BlockAt(s, f, bn) != 0
      ensures BlockAt(t, f, bn) == BlockAt(s, f, bn)
      ensures 0 <= BlockAt(s, f, bn) < |s.disk| && t.disk[BlockAt(s, f, bn)] == s.disk[BlockAt(s, f, bn)]
    {
      assert IsPos(s, PosOf(f, bn)) && s.bitmap[BlockAt(s, f, bn)];
      if tb != b {
        assert IsPos(s, Table(i)) && PosOf(f, bn) != Table(i) && Held(s, Table(i)) == tb;
      }
    }
  }

  function SlotPos(i: int, k: int): Pos {
    if k < NDIRECT then Direct(i, k) else Table(i)
  }

  /** bmap's direct slot and its indirect-table slot: take block b, zero it, store its number. */
  function FillSlot(s: Fs, i: int, k: int, b: int): Fs
    requires 0 <= b < |s.bitmap| == |s.disk| && 0 <= i < |s.ino| && 0 <= k < |s.ino[i].addrs|
  {
    s.(bitmap := s.bitmap[b := true], disk := s.disk[b := Zero()],
       ino := s.ino[i := s.ino[i].(addrs := s.ino[i].addrs[k := b])])
  }

  lemma FillSlotLinks(s: Fs, i: int, k: int, b: int)
    requires Owned(s) && 0 <= i < |s.ino| && 0 <= k <= NDIRECT && s.ino[i].addrs[k] == 0
    requires 0 <= b < |s.bitmap| && !s.bitmap[b]
    ensures Links(s, FillSlot(s, i, k, b), SlotPos(i, k), b)
    ensures Owned(FillSlot(s, i, k, b)) && Keeps(s, FillSlot(s, i, k, b))
    ensures b >= s.nmeta
  {
    var t, p := FillSlot(s, i, k, b), SlotPos(i, k);
    assert Held(s, p) == 0;
    forall q | IsPos(s, q) && q != p
      ensures Held(t, q) == Held(s, q)
    {
      if q.Indirect? && s.ino[q.i].addrs[NDIRECT] != 0 {
        assert Held(s, Table(q.i)) != b;
      }
    }
    LinkKeepsOwned(s, t, p, b);
    LinkKeepsData(s, t, p, b, i, b);
  }

  /** bmap's indirect entry: take block b, zero it, store its number in the table. */
  function FillEntry(s: Fs, i: int, j: int, b: int): Fs
    requires Shape(s) && 0 <= b < |s.bitmap| && 0 <= i < |s.ino| && 0 <= j < NINDIRECT
  {
    var tb := s.ino[i].addrs[NDIRECT];
    s.(bitmap := s.bitmap[b := true], disk := s.disk[b := Zero()][tb := SetWord(s.disk[tb], j, b)])
  }

  lemma FillEntryLinks(s: Fs, i: int, j: int, b: int)
    requires Owned(s) && 0 <= i < |s.ino| && 0 <= j < NINDIRECT
    requires s.ino[i].addrs[NDIRECT] != 0 && Held(s, Indirect(i, j)) == 0
    requires 0 <= b < |s.bitmap| && !s.bitmap[b]
    ensures b != s.ino[i].addrs[NDIRECT] && b >= s.nmeta
    ensures Links(s, FillEntry(s, i, j, b), Indirect(i, j), b)
    ensures Owned(FillEntry(s, i, j, b)) && Keeps(s, FillEntry(s, i, j, b))
    ensures FillEntry(s, i, j, b).disk[b] == Zero()
  {
    var t, p, tb := FillEntry(s, i, j, b), Indirect(i, j), s.ino[i].addrs[NDIRECT];
    assert Held(s, Table(i)) == tb;
    WordAfterSet(s.disk[tb], j, b, j);
    forall q | IsPos(s, q) && q != p
      ensures Held(t, q) == Held(s, q)
    {
      if q.Indirect? && s.ino[q.i].addrs[NDIRECT] != 0 {
        assert Held(s, Table(q.i)) != b;
        if q.i == i {
          WordAfterSet(s.disk[tb], j, b, q.j);
        } else {
          assert Held(s, Table(q.i)) != Held(s, Table(i));
        }
      }
    }
    LinkKeepsOwned(s, t, p, b);
    LinkKeepsData(s, t, p, b, i, tb);
  }

  // ---------- files as byte sequences ----------

  /** Blocks are mapped for the first e bytes of file i and for no others: no holes and no spare. */
  ghost predicate MappedTo(s: Fs, i: int, e: int)
    requires Shape(s) && 0 <= i < |s.ino|
  {
    && 0 <= e <= MAXFILE * BSIZE
    && (forall bn | 0 <= bn < MAXFILE :: BlockAt(s, i, bn) != 0 <==> bn * BSIZE < e)
    && (s.ino[i].addrs[NDIRECT] != 0 <==> NDIRECT * BSIZE < e)
  }

  ghost predicate FilesOk(s: Fs) {
    Owned(s) && forall i | 0 <= i < |s.ino| :: MappedTo(s, i, s.ino[i].size)
  }

  /** Byte o of file i, where it has one. */
  ghost function ByteAt(s: Fs, i: int, o: int): int
    requires Shape(s) && 0 <= i < |s.ino| && 0 <= o < MAXFILE * BSIZE
  {
    if 0 <= BlockAt(s, i, o / BSIZE) < |s.disk| then s.disk[BlockAt(s, i, o / BSIZE)].bytes[o % BSIZE] else 0
  }

  /** What a reader of file i sees. */
  ghost function Contents(s: Fs, i: int): (c: seq<int>)
    requires FilesOk(s) && 0 <= i < |s.ino|
    ensures |c| == s.ino[i].size
  {
    assert MappedTo(s, i, s.ino[i].size);
    seq(s.ino[i].size, o requires 0 <= o < s.ino[i].size => ByteAt(s, i, o))
  }
}
