/** What itrunc does to block ownership: it visits every place of one inode once, in a fixed order, and
    gives back exactly the blocks held there. */
module Truncate {
  import opened FsModel

  const PLACES: int := MAXFILE + 1

  /** The places of inode i in the order itrunc frees them: direct slots, table entries, the table. */
  function Place(i: int, n: int): Pos {
    if n < NDIRECT then Direct(i, n) else if n < MAXFILE then Indirect(i, n - NDIRECT) else Table(i)
  }

  /** The blocks held at the first n places. */
  ghost function Blocks(s: Fs, i: int, n: int): set<int>
    requires Shape(s) && 0 <= i < |s.ino| && 0 <= n <= PLACES
  {
    if n == 0 then {} else
      Blocks(s, i, n - 1) + if Held(s, Place(i, n - 1)) == 0 then {} else {Held(s, Place(i, n - 1))}
  }

  ghost function Cleared(bitmap: seq<bool>, f: set<int>): (r: seq<bool>)
    ensures |r| == |bitmap| && forall b | 0 <= b < |r| :: r[b] == (bitmap[b] && b !in f)
  {
    seq(|bitmap|, b requires 0 <= b < |bitmap| => bitmap[b] && b !in f)
  }

  lemma {:induction false} BlocksAre(s: Fs, i: int, n: int)
    requires Shape(s) && 0 <= i < |s.ino| && 0 <= n <= PLACES
    ensures forall b :: b in Blocks(s, i, n) <==> b != 0 && exists k :: 0 <= k < n && Held(s, Place(i, k)) == b
  {
    if n > 0 {
      BlocksAre(s, i, n - 1);
    }
  }

  lemma HeldIsListed(s: Fs, i: int, q: Pos)
    requires Shape(s) && IsPos(s, q) && 0 <= i < |s.ino|
    ensures q.i == i && Held(s, q) != 0 ==> Held(s, q) in Blocks(s, i, PLACES)
  {
    BlocksAre(s, i, PLACES);
    if q.i == i {
      var k := if q.Direct? then q.k else if q.Indirect? then q.j + NDIRECT else MAXFILE;
      assert Place(i, k) == q;
    }
  }

  /** The addresses of an inode after itrunc has cleared the first k. */
  function ZeroFirst(a: seq<int>, k: nat): seq<int>
    requires k <= |a|
  {
    seq(k, x => 0) + a[k..]
  }

  lemma ZeroNext(a: seq<int>, k: nat)
    requires k < |a|
    ensures ZeroFirst(a, k)[k] == a[k] && ZeroFirst(a, k)[k := 0] == ZeroFirst(a, k + 1)
    ensures a[k] == 0 ==> ZeroFirst(a, k) == ZeroFirst(a, k + 1)
    ensures ZeroFirst(a, 0) == a
  {
  }

  /** The inodes once the first k addresses of file i are cleared. */
  function Zeroed(ino: seq<Inode>, i: int, k: nat): seq<Inode>
    requires 0 <= i < |ino| && k <= |ino[i].addrs|
  {
    ino[i := Inode(ino[i].size, ZeroFirst(ino[i].addrs, k))]
  }

  lemma ZeroedNext(ino: seq<Inode>, i: int, k: nat)
    requires 0 <= i < |ino| && k < |ino[i].addrs|
    ensures var z := Zeroed(ino, i, k);
            && |z| == |ino| && |z[i].addrs| == |ino[i].addrs| && z[i].addrs[k] == ino[i].addrs[k]
            && (z[i].addrs[k] == 0 ==> z == Zeroed(ino, i, k + 1))
            && z[i := z[i].(addrs := z[i].addrs[k := 0])] == Zeroed(ino, i, k + 1)
    ensures Zeroed(ino, i, 0) == ino
  {
    ZeroNext(ino[i].addrs, k);
  }

  /** The next block to free is still marked in use: "freeing free block" cannot happen. */
  lemma NextStillSet(s: Fs, i: int, n: int)
    requires Owned(s) && 0 <= i < |s.ino| && 0 <= n < PLACES && Held(s, Place(i, n)) != 0
    ensures var b := Held(s, Place(i, n));
            0 <= b < |s.bitmap| && Cleared(s.bitmap, Blocks(s, i, n))[b]
    ensures Cleared(s.bitmap, Blocks(s, i, n))[Held(s, Place(i, n)) := false] == Cleared(s.bitmap, Blocks(s, i, n + 1))
  {
    var p := Place(i, n);
    assert IsPos(s, p);
    BlocksAre(s, i, n);
    forall k | 0 <= k < n
      ensures Held(s, Place(i, k)) != Held(s, p)
    {
      assert IsPos(s, Place(i, k)) && Place(i, k) != p;
    }
  }

  lemma NothingThere(s: Fs, i: int, n: int)
    requires Shape(s) && 0 <= i < |s.ino| && 0 <= n < PLACES && Held(s, Place(i, n)) == 0
    ensures Blocks(s, i, n + 1) == Blocks(s, i, n)
  {
  }

  lemma {:induction false} NoTable(s: Fs, i: int, n: int)
    requires Shape(s) && 0 <= i < |s.ino| && s.ino[i].addrs[NDIRECT] == 0 && NDIRECT <= n <= PLACES
    ensures Blocks(s, i, n) == Blocks(s, i, NDIRECT)
  {
    if n > NDIRECT {
      NoTable(s, i, n - 1);
    }
  }

  function Emptied(): Inode {
    Inode(0, seq(NDIRECT + 1, k => 0))
  }

  ghost function Truncated(s: Fs, i: int): Fs
    requires Shape(s) && 0 <= i < |s.ino|
  {
    Fs(s.nmeta, Cleared(s.bitmap, Blocks(s, i, PLACES)), s.disk, s.ino[i := Emptied()])
  }

  lemma TruncatedHolds(s: Fs, i: int)
    requires Owned(s) && 0 <= i < |s.ino|
    ensures Shape(Truncated(s, i))
    ensures forall q | IsPos(s, q) :: Held(Truncated(s, i), q) == if q.i == i then 0 else Held(s, q)
  {
  }

  /** Exclusive ownership survives a truncation. */
  lemma TruncateKeepsOwned(s: Fs, i: int)
    requires Owned(s) && 0 <= i < |s.ino|
    ensures Owned(Truncated(s, i))
  {
    var t := Truncated(s, i);
    TruncatedHolds(s, i);
    BlocksAre(s, i, PLACES);
    forall q | IsPos(t, q) && Held(t, q) != 0
      ensures t.nmeta <= Held(t, q) < |t.bitmap| && t.bitmap[Held(t, q)]
    {
      assert IsPos(s, q) && q.i != i;
      forall k | 0 <= k < PLACES
        ensures Held(s, Place(i, k)) != Held(s, q)
      {
        assert IsPos(s, Place(i, k)) && Place(i, k) != q;
      }
    }
    forall q, r | IsPos(t, q) && IsPos(t, r) && q != r && Held(t, q) != 0
      ensures Held(t, q) != Held(t, r)
    {
      assert IsPos(s, q) && IsPos(s, r);
    }
    forall b | 0 <= b < t.nmeta
      ensures t.bitmap[b]
    {
      forall k | 0 <= k < PLACES && Held(s, Place(i, k)) != 0
        ensures Held(s, Place(i, k)) != b
      {
        assert IsPos(s, Place(i, k));
      }
    }
    forall c | t.nmeta <= c < |t.bitmap| && t.bitmap[c]
      ensures exists q :: IsPos(t, q) && Held(t, q) == c
    {
      var q :| IsPos(s, q) && Held(s, q) == c;
      HeldIsListed(s, i, q);
      assert IsPos(t, q) && Held(t, q) == c;
    }
  }

  /** A truncated file is empty and every other file reads as before. */
  lemma TruncateKeepsFiles(s: Fs, i: int)
    requires FilesOk(s) && 0 <= i < |s.ino|
    ensures FilesOk(Truncated(s, i)) && Contents(Truncated(s, i), i) == []
    ensures forall f | 0 <= f < |s.ino| && f != i :: Contents(Truncated(s, i), f) == Contents(s, f)
  {
    var t := Truncated(s, i);
    TruncateKeepsOwned(s, i);
    TruncatedHolds(s, i);
    forall f, c | 0 <= f < |s.ino| && 0 <= c < MAXFILE
      ensures BlockAt(t, f, c) == if f == i then 0 else BlockAt(s, f, c)
    {
      assert IsPos(s, PosOf(f, c));
    }
    forall f | 0 <= f < |s.ino|
      ensures MappedTo(t, f, t.ino[f].size)
    {
      assert MappedTo(s, f, s.ino[f].size);
    }
    forall f | 0 <= f < |s.ino| && f != i
      ensures Contents(t, f) == Contents(s, f)
    {
      assert MappedTo(s, f, s.ino[f].size);
      assert forall o | 0 <= o < s.ino[f].size :: ByteAt(t, f, o) == ByteAt(s, f, o);
    }
  }
}
