/** Lookup, link, unlink and the emptiness test of a one-block ext2 directory (ext2fs.c, sysfile.c). */
module Ext2Dir {
  import opened DirRecords

  /** Full: the last record starts so late that ext2_dirlink would begin a second block.
      NoRoom: it panics, having already shrunk the last record.  Short: it panics at a record that it
      cannot read a whole struct from. */
  datatype Linked = Done | Exists | Full | NoRoom | Short

  /** memmove of bytes into a buffer. */
  function Put(d: Bytes, o: int, b: Bytes): (r: Bytes)
    requires 0 <= o && o + |b| <= |d|
    ensures |r| == |d| && forall i | 0 <= i < |d| :: r[i] == if o <= i < o + |b| then b[i - o] else d[i]
  {
    d[..o] + b + d[o + |b|..]
  }

  function Zeros(n: nat): (r: Bytes)
    ensures |r| == n && forall i | 0 <= i < n :: r[i] == 0
  {
    seq(n, _ => 0)
  }

  /** A directory entry struct; kind and pad are what the fields that nobody sets happen to hold. */
  function Entry(inum: int, rec: int, kind: int, name: Bytes, pad: int): (r: Bytes)
    requires |name| < EXT2_NAME_LEN
    ensures |r| == DESIZE && r[6] == |name| && r[8..8 + |name|] == name && r[8 + |name|] == 0
    ensures r[..4] == Le32(inum) && r[4..6] == Le16(rec)
  {
    Le32(inum) + Le16(rec) + [|name|, kind] + name + Zeros(EXT2_NAME_LEN - |name|) + [pad]
  }

  lemma HeaderOf(d: Bytes, o: int, inum: int, rec: int)
    requires Fits(d, o) && d[o..o + 4] == Le32(inum) && d[o + 4..o + 6] == Le16(rec)
    ensures Inode(d, o) == inum && RecLen(d, o) == rec
  {
    LeRoundTrip(rec, inum);
    assert d[o] == Le32(inum)[0] && d[o + 1] == Le32(inum)[1] && d[o + 2] == Le32(inum)[2] && d[o + 3] == Le32(inum)[3];
    assert d[o + 4] == Le16(rec)[0] && d[o + 5] == Le16(rec)[1];
  }

  /** What n bytes from the struct de on the stack are, if junk follows it. */
  function FromStack(de: Bytes, junk: Bytes, n: int): (r: Bytes)
    requires |de| == DESIZE && 0 <= n <= BSIZE <= |junk|
    ensures |r| == n && (n >= DESIZE ==> r[..DESIZE] == de) && (n < DESIZE ==> r == de[..n])
  {
    if n <= DESIZE then de[..n] else de + junk[..n - DESIZE]
  }

  lemma StackBytes(d: Bytes, o: int, rec: int, de: Bytes, junk: Bytes)
    requires 0 <= o && |de| == DESIZE && 0 <= rec <= BSIZE <= |junk| && o + rec <= |d|
    ensures var e := Put(d, o, FromStack(de, junk, rec)); forall i | 0 <= i < rec && i < DESIZE :: e[o + i] == de[i]
  {
    var b := FromStack(de, junk, rec);
    assert rec >= DESIZE ==> b[..DESIZE] == de;
  }

  /** A struct written over the block makes a record. */
  lemma EntryIsRec(d: Bytes, o: int, rec: int, inum: int, kind: int, name: Bytes, pad: int, junk: Bytes)
    requires |d| == BSIZE && Fits(d, o) && GoodName(name) && |name| < EXT2_NAME_LEN && 8 + |name| <= rec && o + rec <= BSIZE <= |junk|
    ensures var e := Put(d, o, FromStack(Entry(inum, rec, kind, name, pad), junk, rec));
      && Rec(e, o) && RecLen(e, o) == rec && Inode(e, o) == inum && Name(e, o) == name
      && (9 + |name| <= rec ==> Ends(e, o))
  {
    var de := Entry(inum, rec, kind, name, pad);
    var b := FromStack(de, junk, rec);
    var e := Put(d, o, b);
    StackBytes(d, o, rec, de, junk);
    assert e[o..o + 4] == de[..4] && e[o + 4..o + 6] == de[4..6];
    HeaderOf(e, o, inum, rec);
    assert NameLen(e, o) == de[6] == |name|;
    assert e[o + 8..o + 8 + |name|] == de[8..8 + |name|] == name;
    assert 9 + |name| <= rec ==> e[o + 8 + |name|] == de[8 + |name|] == 0;
  }

  /** Giving a record a new length, by reading its struct and writing it back. */
  lemma Resized(d: Bytes, o: int, rec: int)
    requires Rec(d, o) && Readable(d, o) && 9 + NameLen(d, o) <= rec && o + rec <= BSIZE
    ensures var de := d[o..o + DESIZE];
      var e := Put(d, o, de[..4] + Le16(rec) + de[6..]);
      && Rec(e, o) && RecLen(e, o) == rec && Inode(e, o) == Inode(d, o) && Name(e, o) == Name(d, o)
      && (Ends(d, o) ==> Ends(e, o))
      && forall i | 0 <= i < BSIZE && i != o + 4 && i != o + 5 :: e[i] == d[i]
  {
    var de := d[o..o + DESIZE];
    var b := de[..4] + Le16(rec) + de[6..];
    var e := Put(d, o, b);
    LeRoundTrip(rec, 0);
    assert b[4] == Le16(rec)[0] && b[5] == Le16(rec)[1];
    assert forall i | 0 <= i < DESIZE && i != 4 && i != 5 :: b[i] == de[i];
    assert forall i | 0 <= i < BSIZE && i != o + 4 && i != o + 5 :: e[i] == d[i];
    assert e[o + 8..o + 8 + NameLen(d, o)] == d[o + 8..o + 8 + NameLen(d, o)];
  }

  /** What readi copies out of the block is the record's header and name. */
  lemma StructAt(d: Bytes, o: int)
    requires Rec(d, o) && Readable(d, o)
    ensures var de := d[o..o + DESIZE];
      && Inode(de, 0) == Inode(d, o) && RecLen(de, 0) == RecLen(d, o) && NameLen(de, 0) == NameLen(d, o)
      && de[8..8 + NameLen(de, 0)] == Name(d, o)
  {
    var de := d[o..o + DESIZE];
    assert forall i | 0 <= i < DESIZE :: de[i] == d[o + i];
  }

  /** One record further, or found. */
  lemma LookupStep(d: Bytes, o: int, r: int, name: Bytes)
    requires 0 <= o < BSIZE && r == Reach(d, 0) == Reach(d, o) && Tiled(d, 0, r) && Distinct(d, 0, r)
    requires Tiled(d, 0, o) && name !in Binds(d, 0, o) && Readable(d, o) && Rec(d, o)
    ensures var n := o + RecLen(d, o);
      && o < n <= r <= BSIZE && Tiled(d, 0, n) && r == Reach(d, n)
      && if Inode(d, o) != 0 && Name(d, o) == name
         then name in Binds(d, 0, r) && Binds(d, 0, r)[name] == Inode(d, o)
         else name !in Binds(d, 0, n)
  {
    var n := o + RecLen(d, o);
    One(d, o);
    Append(d, 0, o, n);
    ReachIs(d, n);
    Append(d, 0, n, r);
    AppendDistinct(d, 0, n, r);
  }

  /** The record at l is shrunk in was, and e has the new record after it. */
  lemma AddedBinding(d: Bytes, was: Bytes, e: Bytes, l: int, name: Bytes, inum: int)
    requires |d| == |was| == |e| == BSIZE && Tiled(d, 0, BSIZE) && 0 <= l == Last(d, 0, BSIZE) < BSIZE && Rec(d, l) && inum != 0
    requires Rec(was, l) && Inode(was, l) == Inode(d, l) && Name(was, l) == Name(d, l)
    requires (forall i | 0 <= i < l :: was[i] == d[i]) && forall i | 0 <= i < l + RecLen(was, l) :: e[i] == was[i]
    requires var p := l + RecLen(was, l); Rec(e, p) && RecLen(e, p) == BSIZE - p && Inode(e, p) == inum && Name(e, p) == name
    ensures Binding(d, e, l, l + RecLen(was, l), name, inum) && (Ends(was, l) <==> Ends(e, l))
  {
    RecSame(was, e, l);
    LastIs(d, 0, BSIZE);
  }

  lemma Added(d: Bytes, was: Bytes, e: Bytes, l: int, p: int, name: Bytes, inum: int)
    requires |d| == |was| == |e| == BSIZE && Tiled(d, 0, BSIZE) && 0 <= l == Last(d, 0, BSIZE) < BSIZE && Rec(d, l) && inum != 0
    requires Distinct(d, 0, BSIZE) && name !in Binds(d, 0, BSIZE)
    requires Rec(was, l) && l + RecLen(was, l) == p && Inode(was, l) == Inode(d, l) && Name(was, l) == Name(d, l)
    requires (forall i | 0 <= i < l :: was[i] == d[i]) && forall i | 0 <= i < p :: e[i] == was[i]
    requires Rec(e, p) && RecLen(e, p) == BSIZE - p && Inode(e, p) == inum && Name(e, p) == name
    ensures Tiled(e, 0, BSIZE) && Distinct(e, 0, BSIZE) && Binds(e, 0, BSIZE) == Binds(d, 0, BSIZE)[name := inum]
    ensures Last(e, 0, BSIZE) == p
    ensures AllEnd(d, 0, BSIZE) && (Ends(d, l) ==> Ends(was, l)) && Ends(e, p) ==> AllEnd(e, 0, BSIZE)
  {
    AddedBinding(d, was, e, l, name, inum);
    Bind(d, e, l, p, name, inum);
    BindTiles(d, e, l, p, name, inum);
    LastOf(e, 0, p, BSIZE);
    if AllEnd(d, 0, BSIZE) && (Ends(d, l) ==> Ends(was, l)) && Ends(e, p) {
      LastEnds(d);
      BindEnds(d, e, l, p);
    }
  }

  class Dir {
    var data: Bytes
    var size: int

    /** An empty directory. */
    constructor (block: Bytes)
      requires |block| == BSIZE
      ensures Valid() && size == 0 && Map() == map[]
    {
      data, size := block, 0;
    }

    /** The records, as far as they can be read, are records, and no two bind the same name.  Nothing is
        asked of what is behind that. */
    ghost predicate Valid()
      reads this
    {
      && |data| == BSIZE && (size == 0 || size == BSIZE)
      && (size == BSIZE ==> Sound(data))
    }

    /** How far the directory can be read. */
    ghost function Limit(): (r: int)
      requires Valid()
      reads this
      ensures 0 <= r <= size && Tiled(data, 0, r) && Distinct(data, 0, r) && (r < size ==> !Readable(data, r))
    {
      if size == 0 then 0 else ReachIs(data, 0); Reach(data, 0)
    }

    ghost function Map(): map<Bytes, int>
      requires Valid()
      reads this
    {
      Binds(data, 0, Limit())
    }

    /** Short names have a NUL after them. */
    ghost predicate Plain()
      requires Valid()
      reads this
    {
      AllEnd(data, 0, Limit())
    }

    /** The inode bound to the name and where its record is, 0 if there is none; not ok where it panics,
        at the first record that it cannot read a struct from, without having met the name. */
    method Dirlookup(name: Bytes) returns (ok: bool, inum: int, off: int)
      requires Valid() && GoodName(name)
      ensures ok <==> name in Map() || Limit() == size
      ensures inum != 0 <==> name in Map()
      ensures inum != 0 ==> Map()[name] == inum
      ensures inum != 0 ==> size == BSIZE && Tiled(data, 0, off) && Rec(data, off) && Readable(data, off)
      ensures inum != 0 ==> Name(data, off) == name && Inode(data, off) == inum
    {
      ghost var r := Limit();
      inum, off := 0, 0;
      while off < size
        invariant 0 <= off <= size && inum == 0
        invariant Tiled(data, 0, off) && name !in Binds(data, 0, off)
        invariant size == BSIZE ==> off <= r == Reach(data, off)
        decreases size - off
      {
        if off + DESIZE > size {
          return false, 0, off;
        }
        assert Rec(data, off);
        var de := data[off..off + DESIZE];
        StructAt(data, off);
        LookupStep(data, off, r, name);
        if Inode(de, 0) != 0 {
          var fname := de[8..8 + NameLen(de, 0)];
          if fname == name {
            return true, Inode(de, 0), off;
          }
        }
        off := off + RecLen(de, 0);
      }
      ok := true;
    }

    /** ext2_dirlink's search for the record that reaches the end of the block with room to spare. */
    method FindLast() returns (off: int)
      requires Valid() && size == BSIZE == Limit()
      ensures var l := Last(data, 0, BSIZE); off == if BSIZE - l > DESIZE then l else BSIZE
    {
      off := 0;
      while off < size
        invariant 0 <= off <= size && Tiled(data, 0, off) && Tiled(data, off, BSIZE)
        invariant off < BSIZE ==> Last(data, off, BSIZE) == Last(data, 0, BSIZE)
        invariant off == BSIZE ==> BSIZE - Last(data, 0, BSIZE) <= DESIZE
        decreases size - off
      {
        One(data, off);
        TiledBound(data, off, BSIZE);
        Append(data, 0, off, off + RecLen(data, off));
        if RecLen(data, off) > DESIZE && RecLen(data, off) == BSIZE - off % BSIZE {
          return;
        }
        off := off + RecLen(data, off);
      }
    }

    /** One more binding, or none.  blank is what a newly allocated block holds, junk what lies on the
        stack after the entry struct. */
    method Dirlink(name: Bytes, inum: int, blank: Bytes, junk: Bytes) returns (r: Linked)
      requires Valid() && GoodName(name) && |name| < EXT2_NAME_LEN && inum != 0 && |blank| == BSIZE <= |junk|
      modifies this
      ensures Valid() && Map() == if r.Done? then old(Map())[name := inum] else old(Map())
      ensures r.Exists? <==> name in old(Map())
      ensures r.Short? <==> name !in old(Map()) && old(Limit() < size)
      ensures r.Done? || r.Full? || r.NoRoom? <==> name !in old(Map()) && old(Limit() == size)
      ensures name !in old(Map()) && old(Limit() == size) ==> r == Outcome(old(data), old(size))
      ensures r.Exists? || r.Short? || r.Full? ==> data == old(data) && size == old(size)
      ensures r.NoRoom? || r.Done? ==> size == BSIZE
      ensures r.NoRoom? ==> Limit() == After(old(data), old(size)) < size
      ensures r.Done? ==> Limit() == size && Last(data, 0, BSIZE) == After(old(data), old(size))
      ensures r.Done? ==> Fits(data, Last(data, 0, BSIZE)) && NameLen(data, Last(data, 0, BSIZE)) == |name|
      ensures r.Done? && old(Plain()) ==> Plain()
    {
      var read, ip, _ := Dirlookup(name);
      if !read {
        return Short;
      }
      if ip != 0 {
        return Exists;
      }
      if size == 0 {
        First(name, inum, blank, junk);
        return Done;
      }
      LastIs(data, 0, BSIZE);
      ReachLast(data, 0);
      var off := FindLast();
      if off == size {
        return Full;
      }
      var ok := Shrink(off);
      if !ok {
        Shrunk(old(data), data, off);
        return NoRoom;
      }
      Add(off, name, inum, junk, old(data));
      return Done;
    }

    /** The first record of a directory takes the whole block. */
    method First(name: Bytes, inum: int, blank: Bytes, junk: Bytes)
      requires GoodName(name) && |name| < EXT2_NAME_LEN && inum != 0 && |blank| == BSIZE <= |junk|
      modifies this
      ensures Valid() && size == BSIZE == Limit() && Map() == map[name := inum] && Plain()
      ensures Last(data, 0, BSIZE) == 0 && NameLen(data, 0) == |name|
    {
      size := BSIZE;
      var de := Entry(inum, BSIZE, junk[0], name, junk[1]);
      EntryIsRec(blank, 0, BSIZE, inum, junk[0], name, junk[1], blank[DESIZE..] + junk);
      assert FromStack(de, blank[DESIZE..] + junk, BSIZE) == de + blank[DESIZE..];
      assert Put(blank, 0, FromStack(de, blank[DESIZE..] + junk, BSIZE)) == Put(blank, 0, de);
      data := Put(blank, 0, de);
      One(data, 0);
      LastOf(data, 0, 0, BSIZE);
      ReachTo(data, 0, BSIZE);
      assert AllEnd(data, BSIZE, BSIZE);
    }

    /** The last record gives up all but its name; false when no struct fits after it. */
    method Shrink(l: int) returns (ok: bool)
      requires Rec(data, l) && l + RecLen(data, l) == BSIZE == size && RecLen(data, l) > DESIZE
      modifies this
      ensures size == old(size) && |data| == BSIZE
      ensures Rec(data, l) && RecLen(data, l) == 9 + NameLen(old(data), l)
      ensures Inode(data, l) == Inode(old(data), l) && Name(data, l) == Name(old(data), l)
      ensures Ends(old(data), l) ==> Ends(data, l)
      ensures forall i | 0 <= i < l :: data[i] == old(data)[i]
      ensures ok <==> l + 9 + NameLen(old(data), l) + DESIZE <= BSIZE
    {
      var de := data[l..l + DESIZE];
      var rec := DESIZE - EXT2_NAME_LEN + NameLen(de, 0);
      Resized(data, l, rec);
      data := Put(data, l, de[..4] + Le16(rec) + de[6..]);
      ok := l + rec + DESIZE <= size;
    }

    /** The new record, after the shrunk one at l. */
    method Add(l: int, name: Bytes, inum: int, junk: Bytes, ghost d: Bytes)
      requires |d| == BSIZE && Tiled(d, 0, BSIZE) && Distinct(d, 0, BSIZE) && name !in Binds(d, 0, BSIZE) && l == Last(d, 0, BSIZE)
      requires Rec(d, l) && l + 9 + NameLen(d, l) + DESIZE <= BSIZE == size <= |junk|
      requires GoodName(name) && |name| < EXT2_NAME_LEN && inum != 0
      requires Ends(d, l) ==> Rec(data, l) && Ends(data, l)
      requires Rec(data, l) && RecLen(data, l) == 9 + NameLen(d, l) && Inode(data, l) == Inode(d, l) && Name(data, l) == Name(d, l)
      requires |data| == BSIZE && forall i | 0 <= i < l :: data[i] == d[i]
      modifies this
      ensures Valid() && size == BSIZE == Limit() && Map() == Binds(d, 0, BSIZE)[name := inum]
      ensures Last(data, 0, BSIZE) == l + 9 + NameLen(d, l) && NameLen(data, Last(data, 0, BSIZE)) == |name|
      ensures AllEnd(d, 0, BSIZE) ==> Plain()
    {
      var off := l + RecLen(data, l);
      var de := data[off..off + DESIZE];
      var rec := BSIZE - off % BSIZE;
      EntryIsRec(data, off, rec, inum, de[7], name, de[263], junk);
      ghost var was := data;
      size := off + rec;
      data := Put(data, off, FromStack(Entry(inum, rec, de[7], name, de[263]), junk, rec));
      Added(d, was, data, l, off, name, inum);
      ReachTo(data, 0, BSIZE);
    }

    /** ext2_unlink, at the offset that Dirlookup found. */
    method Unlink(off: int, junk: Bytes)
      requires Valid() && size == BSIZE <= |junk| && Tiled(data, 0, off) && Rec(data, off) && Readable(data, off)
      requires Inode(data, off) != 0
      modifies this
      ensures Valid() && size == BSIZE && Limit() == old(Limit()) && Map() == old(Map()) - {Name(old(data), off)}
      ensures old(Plain()) ==> Plain()
    {
      var rec := RecLen(data, off);
      EntryIsRec(data, off, rec, 0, 0, [], 0, junk);
      ghost var was, z := data, Limit();
      ReachPast(data, 0, off);
      data := Put(data, off, FromStack(Entry(0, rec, 0, [], 0), junk, rec));
      ReachKept(was, data, 0, off, off + rec);
      Unbind(was, data, off, off + rec, z);
      if AllEnd(was, 0, z) {
        UnbindEnds(was, data, off, off + rec, z);
      }
    }

    /** ext2_isdirempty, which reads names as C strings: nothing is bound but "." and ".." (and that is
        what they are, given the NUL after short names).  Not ok where it panics, where it cannot read a
        struct and has met nothing else before. */
    method IsDirEmpty() returns (ok: bool, empty: bool)
      requires Valid()
      ensures ok <==> Limit() == size || !OnlyDots(data, 0, Limit())
      ensures ok ==> (empty <==> OnlyDots(data, 0, Limit()))
      ensures Plain() ==> (OnlyDots(data, 0, Limit()) <==> Map().Keys <= {DOT, DOTDOT})
    {
      ghost var r := Limit();
      if AllEnd(data, 0, r) && size == BSIZE {
        OnlyDotsAre(data, 0);
      }
      var off := 0;
      while off < size
        invariant 0 <= off <= size
        invariant size == BSIZE ==> off <= r == Reach(data, off) && Tiled(data, off, r)
        invariant size == BSIZE ==> (OnlyDots(data, 0, r) <==> OnlyDots(data, off, r))
        decreases size - off
      {
        if off + DESIZE > size {
          return false, false;
        }
        assert Rec(data, off);
        ReachIs(data, off + RecLen(data, off));
        if !IsDot(data, off) && !IsDotDot(data, off) && Inode(data, off) != 0 {
          return true, false;
        }
        off := off + RecLen(data, off);
      }
      return true, true;
    }
  }

  /** A scan does not end before a record that can be read. */
  lemma {:induction false} ReachPast(d: Bytes, p: int, o: int)
    requires 0 <= p && Tiled(d, p, o) && Rec(d, o) && Readable(d, o)
    ensures o + RecLen(d, o) <= Reach(d, p)
    decreases o - p
  {
    TiledBound(d, p, o);
    if p < o {
      ReachPast(d, p + RecLen(d, p), o);
    } else {
      ReachIs(d, o + RecLen(d, o));
    }
  }

  /** A scan ends at the end of the block or where it cannot read a struct, never at a malformed record,
      and meets no name twice. */
  ghost predicate Sound(d: Bytes) {
    && |d| == BSIZE && (Reach(d, 0) < BSIZE ==> !Readable(d, Reach(d, 0)))
    && Tiled(d, 0, Reach(d, 0)) && Distinct(d, 0, Reach(d, 0))
  }

  /** Where ext2_dirlink would put the next record of a directory that can be read to its end. */
  function After(d: Bytes, size: int): int
    requires size == BSIZE == |d| ==> Tiled(d, 0, BSIZE)
  {
    if size != BSIZE || |d| != BSIZE then 0 else
      var l := Last(d, 0, BSIZE);
      if Fits(d, l) then l + 9 + NameLen(d, l) else l
  }

  /** What becomes of linking a new name into it. */
  function Outcome(d: Bytes, size: int): Linked
    requires size == BSIZE == |d| ==> Tiled(d, 0, BSIZE)
  {
    if size != BSIZE || |d| != BSIZE then Done
    else if Last(d, 0, BSIZE) + DESIZE == BSIZE then Full
    else if After(d, size) + DESIZE <= BSIZE then Done else NoRoom
  }

  /** A shrink with no room after it: the last record ends where no struct can be read, so every later scan
      of the whole directory panics there.  No binding is lost. */
  lemma Shrunk(d: Bytes, e: Bytes, l: int)
    requires |d| == BSIZE == |e| && Tiled(d, 0, BSIZE) && Distinct(d, 0, BSIZE) && l == Last(d, 0, BSIZE) && 0 <= l < BSIZE && Readable(d, l)
    requires Rec(d, l) && Rec(e, l) && Inode(e, l) == Inode(d, l) && Name(e, l) == Name(d, l) && (forall i | 0 <= i < l :: e[i] == d[i])
    requires l + RecLen(e, l) < BSIZE && !Readable(e, l + RecLen(e, l))
    ensures Sound(e) && Reach(e, 0) == l + RecLen(e, l) && Binds(e, 0, Reach(e, 0)) == Binds(d, 0, BSIZE)
  {
    var p := l + RecLen(e, l);
    LastIs(d, 0, BSIZE);
    Frame(d, e, 0, l);
    One(d, l);
    One(e, l);
    Append(d, 0, l, BSIZE);
    AppendDistinct(d, 0, l, BSIZE);
    Append(e, 0, l, p);
    AppendDistinct(e, 0, l, p);
    LastOf(e, 0, l, p);
    ReachTo(e, 0, p);
  }

  const DOT := [46]
  const DOTDOT := [46, 46]

  /** namecmp of the name field, read as a C string, with "." and "..". */
  predicate IsDot(d: Bytes, o: int) {
    Readable(d, o) && d[o + 8] == 46 && d[o + 9] == 0
  }

  predicate IsDotDot(d: Bytes, o: int) {
    Readable(d, o) && d[o + 8] == 46 && d[o + 9] == 46 && d[o + 10] == 0
  }

  predicate OnlyDots(d: Bytes, o: int, m: int)
    requires Tiled(d, o, m)
    decreases m - o
  {
    o == m || ((IsDot(d, o) || IsDotDot(d, o) || Inode(d, o) == 0) && OnlyDots(d, o + RecLen(d, o), m))
  }

  lemma DotsAre(d: Bytes, o: int)
    requires Rec(d, o) && Readable(d, o) && Inode(d, o) != 0 && Ends(d, o)
    ensures (IsDot(d, o) <==> Name(d, o) == DOT) && (IsDotDot(d, o) <==> Name(d, o) == DOTDOT)
  {
    var n, name := NameLen(d, o), Name(d, o);
    assert n > 0 ==> name[0] == d[o + 8];
    assert n > 1 ==> name[1] == d[o + 9];
    assert n > 2 ==> name[2] == d[o + 10];
    assert n == 1 ==> (name == DOT <==> name[0] == 46);
    assert n == 2 ==> (name == DOTDOT <==> name[0] == 46 && name[1] == 46);
  }

  lemma {:induction false} OnlyDotsAre(d: Bytes, o: int)
    requires 0 <= o <= BSIZE && Tiled(d, o, Reach(d, o)) && AllEnd(d, o, Reach(d, o))
    ensures OnlyDots(d, o, Reach(d, o)) <==> Binds(d, o, Reach(d, o)).Keys <= {DOT, DOTDOT}
    decreases BSIZE - o
  {
    var m := Reach(d, o);
    if o < m {
      var n := o + RecLen(d, o);
      OnlyDotsAre(d, n);
      if Inode(d, o) != 0 {
        DotsAre(d, o);
        assert Binds(d, o, m).Keys == Binds(d, n, m).Keys + {Name(d, o)};
      }
    }
  }

  lemma LastEnds(d: Bytes)
    requires |d| == BSIZE && Tiled(d, 0, BSIZE) && AllEnd(d, 0, BSIZE)
    ensures Rec(d, Last(d, 0, BSIZE)) && Ends(d, Last(d, 0, BSIZE))
  {
    LastIs(d, 0, BSIZE);
    One(d, Last(d, 0, BSIZE));
    AppendEnds(d, 0, Last(d, 0, BSIZE), BSIZE);
  }

  /** Name number n of the run below: 254 bytes. */
  function LongName(n: int): (r: Bytes)
    requires 0 <= n
    ensures GoodName(r) && |r| == 254 && r[0] == n + 1
  {
    [n + 1] + seq(253, _ => 1)
  }

  /** Seven such names fill the block as far as ext2_dirlink can; the eighth link panics, having cut the
      last record short, and from then on looking for any unbound name panics. */
  method EighthLink(blank: Bytes, junk: Bytes) returns (dir: Dir, ok: bool)
    requires |blank| == BSIZE <= |junk|
    ensures fresh(dir) && dir.Valid() && dir.Limit() < dir.size && |dir.Map()| == 7 && !ok
  {
    dir := new Dir(blank);
    var n := 0;
    while n < 7
      invariant 0 <= n <= 7 && fresh(dir) && dir.Valid() && dir.Limit() == dir.size && |dir.Map()| == n
      invariant n == 0 <==> dir.size == 0
      invariant n > 0 ==> Last(dir.data, 0, BSIZE) == 263 * (n - 1) && NameLen(dir.data, Last(dir.data, 0, BSIZE)) == 254
      invariant forall nm | nm in dir.Map() :: |nm| > 0 && nm[0] <= n
    {
      var r := dir.Dirlink(LongName(n), 1, blank, junk);
      n := n + 1;
    }
    var r := dir.Dirlink(LongName(7), 1, blank, junk);
    assert LongName(8)[0] == 9;
    var inum, off;
    ok, inum, off := dir.Dirlookup(LongName(8));
  }
}
