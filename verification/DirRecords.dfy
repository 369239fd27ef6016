/** The bytes of a one-block ext2 directory: variable-length records, as ext2fs.c lays them out. */
module DirRecords {

  const BSIZE := 2048
  const EXT2_NAME_LEN := 255

  /** sizeof(struct ext2_dir_entry_2): 8 bytes, the name, and one byte of padding. */
  const DESIZE := 264

  type Bytes = seq<int>

  function U16(d: Bytes, o: int): int
    requires 0 <= o && o + 2 <= |d|
  {
    d[o] + 256 * d[o + 1]
  }

  function U32(d: Bytes, o: int): int
    requires 0 <= o && o + 4 <= |d|
  {
    d[o] + 256 * d[o + 1] + 65536 * d[o + 2] + 16777216 * d[o + 3]
  }

  function Le16(v: int): Bytes {
    [v % 256, v / 256]
  }

  function Le32(v: int): Bytes {
    [v % 256, v / 256 % 256, v / 65536 % 256, v / 16777216]
  }

  lemma LeRoundTrip(v: int, w: int)
    ensures U16(Le16(v), 0) == v && U32(Le32(w), 0) == w
  {
    assert w / 256 / 256 == w / 65536 && w / 65536 / 256 == w / 16777216;
  }

  // ---------- the record at offset o ----------

  /** The header of a record at o is inside the block. */
  predicate Fits(d: Bytes, o: int) {
    0 <= o && o + 8 <= |d|
  }

  /** So is a whole struct, which is what the code reads there whatever the record's length. */
  predicate Readable(d: Bytes, o: int) {
    0 <= o && o + DESIZE <= |d|
  }

  function Inode(d: Bytes, o: int): int
    requires Fits(d, o)
  {
    U32(d, o)
  }

  function RecLen(d: Bytes, o: int): int
    requires Fits(d, o)
  {
    U16(d, o + 4)
  }

  function NameLen(d: Bytes, o: int): int
    requires Fits(d, o)
  {
    d[o + 6]
  }

  predicate GoodName(name: Bytes) {
    |name| <= EXT2_NAME_LEN && forall i | 0 <= i < |name| :: name[i] != 0
  }

  /** A name inside the record, with or without a NUL after it, and the record inside the block. */
  predicate Rec(d: Bytes, o: int) {
    && Fits(d, o) && |d| == BSIZE
    && 0 <= NameLen(d, o) <= EXT2_NAME_LEN && 8 + NameLen(d, o) <= RecLen(d, o) && o + RecLen(d, o) <= BSIZE
    && GoodName(d[o + 8..o + 8 + NameLen(d, o)])
  }

  function Name(d: Bytes, o: int): Bytes
    requires Rec(d, o)
  {
    d[o + 8..o + 8 + NameLen(d, o)]
  }

  // ---------- records end to end ----------

  /** Records tile [o, m). */
  predicate Tiled(d: Bytes, o: int, m: int)
    decreases m - o
  {
    o == m || (o < m && Rec(d, o) && Tiled(d, o + RecLen(d, o), m))
  }

  /** The bindings of the live records in [o, m); the first of several records with one name counts. */
  function Binds(d: Bytes, o: int, m: int): map<Bytes, int>
    requires Tiled(d, o, m)
    decreases m - o
  {
    if o == m then map[]
    else
      var rest := Binds(d, o + RecLen(d, o), m);
      if Inode(d, o) == 0 then rest else rest[Name(d, o) := Inode(d, o)]
  }

  /** No two live records have the same name. */
  predicate Distinct(d: Bytes, o: int, m: int)
    requires Tiled(d, o, m)
    decreases m - o
  {
    o == m || (Distinct(d, o + RecLen(d, o), m) && (Inode(d, o) != 0 ==> Name(d, o) !in Binds(d, o + RecLen(d, o), m)))
  }

  /** A live record whose name might be "." or ".." has a NUL after it.  The standard's padding to four
      bytes leaves room for one. */
  predicate Ends(d: Bytes, o: int)
    requires Rec(d, o)
  {
    Inode(d, o) == 0 || NameLen(d, o) > 2 || (9 + NameLen(d, o) <= RecLen(d, o) && d[o + 8 + NameLen(d, o)] == 0)
  }

  predicate AllEnd(d: Bytes, o: int, m: int)
    requires Tiled(d, o, m)
    decreases m - o
  {
    o == m || (Ends(d, o) && AllEnd(d, o + RecLen(d, o), m))
  }

  /** Where the last record starts. */
  function Last(d: Bytes, o: int, m: int): int
    requires Tiled(d, o, m) && o < m
    decreases m - o
  {
    if o + RecLen(d, o) == m then o else Last(d, o + RecLen(d, o), m)
  }

  /** Where a scan from o on ends: at the end of the block, or where it cannot read a struct, or at what
      is not a record. */
  function Reach(d: Bytes, o: int): int
    decreases BSIZE - o
  {
    if o < BSIZE && Readable(d, o) && Rec(d, o) then Reach(d, o + RecLen(d, o)) else o
  }

  lemma {:induction false} ReachIs(d: Bytes, o: int)
    requires o <= BSIZE
    ensures o <= Reach(d, o) <= BSIZE && Tiled(d, o, Reach(d, o))
    decreases BSIZE - o
  {
    if o < BSIZE && Readable(d, o) && Rec(d, o) {
      ReachIs(d, o + RecLen(d, o));
    }
  }

  lemma {:induction false} ReachLast(d: Bytes, o: int)
    requires o < BSIZE && o < Reach(d, o) && Tiled(d, o, Reach(d, o))
    ensures Readable(d, Last(d, o, Reach(d, o)))
    decreases BSIZE - o
  {
    var n := o + RecLen(d, o);
    if n < Reach(d, o) {
      ReachLast(d, n);
    }
  }

  /** Records up to a last one that can be read are read, and the scan ends after it if it must. */
  lemma {:induction false} ReachTo(d: Bytes, o: int, m: int)
    requires |d| == BSIZE && 0 <= o < m <= BSIZE && Tiled(d, o, m) && Readable(d, Last(d, o, m)) && (m == BSIZE || !Readable(d, m))
    ensures Reach(d, o) == m
    decreases m - o
  {
    TiledBound(d, o, m);
    var n := o + RecLen(d, o);
    if n < m {
      LastIs(d, n, m);
      ReachTo(d, n, m);
    }
  }

  /** The last of the records is the one that ends the tiling. */
  lemma {:induction false} LastOf(d: Bytes, o: int, l: int, m: int)
    requires Tiled(d, o, l) && Rec(d, l) && l + RecLen(d, l) == m && Tiled(d, o, m)
    ensures o < m && Last(d, o, m) == l
    decreases l - o
  {
    TiledBound(d, o, l);
    if o < l {
      LastOf(d, o + RecLen(d, o), l, m);
    }
  }

  /** A scan depends on the bytes from where it starts. */
  lemma {:induction false} ReachFrame(d: Bytes, e: Bytes, o: int)
    requires |d| == |e| == BSIZE && 0 <= o && forall i | o <= i < BSIZE :: e[i] == d[i]
    ensures Reach(e, o) == Reach(d, o)
    decreases BSIZE - o
  {
    if o < BSIZE && Readable(d, o) {
      if Rec(d, o) {
        RecSame(d, e, o);
        ReachFrame(d, e, o + RecLen(d, o));
      } else if Rec(e, o) {
        RecSame(e, d, o);
      }
    }
  }

  /** A record rewritten with its length does not change how far scans go. */
  lemma {:induction false} ReachKept(d: Bytes, e: Bytes, p: int, o: int, m: int)
    requires |d| == |e| == BSIZE && 0 <= p && Tiled(d, p, o) && Rec(d, o) && Readable(d, o) && o + RecLen(d, o) == m
    requires Rec(e, o) && o + RecLen(e, o) == m
    requires (forall i | 0 <= i < o :: e[i] == d[i]) && forall i | m <= i < BSIZE :: e[i] == d[i]
    ensures Reach(e, p) == Reach(d, p)
    decreases o - p
  {
    if p == o {
      ReachFrame(d, e, m);
    } else {
      TiledBound(d, p, o);
      RecSame(d, e, p);
      ReachKept(d, e, p + RecLen(d, p), o, m);
    }
  }

  lemma {:induction false} TiledBound(d: Bytes, o: int, m: int)
    requires Tiled(d, o, m)
    ensures o <= m && (o < m ==> o + RecLen(d, o) <= m)
    decreases m - o
  {
    if o < m {
      TiledBound(d, o + RecLen(d, o), m);
    }
  }

  lemma RecSame(d: Bytes, e: Bytes, o: int)
    requires Rec(d, o) && |e| == BSIZE && forall i | o <= i < o + RecLen(d, o) :: e[i] == d[i]
    ensures Rec(e, o) && RecLen(e, o) == RecLen(d, o) && Inode(e, o) == Inode(d, o) && Name(e, o) == Name(d, o)
    ensures Ends(e, o) <==> Ends(d, o)
  {
    assert d[o + 8..o + 8 + NameLen(d, o)] == e[o + 8..o + 8 + NameLen(d, o)];
  }

  /** Records depend on their own bytes only. */
  lemma {:induction false} Frame(d: Bytes, e: Bytes, o: int, m: int)
    requires Tiled(d, o, m) && |e| == BSIZE && m <= BSIZE && 0 <= o && |d| == BSIZE && forall i | o <= i < m :: e[i] == d[i]
    ensures Tiled(e, o, m) && Binds(e, o, m) == Binds(d, o, m) && (Distinct(e, o, m) <==> Distinct(d, o, m))
    ensures AllEnd(e, o, m) <==> AllEnd(d, o, m)
    decreases m - o
  {
    if o < m {
      TiledBound(d, o, m);
      RecSame(d, e, o);
      Frame(d, e, o + RecLen(d, o), m);
    }
  }

  /** Two tilings side by side. */
  lemma {:induction false} Append(d: Bytes, o: int, m: int, n: int)
    requires Tiled(d, o, m) && Tiled(d, m, n)
    ensures Tiled(d, o, n) && Binds(d, o, n) == Binds(d, m, n) + Binds(d, o, m)
    decreases m - o
  {
    if o < m {
      TiledBound(d, o, m);
      TiledBound(d, m, n);
      Append(d, o + RecLen(d, o), m, n);
    }
  }

  lemma {:induction false} AppendDistinct(d: Bytes, o: int, m: int, n: int)
    requires Tiled(d, o, m) && Tiled(d, m, n) && Tiled(d, o, n)
    ensures Distinct(d, o, n) <==> Distinct(d, o, m) && Distinct(d, m, n) && Binds(d, o, m).Keys !! Binds(d, m, n).Keys
    decreases m - o
  {
    if o < m {
      TiledBound(d, o, m);
      TiledBound(d, m, n);
      var p := o + RecLen(d, o);
      Append(d, p, m, n);
      AppendDistinct(d, p, m, n);
    }
  }

  lemma {:induction false} AppendEnds(d: Bytes, o: int, m: int, n: int)
    requires Tiled(d, o, m) && Tiled(d, m, n) && Tiled(d, o, n)
    ensures AllEnd(d, o, n) <==> AllEnd(d, o, m) && AllEnd(d, m, n)
    decreases m - o
  {
    if o < m {
      TiledBound(d, o, m);
      TiledBound(d, m, n);
      Append(d, o + RecLen(d, o), m, n);
      AppendEnds(d, o + RecLen(d, o), m, n);
    }
  }

  lemma {:induction false} LastIs(d: Bytes, o: int, m: int)
    requires Tiled(d, o, m) && o < m
    ensures var l := Last(d, o, m); o <= l < m && Tiled(d, o, l) && Rec(d, l) && l + RecLen(d, l) == m
    decreases m - o
  {
    TiledBound(d, o, m);
    var p := o + RecLen(d, o);
    if p < m {
      LastIs(d, p, m);
    }
  }

  lemma {:induction false} Suffix(d: Bytes, o: int, m: int, n: int)
    requires Tiled(d, o, m) && Tiled(d, o, n) && m <= n
    ensures Tiled(d, m, n)
    decreases m - o
  {
    if o < m {
      Suffix(d, o + RecLen(d, o), m, n);
    }
  }

  /** One record by itself. */
  lemma One(d: Bytes, o: int)
    requires Rec(d, o)
    ensures var m := o + RecLen(d, o);
      && Tiled(d, o, m) && Distinct(d, o, m)
      && Binds(d, o, m) == if Inode(d, o) == 0 then map[] else map[Name(d, o) := Inode(d, o)]
  {
    var m := o + RecLen(d, o);
    assert Tiled(d, m, m);
  }

  /** In e the record from o to m of the tiling of d has lost its inode number. */
  predicate Unbinding(d: Bytes, e: Bytes, o: int, m: int, z: int) {
    && |d| == BSIZE == |e| && 0 <= o && z <= BSIZE && Tiled(d, 0, z) && Tiled(d, 0, o) && Rec(d, o) && o + RecLen(d, o) == m <= z
    && (forall i | 0 <= i < o :: e[i] == d[i]) && (forall i | m <= i < BSIZE :: e[i] == d[i])
    && Rec(e, o) && o + RecLen(e, o) == m && Inode(e, o) == 0
  }

  /** A tiling in three parts. */
  lemma Three(d: Bytes, o: int, m: int, z: int)
    requires Tiled(d, 0, o) && Tiled(d, o, m) && Tiled(d, m, z)
    ensures Tiled(d, 0, z) && Binds(d, 0, z) == Binds(d, m, z) + (Binds(d, o, m) + Binds(d, 0, o))
  {
    Append(d, 0, o, m);
    Append(d, 0, m, z);
  }

  lemma ThreeDistinct(d: Bytes, o: int, m: int, z: int)
    requires Tiled(d, 0, o) && Tiled(d, o, m) && Tiled(d, m, z) && Tiled(d, 0, z)
    ensures Distinct(d, 0, z) <==>
            && Distinct(d, 0, o) && Distinct(d, o, m) && Distinct(d, m, z)
            && Binds(d, 0, o).Keys !! Binds(d, o, m).Keys
            && (Binds(d, 0, o).Keys + Binds(d, o, m).Keys) !! Binds(d, m, z).Keys
  {
    Append(d, 0, o, m);
    AppendDistinct(d, 0, o, m);
    AppendDistinct(d, 0, m, z);
    assert Binds(d, 0, m).Keys == Binds(d, 0, o).Keys + Binds(d, o, m).Keys;
  }

  lemma ThreeEnds(d: Bytes, o: int, m: int, z: int)
    requires Tiled(d, 0, o) && Tiled(d, o, m) && Tiled(d, m, z) && Tiled(d, 0, z)
    ensures AllEnd(d, 0, z) <==> AllEnd(d, 0, o) && AllEnd(d, o, m) && AllEnd(d, m, z)
  {
    Append(d, 0, o, m);
    AppendEnds(d, 0, o, m);
    AppendEnds(d, 0, m, z);
  }

  lemma Cut(d: Bytes, o: int, m: int, z: int)
    requires Tiled(d, 0, z) && Tiled(d, 0, o) && Rec(d, o) && o + RecLen(d, o) == m <= z
    ensures Tiled(d, o, m) && Tiled(d, m, z)
  {
    One(d, o);
    Append(d, 0, o, m);
    Suffix(d, 0, m, z);
  }

  lemma UnbindTiles(d: Bytes, e: Bytes, o: int, m: int, z: int)
    requires Unbinding(d, e, o, m, z)
    ensures Tiled(d, o, m) && Tiled(d, m, z) && Tiled(e, 0, o) && Tiled(e, o, m) && Tiled(e, m, z) && Tiled(e, 0, z)
  {
    Cut(d, o, m, z);
    One(e, o);
    Frame(d, e, 0, o);
    Frame(d, e, m, z);
    Three(e, o, m, z);
  }

  lemma OuterDistinct(d: Bytes, o: int, m: int, z: int)
    requires Tiled(d, 0, o) && Tiled(d, o, m) && Tiled(d, m, z) && Tiled(d, 0, z) && Distinct(d, 0, z)
    ensures Distinct(d, 0, o) && Distinct(d, m, z) && Binds(d, 0, o).Keys !! Binds(d, m, z).Keys
  {
    ThreeDistinct(d, o, m, z);
  }

  lemma SameBinds(d: Bytes, e: Bytes, o: int, m: int)
    requires Tiled(d, o, m) && |e| == BSIZE && m <= BSIZE && 0 <= o && |d| == BSIZE && forall i | o <= i < m :: e[i] == d[i]
    requires Distinct(d, o, m)
    ensures Tiled(e, o, m) && Distinct(e, o, m) && Binds(e, o, m) == Binds(d, o, m)
  {
    Frame(d, e, o, m);
  }

  lemma UnbindDistinct(d: Bytes, e: Bytes, o: int, m: int, z: int)
    requires Unbinding(d, e, o, m, z) && Distinct(d, 0, z) && Tiled(d, o, m) && Tiled(d, m, z)
    requires Tiled(e, 0, o) && Tiled(e, o, m) && Tiled(e, m, z) && Tiled(e, 0, z)
    ensures Distinct(e, 0, z)
  {
    OuterDistinct(d, o, m, z);
    SameBinds(d, e, 0, o);
    SameBinds(d, e, m, z);
    One(e, o);
    DeadBetween(e, o, m, z);
  }

  lemma DeadBetween(e: Bytes, o: int, m: int, z: int)
    requires Tiled(e, 0, o) && Tiled(e, o, m) && Tiled(e, m, z) && Tiled(e, 0, z) && Binds(e, o, m) == map[]
    requires Distinct(e, 0, o) && Distinct(e, o, m) && Distinct(e, m, z) && Binds(e, 0, o).Keys !! Binds(e, m, z).Keys
    ensures Distinct(e, 0, z)
  {
    ThreeDistinct(e, o, m, z);
    assert Binds(e, 0, o).Keys + {} == Binds(e, 0, o).Keys;
  }

  /** That removes exactly one binding. */
  lemma Unbind(d: Bytes, e: Bytes, o: int, m: int, z: int)
    requires Unbinding(d, e, o, m, z) && Distinct(d, 0, z) && Inode(d, o) != 0
    ensures Tiled(e, 0, z) && Distinct(e, 0, z) && Binds(e, 0, z) == Binds(d, 0, z) - {Name(d, o)}
  {
    UnbindTiles(d, e, o, m, z);
    UnbindDistinct(d, e, o, m, z);
    UnbindBinds(d, e, o, m, z);
  }

  lemma UnbindBinds(d: Bytes, e: Bytes, o: int, m: int, z: int)
    requires Unbinding(d, e, o, m, z) && Distinct(d, 0, z) && Inode(d, o) != 0 && Tiled(d, o, m) && Tiled(d, m, z)
    requires Tiled(e, 0, o) && Tiled(e, o, m) && Tiled(e, m, z) && Tiled(e, 0, z)
    ensures Binds(e, 0, z) == Binds(d, 0, z) - {Name(d, o)}
  {
    var k, v, below, above := Name(d, o), Inode(d, o), Binds(d, 0, o), Binds(d, m, z);
    One(d, o);
    One(e, o);
    ThreeDistinct(d, o, m, z);
    assert k in map[k := v].Keys;
    Three(d, o, m, z);
    Three(e, o, m, z);
    Frame(d, e, 0, o);
    Frame(d, e, m, z);
    UnbindMaps(above, below, k, v);
  }

  lemma UnbindEnds(d: Bytes, e: Bytes, o: int, m: int, z: int)
    requires Unbinding(d, e, o, m, z) && AllEnd(d, 0, z)
    ensures Tiled(e, 0, z) && AllEnd(e, 0, z)
  {
    UnbindTiles(d, e, o, m, z);
    ThreeEnds(d, o, m, z);
    SameEnds(d, e, 0, o);
    OneEnds(e, o);
    SameEnds(d, e, m, z);
    ThreeEnds(e, o, m, z);
  }

  lemma SameEnds(d: Bytes, e: Bytes, o: int, m: int)
    requires Tiled(d, o, m) && |e| == BSIZE && m <= BSIZE && 0 <= o && |d| == BSIZE && forall i | o <= i < m :: e[i] == d[i]
    requires AllEnd(d, o, m)
    ensures Tiled(e, o, m) && AllEnd(e, o, m)
  {
    Frame(d, e, o, m);
  }

  lemma UnbindMaps(a: map<Bytes, int>, b: map<Bytes, int>, k: Bytes, v: int)
    requires k !in a && k !in b
    ensures a + (map[] + b) == (a + (map[k := v] + b)) - {k}
  {
  }

  /** d's last record has shrunk to its name in e, and a new one takes the rest of the block. */
  predicate Binding(d: Bytes, e: Bytes, l: int, p: int, name: Bytes, inum: int) {
    && |d| == BSIZE == |e| && 0 <= l < BSIZE && Tiled(d, 0, l) && Rec(d, l) && l + RecLen(d, l) == BSIZE
    && (forall i | 0 <= i < l :: e[i] == d[i]) && inum != 0
    && Rec(e, l) && l + RecLen(e, l) == p && Inode(e, l) == Inode(d, l) && Name(e, l) == Name(d, l)
    && Rec(e, p) && p + RecLen(e, p) == BSIZE && Inode(e, p) == inum && Name(e, p) == name
  }

  lemma BindTiles(d: Bytes, e: Bytes, l: int, p: int, name: Bytes, inum: int)
    requires Binding(d, e, l, p, name, inum)
    ensures Tiled(e, 0, l) && Binds(e, 0, l) == Binds(d, 0, l) && (Distinct(e, 0, l) <==> Distinct(d, 0, l))
    ensures Tiled(e, 0, p) && Tiled(e, l, p) && Tiled(e, p, BSIZE) && Tiled(e, 0, BSIZE)
    ensures Tiled(d, l, BSIZE) && Binds(e, l, p) == Binds(d, l, BSIZE) && Binds(e, p, BSIZE) == map[name := inum]
    ensures Distinct(e, l, p) && Distinct(e, p, BSIZE)
  {
    Frame(d, e, 0, l);
    One(d, l);
    One(e, l);
    One(e, p);
    Append(e, 0, l, p);
    Append(e, 0, p, BSIZE);
  }

  lemma BindDistinct(d: Bytes, e: Bytes, l: int, p: int, name: Bytes, inum: int)
    requires Binding(d, e, l, p, name, inum) && Tiled(d, 0, BSIZE) && Distinct(d, 0, BSIZE) && name !in Binds(d, 0, BSIZE)
    ensures Tiled(e, 0, BSIZE) && Distinct(e, 0, BSIZE)
  {
    BindTiles(d, e, l, p, name, inum);
    Append(d, 0, l, BSIZE);
    AppendDistinct(d, 0, l, BSIZE);
    Append(e, 0, l, p);
    AppendDistinct(e, 0, l, p);
    AppendDistinct(e, 0, p, BSIZE);
  }

  /** That adds exactly one binding. */
  lemma Bind(d: Bytes, e: Bytes, l: int, p: int, name: Bytes, inum: int)
    requires Binding(d, e, l, p, name, inum) && Tiled(d, 0, BSIZE) && Distinct(d, 0, BSIZE) && name !in Binds(d, 0, BSIZE)
    ensures Tiled(e, 0, BSIZE) && Distinct(e, 0, BSIZE) && Binds(e, 0, BSIZE) == Binds(d, 0, BSIZE)[name := inum]
  {
    BindDistinct(d, e, l, p, name, inum);
    BindTiles(d, e, l, p, name, inum);
    Append(d, 0, l, BSIZE);
    Append(e, 0, l, p);
    Append(e, 0, p, BSIZE);
    BindMaps(Binds(d, l, BSIZE), Binds(d, 0, l), name, inum);
  }

  lemma BindEnds(d: Bytes, e: Bytes, l: int, p: int)
    requires Tiled(d, 0, BSIZE) && Tiled(e, 0, BSIZE) && |d| == BSIZE == |e| && l == Last(d, 0, BSIZE) && 0 <= l < BSIZE
    requires (forall i | 0 <= i < l :: e[i] == d[i]) && AllEnd(d, 0, BSIZE)
    requires Rec(e, l) && l + RecLen(e, l) == p && Ends(e, l) && Rec(e, p) && p + RecLen(e, p) == BSIZE && Ends(e, p)
    ensures AllEnd(e, 0, BSIZE)
  {
    LastIs(d, 0, BSIZE);
    One(d, l);
    AppendEnds(d, 0, l, BSIZE);
    SameEnds(d, e, 0, l);
    OneEnds(e, l);
    OneEnds(e, p);
    ThreeEnds(e, l, p, BSIZE);
  }

  lemma OneEnds(d: Bytes, o: int)
    requires Rec(d, o) && Ends(d, o)
    ensures Tiled(d, o, o + RecLen(d, o)) && AllEnd(d, o, o + RecLen(d, o))
  {
    One(d, o);
    assert AllEnd(d, o + RecLen(d, o), o + RecLen(d, o));
  }

  lemma BindMaps(a: map<Bytes, int>, b: map<Bytes, int>, k: Bytes, v: int)
    requires k !in a && k !in b
    ensures map[k := v] + (a + b) == (a + b)[k := v]
  {
  }
}
