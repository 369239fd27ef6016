/** Directories of fs.c: files of 16-byte entries, an inode number and up to fourteen bytes of name.  An
    entry with inode number 0 is free. */
module Dirents {
  import opened FileBytes

  const DIRENT: int := 16
  const DIRSIZ: int := 14

  /** A path element as skipelem leaves it. */
  predicate IsName(name: seq<int>) {
    |name| <= DIRSIZ && 0 !in name
  }

  /** The bytes before the first NUL: what strncmp compares. */
  function Trim(b: seq<int>): seq<int> {
    if b == [] || b[0] == 0 then [] else [b[0]] + Trim(b[1..])
  }

  function Pad(n: nat): seq<int> {
    seq(n, k => 0)
  }

  lemma {:induction false} TrimPadded(name: seq<int>, n: nat)
    requires 0 !in name
    ensures Trim(name + Pad(n)) == name
  {
    if name != [] {
      assert name[0] in name && (name + Pad(n))[1..] == name[1..] + Pad(n);
      TrimPadded(name[1..], n);
    }
  }

  /** The bytes of an entry; its inode number is a ushort. */
  function Entry(inum: int, name: seq<int>): (e: seq<int>)
    requires IsName(name)
    ensures |e| == DIRENT
  {
    [inum % 256, inum / 256 % 256] + (name + Pad(DIRSIZ - |name|))
  }

  function Slots(c: seq<int>): nat {
    |c| / DIRENT
  }

  /** Slot k of a directory with contents c. */
  function Slot(c: seq<int>, k: int): (e: seq<int>)
    requires 0 <= k < Slots(c)
    ensures |e| == DIRENT
  {
    c[DIRENT * k..DIRENT * k + DIRENT]
  }

  function Inum(e: seq<int>): int
    requires |e| == DIRENT
  {
    e[0] + 256 * e[1]
  }

  function Name(e: seq<int>): seq<int>
    requires |e| == DIRENT
  {
    Trim(e[2..])
  }

  lemma EntryReads(inum: int, name: seq<int>)
    requires IsName(name)
    ensures Inum(Entry(inum, name)) == inum % 65536 && Name(Entry(inum, name)) == name
    ensures Entry(inum, name)[0] == inum % 256 && Entry(inum, name)[2..2 + |name|] == name
    ensures forall k | 2 + |name| <= k < DIRENT :: Entry(inum, name)[k] == 0
  {
    TrimPadded(name, DIRSIZ - |name|);
    assert Entry(inum, name)[2..] == name + Pad(DIRSIZ - |name|);
  }

  // ---------- directories as lists of entries ----------

  datatype Ent = Ent(inum: int, name: seq<int>)

  function EntOf(e: seq<int>): Ent
    requires |e| == DIRENT
  {
    Ent(Inum(e), Name(e))
  }

  function Entries(c: seq<int>): (es: seq<Ent>)
    ensures |es| == Slots(c) && forall k | 0 <= k < Slots(c) :: es[k] == EntOf(Slot(c, k))
  {
    seq(Slots(c), k requires 0 <= k < Slots(c) => EntOf(Slot(c, k)))
  }

  predicate Hit(e: Ent, name: seq<int>) {
    e.inum != 0 && e.name == name
  }

  ghost predicate Has(es: seq<Ent>, name: seq<int>) {
    exists k :: 0 <= k < |es| && Hit(es[k], name)
  }

  /** None of the first n entries has that name. */
  ghost predicate Missed(es: seq<Ent>, n: int, name: seq<int>) {
    0 <= n <= |es| && forall j | 0 <= j < n :: !Hit(es[j], name)
  }

  lemma MissedNext(es: seq<Ent>, n: int, name: seq<int>)
    requires Missed(es, n, name) && n < |es| && !Hit(es[n], name)
    ensures Missed(es, n + 1, name)
  {
  }

  /** es with e in slot k, or behind the last slot. */
  function Put(es: seq<Ent>, k: int, e: Ent): seq<Ent>
    requires 0 <= k <= |es|
  {
    if k < |es| then es[k := e] else es + [e]
  }

  lemma SlotAway(c: seq<int>, k: int, e: seq<int>, j: int)
    requires |c| % DIRENT == 0 && |e| == DIRENT && 0 <= k <= Slots(c) && 0 <= j < Slots(c) && j != k
    requires DIRENT * k <= |c| && j < Slots(Splice(c, DIRENT * k, e))
    ensures Slot(Splice(c, DIRENT * k, e), j) == Slot(c, j)
  {
    var d := Splice(c, DIRENT * k, e);
    if j < k {
      assert d[..DIRENT * k] == c[..DIRENT * k];
      assert DIRENT * j + DIRENT <= DIRENT * k;
    } else {
      assert DIRENT * k + DIRENT <= DIRENT * j;
      assert d[DIRENT * k + DIRENT..] == c[DIRENT * k + DIRENT..];
    }
  }

  /** Rewriting slot k, or adding one behind the last, changes no other slot. */
  lemma SpliceSlot(c: seq<int>, k: int, e: seq<int>)
    requires |c| % DIRENT == 0 && |e| == DIRENT && 0 <= k <= Slots(c)
    ensures DIRENT * k <= |c| && |Splice(c, DIRENT * k, e)| % DIRENT == 0
    ensures Entries(Splice(c, DIRENT * k, e)) == Put(Entries(c), k, EntOf(e))
  {
    var d := Splice(c, DIRENT * k, e);
    assert |d| == if k < Slots(c) then |c| else |c| + DIRENT;
    assert Slot(d, k) == e;
    forall j | 0 <= j < Slots(c) && j != k
      ensures Slot(d, j) == Slot(c, j)
    {
      SlotAway(c, k, e, j);
    }
  }

  /** No name twice. */
  ghost predicate IsDir(es: seq<Ent>) {
    forall j, k | 0 <= j < k < |es| && es[j].inum != 0 && es[k].inum != 0 :: es[j].name != es[k].name
  }

  /** What the directory binds. */
  ghost function Binds(es: seq<Ent>): map<seq<int>, int>
    requires IsDir(es)
  {
    map k | 0 <= k < |es| && es[k].inum != 0 :: es[k].name := es[k].inum
  }

  /** What dirlookup finds is what the directory binds. */
  lemma HitBinds(es: seq<Ent>, k: int, name: seq<int>)
    requires IsDir(es) && 0 <= k < |es| && Hit(es[k], name)
    ensures name in Binds(es) && Binds(es)[name] == es[k].inum
  {
  }

  /** dirlink's entry binds its name and nothing else. */
  lemma LinkBinds(es: seq<Ent>, k: int, e: Ent)
    requires IsDir(es) && 0 <= k <= |es| && !Has(es, e.name) && e.inum != 0 && (k < |es| ==> es[k].inum == 0)
    ensures IsDir(Put(es, k, e)) && Binds(Put(es, k, e)) == Binds(es)[e.name := e.inum]
  {
    var fs := Put(es, k, e);
    assert forall j | 0 <= j < |es| :: es[j].inum != 0 ==> es[j].name != e.name;
    assert forall j | 0 <= j < |es| && j != k :: fs[j] == es[j];
    assert fs[k] == e;
    SameMap(fs, Binds(es)[e.name := e.inum]);
  }

  /** A slot freed by fs_unlink unbinds its name and nothing else. */
  lemma UnlinkBinds(es: seq<Ent>, k: int, e: Ent)
    requires IsDir(es) && 0 <= k < |es| && es[k].inum != 0 && e.inum == 0
    ensures IsDir(Put(es, k, e)) && Binds(Put(es, k, e)) == Binds(es) - {es[k].name}
  {
    var fs := Put(es, k, e);
    assert forall j | 0 <= j < |es| && j != k && es[j].inum != 0 :: es[j].name != es[k].name;
    assert forall j | 0 <= j < |es| && j != k :: fs[j] == es[j];
    SameMap(fs, Binds(es) - {es[k].name});
  }

  lemma SameMap(es: seq<Ent>, m: map<seq<int>, int>)
    requires IsDir(es)
    requires forall k | 0 <= k < |es| && es[k].inum != 0 :: es[k].name in m && m[es[k].name] == es[k].inum
    requires forall n | n in m :: exists k :: 0 <= k < |es| && Hit(es[k], n)
    ensures Binds(es) == m
  {
  }
}
