/** The inode cache shared by fs.c and ext2fs.c: its entries, and the two side tables of address slots
    that live entries borrow from.  A reference is a handle; iput is split at its critical sections.
    fs.c's iput forgets an inode's slot before it drops its reference, so an iget in between can leave
    an entry whose slot no later iput finds: what that does to the tables is counted exactly. */
module InodeCache {
  import F = Finite

  const NINODE := 50
  const ROOTDEV := 1
  const EXT2DEV := 2

  /** A null addrs pointer. */
  const NULL := -1

  datatype FileType = NoType | InbuiltFs | Ext2Fs

  /** addrs is the slot's index in the table of the entry's device. */
  datatype Entry = Entry(dev: int, inum: int, ref: int, addrs: int, ftype: FileType)

  /** Where the holder of a reference is: using it, waiting in ilock, or in iput with ad in hand. */
  datatype Stage =
    | Held
    | Locking            // has called ilock through the entry's file system
    | Freeing(ad: int)   // found no links and no other reference: frees the inode, under its sleep lock
    | Cleared(ad: int)   // has freed the inode and cleared the entry
    | Ending(ad: int)    // about to drop the reference only

  predicate InPut(st: Stage) {
    !st.Held? && !st.Locking?
  }

  datatype Handle = Handle(k: int, stage: Stage)

  datatype Cache = Cache(
    entries: seq<Entry>,
    root: seq<bool>,          // addrs[].busy
    ext: seq<bool>,           // ext2_addrs[].busy
    own: seq<int>,            // the slot each entry was given when it was last filled
    held: map<int, Handle>)   // every reference, by some name

  function TypeFor(dev: int): FileType {
    if dev == ROOTDEV then InbuiltFs else Ext2Fs
  }

  predicate SameTable(d: int, e: int) {
    (d == ROOTDEV) == (e == ROOTDEV)
  }

  function Table(c: Cache, dev: int): seq<bool> {
    if dev == ROOTDEV then c.root else c.ext
  }

  predicate Live(e: Entry) {
    e.ref > 0
  }

  ghost function Handles(held: map<int, Handle>, k: int): set<int> {
    set h | h in held && held[h].k == k
  }

  // ---------- the invariant ----------

  predicate Sized(c: Cache) {
    |c.entries| == |c.root| == |c.ext| == |c.own| == NINODE
  }

  ghost predicate Unique(c: Cache) {
    forall k, l | 0 <= k < l < |c.entries| && Live(c.entries[k]) && Live(c.entries[l]) ::
      c.entries[k].dev != c.entries[l].dev || c.entries[k].inum != c.entries[l].inum
  }

  /** Every live entry owns a busy slot of its device's table, and no two own the same. */
  ghost predicate Owned(c: Cache)
    requires Sized(c)
  {
    && (forall k | 0 <= k < NINODE && Live(c.entries[k]) ::
      0 <= c.own[k] < NINODE && Table(c, c.entries[k].dev)[c.own[k]])
    && (forall k, l | 0 <= k < l < NINODE && Live(c.entries[k]) && Live(c.entries[l])
      && SameTable(c.entries[k].dev, c.entries[l].dev) :: c.own[k] != c.own[l])
  }

  predicate Owner(c: Cache, k: int, dev: int, i: int)
    requires Sized(c)
  {
    0 <= k < NINODE && Live(c.entries[k]) && SameTable(c.entries[k].dev, dev) && c.own[k] == i
  }

  /** The busy slots of a table that no live entry owns. */
  ghost function Strays(c: Cache, dev: int): set<int>
    requires Sized(c)
  {
    set i | 0 <= i < NINODE && Table(c, dev)[i] && !exists k :: Owner(c, k, dev, i)
  }

  ghost predicate Refs(c: Cache) {
    && (forall k | 0 <= k < |c.entries| :: c.entries[k].ref == |Handles(c.held, k)|)
    && (forall h | h in c.held :: 0 <= c.held[h].k < |c.entries|)
  }

  /** A pointer to the slot of entry k, or the null that fs.c's iput leaves. */
  predicate Points(c: Cache, k: int, ad: int)
    requires Sized(c) && 0 <= k < NINODE
  {
    ad == c.own[k] || (ad == NULL && c.entries[k].dev == ROOTDEV)
  }

  ghost predicate Pointers(c: Cache)
    requires Sized(c)
  {
    && (forall k | 0 <= k < NINODE && Live(c.entries[k]) ::
      Points(c, k, c.entries[k].addrs) && (c.entries[k].ftype.NoType? || c.entries[k].ftype == TypeFor(c.entries[k].dev)))
    && (forall h | h in c.held && 0 <= c.held[h].k < NINODE && InPut(c.held[h].stage) ::
      Points(c, c.held[h].k, c.held[h].stage.ad))
  }

  /** What holds however iget and iput interleave.  Nothing is said here of stray slots of the root table. */
  ghost predicate Ok(c: Cache) {
    Sized(c) && Unique(c) && Owned(c) && Refs(c) && Pointers(c) && Strays(c, EXT2DEV) == {}
  }

  // ---------- counting ----------

  lemma HandlesAdd(held: map<int, Handle>, h: int, k: int, st: Stage, l: int)
    requires h !in held
    ensures var now := held[h := Handle(k, st)];
      |Handles(now, l)| == |Handles(held, l)| + if l == k then 1 else 0
  {
    var now := held[h := Handle(k, st)];
    assert Handles(now, l) == Handles(held, l) + if l == k then {h} else {};
  }

  lemma HandlesStage(held: map<int, Handle>, h: int, st: Stage, l: int)
    requires h in held
    ensures Handles(held[h := Handle(held[h].k, st)], l) == Handles(held, l)
  {
  }

  lemma HandlesDrop(held: map<int, Handle>, h: int, l: int)
    requires h in held
    ensures |Handles(held - {h}, l)| == |Handles(held, l)| - if l == held[h].k then 1 else 0
  {
    assert Handles(held, l) == Handles(held - {h}, l) + if l == held[h].k then {h} else {};
  }

  lemma HeldIsLive(c: Cache, h: int)
    requires Refs(c) && h in c.held
    ensures 0 <= c.held[h].k < |c.entries| && Live(c.entries[c.held[h].k])
  {
    assert h in Handles(c.held, c.held[h].k);
  }

  lemma OnlyHandle(c: Cache, h: int, g: int)
    requires Refs(c) && h in c.held && g in c.held && c.held[h].k == c.held[g].k && c.entries[c.held[h].k].ref == 1
    ensures h == g
  {
    var s := Handles(c.held, c.held[h].k);
    assert {h, g} <= s;
    F.SubsetSize({h, g}, s);
  }

  lemma NotHeld(c: Cache, k: int, h: int)
    requires Refs(c) && 0 <= k < |c.entries| && !Live(c.entries[k]) && h in c.held
    ensures c.held[h].k != k
  {
    HeldIsLive(c, h);
  }

  // ---------- steps ----------

  /** iget finds the entry, or idup copies a reference to it. */
  function Shared(c: Cache, k: int, h: int): Cache
    requires Sized(c) && 0 <= k < NINODE
  {
    c.(entries := c.entries[k := c.entries[k].(ref := c.entries[k].ref + 1)], held := c.held[h := Handle(k, Held)])
  }

  /** iget fills a free entry and takes a free slot. */
  function Filled(c: Cache, k: int, dev: int, inum: int, i: int, h: int): Cache
    requires Sized(c) && 0 <= k < NINODE && 0 <= i < NINODE
  {
    c.(entries := c.entries[k := Entry(dev, inum, 1, i, TypeFor(dev))],
       root := if dev == ROOTDEV then c.root[i := true] else c.root,
       ext := if dev == ROOTDEV then c.ext else c.ext[i := true],
       own := c.own[k := i], held := c.held[h := Handle(k, Held)])
  }

  /** ilock is called, through the entry's file system as it is then. */
  function Called(c: Cache, h: int): Cache
    requires h in c.held
  {
    c.(held := c.held[h := Handle(c.held[h].k, Locking)])
  }

  /** ilock has the sleep lock; the one in fs.c sets the entry's file system again. */
  function Locked(c: Cache, h: int): Cache
    requires Sized(c) && h in c.held && 0 <= c.held[h].k < NINODE
  {
    var k := c.held[h].k;
    var e := c.entries[k];
    c.(entries := c.entries[k := e.(ftype := if e.dev == ROOTDEV then InbuiltFs else e.ftype)],
       held := c.held[h := Handle(k, Held)])
  }

  /** iput decides: freeable says that the entry is valid and has no links. */
  function Checked(c: Cache, h: int, freeable: bool): Cache
    requires Sized(c) && h in c.held && 0 <= c.held[h].k < NINODE
  {
    var e := c.entries[c.held[h].k];
    c.(held := c.held[h := Handle(c.held[h].k, if freeable && e.ref == 1 then Freeing(e.addrs) else Ending(e.addrs))])
  }

  /** iput frees the inode; only the one in fs.c also forgets the slot. */
  function ClearedBy(c: Cache, h: int): Cache
    requires Sized(c) && h in c.held && 0 <= c.held[h].k < NINODE && c.held[h].stage.Freeing?
  {
    var k := c.held[h].k;
    var e := c.entries[k];
    c.(entries := c.entries[k := e.(addrs := if e.dev == ROOTDEV then NULL else e.addrs, ftype := NoType)],
       held := c.held[h := Handle(k, Cleared(c.held[h].stage.ad))])
  }

  predicate Droppable(st: Stage) {
    st.Cleared? || st.Ending?
  }

  function Freed(busy: seq<bool>, ad: int): (r: seq<bool>)
    requires ad == NULL || 0 <= ad < |busy|
    ensures |r| == |busy|
  {
    if ad == NULL then busy else busy[ad := false]
  }

  /** iput drops the reference, and with the last one the slot it has in hand; a null one is no slot. */
  function Dropped(c: Cache, h: int): Cache
    requires Sized(c) && h in c.held && 0 <= c.held[h].k < NINODE && Droppable(c.held[h].stage)
    requires c.held[h].stage.ad == NULL || 0 <= c.held[h].stage.ad < NINODE
  {
    var k := c.held[h].k;
    var e := c.entries[k].(ref := c.entries[k].ref - 1);
    var d := c.(held := c.held - {h});
    if e.ref != 0 then d.(entries := c.entries[k := e])
    else if e.dev == ROOTDEV then
      d.(entries := c.entries[k := e.(addrs := NULL)], root := Freed(c.root, c.held[h].stage.ad))
    else
      d.(entries := c.entries[k := e.(ftype := NoType)], ext := Freed(c.ext, c.held[h].stage.ad))
  }

  // ---------- what does not touch the slots ----------

  /** d has the same live entries as c, on the same devices and with the same slots. */
  ghost predicate SameSlots(c: Cache, d: Cache)
    requires Sized(c) && Sized(d)
  {
    && c.root == d.root && c.ext == d.ext && c.own == d.own
    && forall k {:trigger d.entries[k]} | 0 <= k < NINODE ::
         (Live(d.entries[k]) <==> Live(c.entries[k])) && d.entries[k].dev == c.entries[k].dev && d.entries[k].inum == c.entries[k].inum
  }

  lemma SameStrays(c: Cache, d: Cache, dev: int)
    requires Sized(c) && Sized(d) && SameSlots(c, d)
    ensures Strays(d, dev) == Strays(c, dev)
  {
    forall i, k
      ensures Owner(d, k, dev, i) <==> Owner(c, k, dev, i)
    {
    }
  }

  lemma SameOwned(c: Cache, d: Cache)
    requires Sized(c) && Sized(d) && SameSlots(c, d) && Unique(c) && Owned(c) && Strays(c, EXT2DEV) == {}
    ensures Unique(d) && Owned(d) && Strays(d, EXT2DEV) == {} && Strays(d, ROOTDEV) == Strays(c, ROOTDEV)
  {
    SameStrays(c, d, EXT2DEV);
    SameStrays(c, d, ROOTDEV);
  }

  lemma SharedRefs(c: Cache, k: int, h: int)
    requires Sized(c) && Refs(c) && 0 <= k < NINODE && h !in c.held
    ensures Refs(Shared(c, k, h))
  {
    forall l | 0 <= l < NINODE
      ensures Shared(c, k, h).entries[l].ref == |Handles(Shared(c, k, h).held, l)|
    {
      HandlesAdd(c.held, h, k, Held, l);
    }
  }

  /** Sharing an entry is safe, whatever an iput is doing to it. */
  lemma SharedOk(c: Cache, k: int, h: int)
    requires Ok(c) && 0 <= k < NINODE && Live(c.entries[k]) && h !in c.held
    ensures Ok(Shared(c, k, h)) && Strays(Shared(c, k, h), ROOTDEV) == Strays(c, ROOTDEV)
  {
    SameOwned(c, Shared(c, k, h));
    SharedRefs(c, k, h);
  }

  lemma StageRefs(c: Cache, d: Cache, h: int, st: Stage)
    requires Sized(c) && Refs(c) && h in c.held && d.held == c.held[h := Handle(c.held[h].k, st)]
    requires |d.entries| == |c.entries| && forall k {:trigger d.entries[k]} | 0 <= k < NINODE :: d.entries[k].ref == c.entries[k].ref
    ensures Refs(d)
  {
    forall k | 0 <= k < NINODE
      ensures d.entries[k].ref == |Handles(d.held, k)|
    {
      HandlesStage(c.held, h, st, k);
    }
  }

  lemma CalledOk(c: Cache, h: int)
    requires Ok(c) && h in c.held && c.held[h].stage.Held?
    ensures Ok(Called(c, h)) && Strays(Called(c, h), ROOTDEV) == Strays(c, ROOTDEV)
  {
    StageRefs(c, Called(c, h), h, Locking);
    SameOwned(c, Called(c, h));
  }

  lemma LockedOk(c: Cache, h: int)
    requires Ok(c) && h in c.held && c.held[h].stage.Locking?
    ensures Ok(Locked(c, h)) && Strays(Locked(c, h), ROOTDEV) == Strays(c, ROOTDEV)
  {
    StageRefs(c, Locked(c, h), h, Held);
    SameOwned(c, Locked(c, h));
  }

  lemma CheckedOk(c: Cache, h: int, freeable: bool)
    requires Ok(c) && h in c.held && c.held[h].stage.Held?
    ensures Ok(Checked(c, h, freeable)) && Strays(Checked(c, h, freeable), ROOTDEV) == Strays(c, ROOTDEV)
  {
    HeldIsLive(c, h);
    var d := Checked(c, h, freeable);
    StageRefs(c, d, h, d.held[h].stage);
    SameOwned(c, d);
  }

  lemma ClearedOk(c: Cache, h: int)
    requires Ok(c) && h in c.held && c.held[h].stage.Freeing?
    ensures Ok(ClearedBy(c, h)) && Strays(ClearedBy(c, h), ROOTDEV) == Strays(c, ROOTDEV)
  {
    var d := ClearedBy(c, h);
    StageRefs(c, d, h, d.held[h].stage);
    SameOwned(c, d);
  }

  // ---------- filling an entry ----------

  lemma FilledRefs(c: Cache, k: int, dev: int, inum: int, i: int, h: int)
    requires Sized(c) && Refs(c) && 0 <= k < NINODE && c.entries[k].ref == 0 && 0 <= i < NINODE && h !in c.held
    ensures Refs(Filled(c, k, dev, inum, i, h))
  {
    var d := Filled(c, k, dev, inum, i, h);
    forall l | 0 <= l < NINODE
      ensures d.entries[l].ref == |Handles(d.held, l)|
    {
      HandlesAdd(c.held, h, k, Held, l);
    }
  }

  lemma FilledOwned(c: Cache, k: int, dev: int, inum: int, i: int, h: int)
    requires Sized(c) && Owned(c) && 0 <= k < NINODE && !Live(c.entries[k]) && 0 <= i < NINODE && !Table(c, dev)[i]
    ensures Owned(Filled(c, k, dev, inum, i, h))
  {
    var d := Filled(c, k, dev, inum, i, h);
    forall l | 0 <= l < NINODE && l != k && Live(d.entries[l])
      ensures 0 <= d.own[l] < NINODE && Table(d, d.entries[l].dev)[d.own[l]]
      ensures SameTable(d.entries[l].dev, dev) ==> d.own[l] != i
    {
      assert d.entries[l] == c.entries[l];
    }
  }

  /** The slot taken was free and now has an owner. */
  lemma FilledStrays(c: Cache, k: int, dev: int, inum: int, i: int, h: int, e: int)
    requires Sized(c) && 0 <= k < NINODE && !Live(c.entries[k]) && 0 <= i < NINODE && !Table(c, dev)[i]
    ensures Strays(Filled(c, k, dev, inum, i, h), e) == Strays(c, e)
  {
    var d := Filled(c, k, dev, inum, i, h);
    forall j, l | l != k
      ensures Owner(d, l, e, j) <==> Owner(c, l, e, j)
    {
    }
    assert SameTable(dev, e) ==> Owner(d, k, e, i);
    assert forall j :: !Owner(c, k, e, j);
    assert forall j | 0 <= j < NINODE && !(SameTable(dev, e) && j == i) :: Table(d, e)[j] == Table(c, e)[j];
  }

  lemma FilledPointers(c: Cache, k: int, dev: int, inum: int, i: int, h: int)
    requires Sized(c) && Refs(c) && Pointers(c) && 0 <= k < NINODE && !Live(c.entries[k]) && 0 <= i < NINODE && h !in c.held
    ensures Pointers(Filled(c, k, dev, inum, i, h))
  {
    var d := Filled(c, k, dev, inum, i, h);
    forall g | g in c.held
      ensures c.held[g].k != k && d.held[g] == c.held[g]
    {
      NotHeld(c, k, g);
    }
  }

  lemma FilledUnique(c: Cache, k: int, dev: int, inum: int, i: int, h: int)
    requires Sized(c) && Unique(c) && 0 <= k < NINODE && 0 <= i < NINODE
    requires forall l | 0 <= l < NINODE && Live(c.entries[l]) :: c.entries[l].dev != dev || c.entries[l].inum != inum
    ensures Unique(Filled(c, k, dev, inum, i, h))
  {
  }

  lemma FilledOk(c: Cache, k: int, dev: int, inum: int, i: int, h: int)
    requires Ok(c) && 0 <= k < NINODE && c.entries[k].ref == 0 && 0 <= i < NINODE && !Table(c, dev)[i] && h !in c.held
    requires forall l | 0 <= l < NINODE && Live(c.entries[l]) :: c.entries[l].dev != dev || c.entries[l].inum != inum
    ensures Ok(Filled(c, k, dev, inum, i, h))
    ensures Strays(Filled(c, k, dev, inum, i, h), ROOTDEV) == Strays(c, ROOTDEV)
  {
    FilledRefs(c, k, dev, inum, i, h);
    FilledOwned(c, k, dev, inum, i, h);
    FilledStrays(c, k, dev, inum, i, h, EXT2DEV);
    FilledStrays(c, k, dev, inum, i, h, ROOTDEV);
    FilledPointers(c, k, dev, inum, i, h);
    FilledUnique(c, k, dev, inum, i, h);
  }

  // ---------- dropping a reference ----------

  lemma DroppedRefs(c: Cache, h: int)
    requires Sized(c) && Refs(c) && h in c.held && Droppable(c.held[h].stage)
    requires c.held[h].stage.ad == NULL || 0 <= c.held[h].stage.ad < NINODE
    ensures Refs(Dropped(c, h))
  {
    var d := Dropped(c, h);
    forall k | 0 <= k < NINODE
      ensures d.entries[k].ref == |Handles(d.held, k)|
    {
      HandlesDrop(c.held, h, k);
    }
  }

  /** Entry k dies; its slot goes with it unless it is left behind. */
  ghost predicate Dies(c: Cache, d: Cache, k: int, leave: bool)
    requires Sized(c) && Sized(d)
  {
    && 0 <= k < NINODE && 0 <= c.own[k] < NINODE && Live(c.entries[k]) && !Live(d.entries[k]) && d.own == c.own
    && (forall l {:trigger d.entries[l]} | 0 <= l < NINODE && l != k :: d.entries[l] == c.entries[l])
    && (leave ==> c.entries[k].dev == ROOTDEV && d.root == c.root && d.ext == c.ext)
    && (!leave ==> d.root == (if c.entries[k].dev == ROOTDEV then c.root[c.own[k] := false] else c.root)
                   && d.ext == if c.entries[k].dev == ROOTDEV then c.ext else c.ext[c.own[k] := false])
  }

  lemma DiesOwned(c: Cache, d: Cache, k: int, leave: bool)
    requires Sized(c) && Sized(d) && Owned(c) && Dies(c, d, k, leave)
    ensures Owned(d)
  {
    forall l | 0 <= l < NINODE && Live(d.entries[l])
      ensures 0 <= d.own[l] < NINODE && Table(d, d.entries[l].dev)[d.own[l]]
    {
      assert Table(c, c.entries[l].dev)[c.own[l]];
    }
  }

  lemma DiesStrays(c: Cache, d: Cache, k: int, leave: bool, dev: int)
    requires Sized(c) && Sized(d) && Owned(c) && Dies(c, d, k, leave)
    ensures c.own[k] !in Strays(c, dev) || !SameTable(c.entries[k].dev, dev)
    ensures Strays(d, dev) == Strays(c, dev) + if leave && dev == ROOTDEV then {c.own[k]} else {}
  {
    var i := c.own[k];
    assert Owner(c, k, c.entries[k].dev, i);
    forall j, l | l != k
      ensures Owner(d, l, dev, j) <==> Owner(c, l, dev, j)
    {
    }
    assert forall j :: !Owner(d, k, dev, j);
    assert SameTable(c.entries[k].dev, dev) ==> Owner(c, k, dev, i) && forall l | l != k :: !Owner(c, l, dev, i);
    assert forall j | 0 <= j < NINODE && !(SameTable(c.entries[k].dev, dev) && j == i) :: Table(d, dev)[j] == Table(c, dev)[j];
  }

  lemma InHand(c: Cache, h: int)
    requires Ok(c) && h in c.held && InPut(c.held[h].stage)
    ensures 0 <= c.held[h].k < NINODE && Live(c.entries[c.held[h].k]) && Points(c, c.held[h].k, c.held[h].stage.ad)
    ensures c.held[h].stage.ad == NULL || 0 <= c.held[h].stage.ad < NINODE
  {
    HeldIsLive(c, h);
  }

  /** The last reference goes, and the iput that drops it began when the entry's slot was forgotten. */
  predicate Leaks(c: Cache, h: int)
    requires h in c.held && 0 <= c.held[h].k < |c.entries| && Droppable(c.held[h].stage)
  {
    c.entries[c.held[h].k].ref == 1 && c.held[h].stage.ad == NULL
  }

  lemma DroppedSlots(c: Cache, h: int)
    requires Ok(c) && h in c.held && Droppable(c.held[h].stage)
    requires 0 <= c.held[h].k < NINODE && Live(c.entries[c.held[h].k]) && Points(c, c.held[h].k, c.held[h].stage.ad)
    requires c.held[h].stage.ad == NULL || 0 <= c.held[h].stage.ad < NINODE
    ensures Owned(Dropped(c, h)) && Unique(Dropped(c, h)) && Strays(Dropped(c, h), EXT2DEV) == {}
    ensures Strays(Dropped(c, h), ROOTDEV) == Strays(c, ROOTDEV) + if Leaks(c, h) then {c.own[c.held[h].k]} else {}
    ensures Leaks(c, h) ==> c.own[c.held[h].k] !in Strays(c, ROOTDEV)
  {
    var d, k := Dropped(c, h), c.held[h].k;
    if c.entries[k].ref == 1 {
      DiesOwned(c, d, k, Leaks(c, h));
      DiesStrays(c, d, k, Leaks(c, h), ROOTDEV);
      DiesStrays(c, d, k, Leaks(c, h), EXT2DEV);
    } else {
      SameOwned(c, d);
    }
  }

  /** Dropping a reference keeps everything; it strays a slot exactly if it leaks one. */
  lemma DroppedOk(c: Cache, h: int)
    requires Ok(c) && h in c.held && Droppable(c.held[h].stage)
    ensures 0 <= c.held[h].k < NINODE && (c.held[h].stage.ad == NULL || 0 <= c.held[h].stage.ad < NINODE) && Ok(Dropped(c, h))
    ensures Strays(Dropped(c, h), ROOTDEV) == Strays(c, ROOTDEV) + if Leaks(c, h) then {c.own[c.held[h].k]} else {}
    ensures Leaks(c, h) ==> c.own[c.held[h].k] !in Strays(c, ROOTDEV)
  {
    InHand(c, h);
    DroppedRefs(c, h);
    DroppedSlots(c, h);
    DroppedPointers(c, h);
  }

  lemma DroppedPointers(c: Cache, h: int)
    requires Ok(c) && h in c.held && Droppable(c.held[h].stage)
    requires 0 <= c.held[h].k < NINODE && (c.held[h].stage.ad == NULL || 0 <= c.held[h].stage.ad < NINODE)
    ensures Pointers(Dropped(c, h))
  {
  }

  // ---------- is there a slot for every free entry? ----------

  ghost function Lives(c: Cache, dev: int): set<int>
    requires Sized(c)
  {
    set k | 0 <= k < NINODE && Live(c.entries[k]) && SameTable(c.entries[k].dev, dev)
  }

  ghost function Busy(c: Cache, dev: int): set<int>
    requires Sized(c)
  {
    set i | 0 <= i < NINODE && Table(c, dev)[i]
  }

  ghost function SlotsOf(c: Cache, ks: set<int>): set<int>
    requires Sized(c) && forall k | k in ks :: 0 <= k < NINODE
  {
    set k | k in ks :: c.own[k]
  }

  lemma OwnDiffers(c: Cache, dev: int, k: int, l: int)
    requires Sized(c) && Owned(c) && k in Lives(c, dev) && l in Lives(c, dev) && k != l
    ensures c.own[k] != c.own[l]
  {
  }

  lemma {:induction false} SlotsCount(c: Cache, dev: int, ks: set<int>)
    requires Sized(c) && Owned(c) && ks <= Lives(c, dev)
    ensures |SlotsOf(c, ks)| == |ks|
  {
    if ks != {} {
      var k :| k in ks;
      var rest := ks - {k};
      SlotsCount(c, dev, rest);
      assert SlotsOf(c, ks) == SlotsOf(c, rest) + {c.own[k]};
      assert c.own[k] !in SlotsOf(c, rest) by {
        forall l | l in rest
          ensures c.own[l] != c.own[k]
        {
          OwnDiffers(c, dev, k, l);
        }
      }
    }
  }

  /** Conservation: the busy slots of a table are its live entries' and the stray ones. */
  lemma BusyCount(c: Cache, dev: int)
    requires Sized(c) && Owned(c)
    ensures |Busy(c, dev)| == |Lives(c, dev)| + |Strays(c, dev)|
  {
    var ks := Lives(c, dev);
    SlotsCount(c, dev, ks);
    forall i
      ensures i in Busy(c, dev) <==> i in SlotsOf(c, ks) + Strays(c, dev)
      ensures !(i in SlotsOf(c, ks) && i in Strays(c, dev))
    {
      if i in SlotsOf(c, ks) {
        var k :| k in ks && c.own[k] == i;
        assert Owner(c, k, dev, i);
        assert Table(c, c.entries[k].dev) == Table(c, dev);
      }
      if k :| Owner(c, k, dev, i) {
        assert k in ks;
      }
    }
    assert Busy(c, dev) == SlotsOf(c, ks) + Strays(c, dev);
    assert SlotsOf(c, ks) !! Strays(c, dev);
  }

  ghost predicate Full(c: Cache, dev: int)
    requires Sized(c)
  {
    forall i | 0 <= i < NINODE :: Table(c, dev)[i]
  }

  /** iget's search runs off the end of a table exactly when live entries and stray slots fill it. */
  lemma SlotSearch(c: Cache, dev: int)
    requires Sized(c) && Owned(c)
    ensures Full(c, dev) <==> |Lives(c, dev)| + |Strays(c, dev)| == NINODE
  {
    BusyCount(c, dev);
    F.FullExactly(Busy(c, dev), NINODE);
    forall i | 0 <= i < NINODE
      ensures i in Busy(c, dev) <==> Table(c, dev)[i]
    {
    }
  }

  /** While an entry is free, a table without stray slots is not full. */
  lemma SlotIsFree(c: Cache, k: int, dev: int)
    requires Sized(c) && Owned(c) && 0 <= k < NINODE && !Live(c.entries[k]) && Strays(c, dev) == {}
    ensures !Full(c, dev)
  {
    SlotSearch(c, dev);
    F.FullExactly(Lives(c, dev), NINODE);
    assert k !in Lives(c, dev);
  }

  // ---------- runs ----------

  ghost predicate IsFreeing(c: Cache, k: int) {
    exists h :: h in c.held && c.held[h].k == k && c.held[h].stage.Freeing?
  }

  ghost predicate ShareStep(c: Cache, d: Cache, k: int, h: int) {
    Sized(c) && 0 <= k < NINODE && Live(c.entries[k]) && h !in c.held && d == Shared(c, k, h)
  }

  ghost predicate FillStep(c: Cache, d: Cache, k: int, dev: int, inum: int, i: int, h: int) {
    && Sized(c) && 0 <= k < NINODE && c.entries[k].ref == 0 && 0 <= i < NINODE && !Table(c, dev)[i] && h !in c.held
    && (forall l | 0 <= l < NINODE && Live(c.entries[l]) :: c.entries[l].dev != dev || c.entries[l].inum != inum)
    && d == Filled(c, k, dev, inum, i, h)
  }

  ghost predicate CallStep(c: Cache, d: Cache, h: int) {
    && Sized(c) && h in c.held && c.held[h].stage.Held? && 0 <= c.held[h].k < NINODE
    && !c.entries[c.held[h].k].ftype.NoType? && d == Called(c, h)
  }

  ghost predicate LockStep(c: Cache, d: Cache, h: int) {
    && Sized(c) && h in c.held && c.held[h].stage.Locking? && 0 <= c.held[h].k < NINODE
    && !IsFreeing(c, c.held[h].k) && d == Locked(c, h)
  }

  /** iput starts: it is called through the entry's file system, and takes the entry's sleep lock. */
  ghost predicate CheckStep(c: Cache, d: Cache, h: int) {
    && Sized(c) && h in c.held && c.held[h].stage.Held? && 0 <= c.held[h].k < NINODE
    && !c.entries[c.held[h].k].ftype.NoType? && !IsFreeing(c, c.held[h].k)
    && (d == Checked(c, h, true) || d == Checked(c, h, false))
  }

  ghost predicate ClearStep(c: Cache, d: Cache, h: int) {
    && Sized(c) && h in c.held && c.held[h].stage.Freeing? && 0 <= c.held[h].k < NINODE && d == ClearedBy(c, h)
  }

  ghost predicate DropStep(c: Cache, d: Cache, h: int) {
    && Sized(c) && h in c.held && Droppable(c.held[h].stage) && 0 <= c.held[h].k < NINODE
    && (c.held[h].stage.ad == NULL || 0 <= c.held[h].stage.ad < NINODE) && d == Dropped(c, h)
  }

  ghost predicate PutStep(c: Cache, d: Cache, h: int) {
    CheckStep(c, d, h) || ClearStep(c, d, h) || DropStep(c, d, h)
  }

  ghost predicate Next(c: Cache, d: Cache) {
    || (exists k, h :: ShareStep(c, d, k, h))
    || (exists k, dev, inum, i, h :: FillStep(c, d, k, dev, inum, i, h))
    || (exists h :: CallStep(c, d, h))
    || (exists h :: LockStep(c, d, h))
    || (exists h :: PutStep(c, d, h))
  }

  /** No step gives an entry of the ext2 file system its operations back once ext2_iput has cleared them: a
      holder who revived it can neither lock it nor put it. */
  lemma Ext2StaysCleared(c: Cache, d: Cache, k: int)
    requires Next(c, d) && 0 <= k < NINODE && |c.entries| == NINODE && Barren(c.entries[k])
    ensures |d.entries| == NINODE && d.entries[k].ftype.NoType? && d.entries[k].dev == c.entries[k].dev
    ensures forall h | h in c.held && c.held[h] == Handle(k, Held) :: h in d.held && d.held[h] == c.held[h]
  {
    if h :| PutStep(c, d, h) {
      PutBarren(c, d, h, k);
    } else {
      OtherBarren(c, d, k);
    }
  }

  /** A live ext2 entry without operations. */
  predicate Barren(e: Entry) {
    Live(e) && e.dev != ROOTDEV && e.ftype.NoType?
  }

  lemma PutBarren(c: Cache, d: Cache, h: int, k: int)
    requires PutStep(c, d, h) && 0 <= k < NINODE && |c.entries| == NINODE && Barren(c.entries[k])
    ensures |d.entries| == NINODE && d.entries[k].ftype.NoType? && d.entries[k].dev == c.entries[k].dev
    ensures forall g | g in c.held && c.held[g] == Handle(k, Held) :: g in d.held && d.held[g] == c.held[g]
  {
    if CheckStep(c, d, h) {
    } else if ClearStep(c, d, h) {
    } else {
      assert DropStep(c, d, h);
    }
  }

  lemma OtherBarren(c: Cache, d: Cache, k: int)
    requires Next(c, d) && !(exists h :: PutStep(c, d, h)) && 0 <= k < NINODE && |c.entries| == NINODE && Barren(c.entries[k])
    ensures |d.entries| == NINODE && d.entries[k].ftype.NoType? && d.entries[k].dev == c.entries[k].dev
    ensures forall g | g in c.held && c.held[g] == Handle(k, Held) :: g in d.held && d.held[g] == c.held[g]
  {
    if l, h :| ShareStep(c, d, l, h) {
    } else if l, dev, inum, i, h :| FillStep(c, d, l, dev, inum, i, h) {
    } else if h :| CallStep(c, d, h) {
    } else {
      var h :| LockStep(c, d, h);
    }
  }

  ghost predicate Leak(c: Cache, d: Cache) {
    exists h :: DropStep(c, d, h) && Leaks(c, h)
  }

  ghost predicate Boot(c: Cache) {
    && Sized(c) && c.held == map[]
    && forall k | 0 <= k < NINODE :: c.entries[k].ref == 0 && !c.root[k] && !c.ext[k]
  }

  ghost predicate Run(cs: seq<Cache>) {
    |cs| > 0 && Boot(cs[0]) && forall i {:trigger cs[i]} | 0 < i < |cs| :: Next(cs[i - 1], cs[i])
  }

  ghost function LeakCount(cs: seq<Cache>, n: nat): nat
    requires n < |cs|
  {
    if n == 0 then 0 else LeakCount(cs, n - 1) + if Leak(cs[n - 1], cs[n]) then 1 else 0
  }

  lemma BootOk(c: Cache)
    requires Boot(c)
    ensures Ok(c) && Strays(c, ROOTDEV) == {}
  {
    forall k | 0 <= k < NINODE
      ensures c.entries[k].ref == |Handles(c.held, k)|
    {
      assert Handles(c.held, k) == {};
    }
  }

  ghost function One(b: bool): nat {
    if b then 1 else 0
  }

  lemma DropCount(c: Cache, d: Cache, h: int)
    requires Ok(c) && DropStep(c, d, h)
    ensures Ok(d) && Strays(c, ROOTDEV) <= Strays(d, ROOTDEV)
    ensures |Strays(d, ROOTDEV)| == |Strays(c, ROOTDEV)| + One(Leak(c, d))
  {
    DroppedOk(c, h);
    if g :| DropStep(c, d, g) && Leaks(c, g) {
      assert h !in d.held && g !in d.held;
      assert g == h;
    }
    assert Leak(c, d) <==> Leaks(c, h);
  }

  /** Every step keeps the invariant.  Stray slots stay, and a step adds one exactly if it leaks it. */
  lemma NextOk(c: Cache, d: Cache)
    requires Ok(c) && Next(c, d)
    ensures Ok(d) && Strays(c, ROOTDEV) <= Strays(d, ROOTDEV)
    ensures |Strays(d, ROOTDEV)| == |Strays(c, ROOTDEV)| + One(Leak(c, d))
  {
    if h :| DropStep(c, d, h) {
      DropCount(c, d, h);
    } else {
      QuietOk(c, d);
    }
  }

  lemma QuietOk(c: Cache, d: Cache)
    requires Ok(c) && Next(c, d) && forall h :: !DropStep(c, d, h)
    ensures Ok(d) && Strays(d, ROOTDEV) == Strays(c, ROOTDEV) && !Leak(c, d)
  {
    if k, h :| ShareStep(c, d, k, h) {
      SharedOk(c, k, h);
    } else if k, dev, inum, i, h :| FillStep(c, d, k, dev, inum, i, h) {
      FilledOk(c, k, dev, inum, i, h);
    } else if h :| CallStep(c, d, h) {
      CalledOk(c, h);
    } else if h :| LockStep(c, d, h) {
      LockedOk(c, h);
    } else {
      var h :| PutStep(c, d, h);
      if CheckStep(c, d, h) {
        CheckedOk(c, h, true);
        CheckedOk(c, h, false);
      } else {
        ClearedOk(c, h);
      }
    }
  }

  /** In every state of every run: one entry per (dev, inum), counted references, every live entry with a
      busy slot of its own, no stray slot of the ext2 table, and as many of the root table as iputs have
      leaked. */
  lemma {:induction false} RunOk(cs: seq<Cache>, n: nat)
    requires Run(cs) && n < |cs|
    ensures Ok(cs[n]) && |Strays(cs[n], ROOTDEV)| == LeakCount(cs, n)
  {
    if n == 0 {
      BootOk(cs[0]);
    } else {
      RunOk(cs, n - 1);
      NextOk(cs[n - 1], cs[n]);
    }
  }

  lemma {:induction false} NoLeaks(cs: seq<Cache>, n: nat)
    requires n < |cs|
    ensures LeakCount(cs, n) == 0 <==> forall i | 0 < i <= n :: !Leak(cs[i - 1], cs[i])
  {
    if n > 0 {
      NoLeaks(cs, n - 1);
      assert n < |cs| && cs[n] == cs[n];
    }
  }

  /** Live entries and busy slots of both tables correspond one to one exactly if no iput so far has
      dropped the last reference to an entry whose slot was already forgotten when it began. */
  lemma OneToOneExactly(cs: seq<Cache>, n: nat)
    requires Run(cs) && n < |cs|
    ensures Sized(cs[n]) && Owned(cs[n]) && Strays(cs[n], EXT2DEV) == {}
    ensures Strays(cs[n], ROOTDEV) == {} <==> forall i | 0 < i <= n :: !Leak(cs[i - 1], cs[i])
  {
    RunOk(cs, n);
    NoLeaks(cs, n);
  }

  /** The slot search of an iget that found a free entry always ends in the ext2 table, and in the root
      table exactly while live entries and leaks have not used it up. */
  lemma SearchExactly(cs: seq<Cache>, n: nat, k: int)
    requires Run(cs) && n < |cs| && 0 <= k < NINODE && Sized(cs[n]) && !Live(cs[n].entries[k])
    ensures !Full(cs[n], EXT2DEV)
    ensures Full(cs[n], ROOTDEV) <==> |Lives(cs[n], ROOTDEV)| + LeakCount(cs, n) == NINODE
  {
    RunOk(cs, n);
    SlotIsFree(cs[n], k, EXT2DEV);
    SlotSearch(cs[n], ROOTDEV);
  }

  // ---------- where a null slot in hand comes from ----------

  /** iput begins on an entry whose slot is forgotten. */
  ghost predicate BeginsCleared(c: Cache, d: Cache, h: int) {
    CheckStep(c, d, h) && c.entries[c.held[h].k].addrs == NULL
  }

  ghost predicate NullInHand(c: Cache, h: int) {
    h in c.held && InPut(c.held[h].stage) && c.held[h].stage.ad == NULL
  }

  lemma NullStep(c: Cache, d: Cache, h: int)
    requires Next(c, d) && NullInHand(d, h) && !NullInHand(c, h)
    ensures BeginsCleared(c, d, h)
  {
  }

  lemma {:induction false} NullBegan(cs: seq<Cache>, n: nat, h: int) returns (m: nat)
    requires Run(cs) && n < |cs| && NullInHand(cs[n], h)
    ensures m < n && BeginsCleared(cs[m], cs[m + 1], h)
  {
    BootRemembers(cs[0], 0, h);
    if NullInHand(cs[n - 1], h) {
      m := NullBegan(cs, n - 1, h);
    } else {
      m := n - 1;
      NullStep(cs[n - 1], cs[n], h);
    }
  }

  ghost predicate Forgotten(c: Cache, k: int) {
    0 <= k < |c.entries| && Live(c.entries[k]) && c.entries[k].dev == ROOTDEV && c.entries[k].addrs == NULL
  }

  lemma ForgetStep(c: Cache, d: Cache, k: int) returns (g: int)
    requires Next(c, d) && Refs(c) && Forgotten(d, k) && !Forgotten(c, k)
    ensures ClearStep(c, d, g) && c.held[g].k == k
  {
    g :| ClearStep(c, d, g) && c.held[g].k == k;
  }

  lemma BootRemembers(c: Cache, k: int, h: int)
    requires Boot(c)
    ensures !Forgotten(c, k) && !NullInHand(c, h)
  {
  }

  lemma {:induction false} ForgottenBy(cs: seq<Cache>, n: nat, k: int) returns (m: nat, g: int)
    requires Run(cs) && n < |cs| && Forgotten(cs[n], k)
    ensures m < n && ClearStep(cs[m], cs[m + 1], g) && cs[m].held[g].k == k
  {
    BootRemembers(cs[0], k, 0);
    if Forgotten(cs[n - 1], k) {
      m, g := ForgottenBy(cs, n - 1, k);
    } else {
      m := n - 1;
      RunOk(cs, n - 1);
      g := ForgetStep(cs[m], cs[n], k);
    }
  }

  /** A leak has a history: the iput that leaks began on an entry that an earlier iput had cleared. */
  lemma LeakHistory(cs: seq<Cache>, n: nat, h: int) returns (p: nat, g: int, m: nat)
    requires Run(cs) && 0 < n < |cs| && DropStep(cs[n - 1], cs[n], h) && Leaks(cs[n - 1], h)
    ensures p < m < n - 1 && ClearStep(cs[p], cs[p + 1], g) && BeginsCleared(cs[m], cs[m + 1], h)
    ensures cs[p].held[g].k == cs[m].held[h].k
  {
    m := NullBegan(cs, n - 1, h);
    var k := cs[m].held[h].k;
    RunOk(cs, m);
    HeldIsLive(cs[m], h);
    assert Forgotten(cs[m], k);
    p, g := ForgottenBy(cs, m, k);
  }

  // ---------- runs in which nobody revives an inode ----------

  predicate Pending(st: Stage) {
    st.Freeing? || st.Cleared?
  }

  ghost predicate IsPending(c: Cache, k: int) {
    exists h :: h in c.held && c.held[h].k == k && Pending(c.held[h].stage)
  }

  ghost predicate IsCleared(c: Cache, k: int) {
    exists h :: h in c.held && c.held[h].k == k && c.held[h].stage.Cleared?
  }

  /** iget finds an entry whose inode an iput has decided to free. */
  ghost predicate Clash(c: Cache, d: Cache) {
    exists k, h :: ShareStep(c, d, k, h) && IsPending(c, k)
  }

  /** iput frees an inode only as the last holder, and only the entry it has just cleared lacks its slot
      or its operations. */
  ghost predicate Calm(c: Cache)
    requires Sized(c)
  {
    && (forall h, g | h in c.held && g in c.held && Pending(c.held[h].stage) && c.held[g].k == c.held[h].k :: g == h)
    && (forall h | h in c.held && 0 <= c.held[h].k < NINODE && InPut(c.held[h].stage) :: c.held[h].stage.ad == c.own[c.held[h].k])
    && (forall k | 0 <= k < NINODE && Live(c.entries[k]) && !IsCleared(c, k) ::
      c.entries[k].addrs == c.own[k] && c.entries[k].ftype == TypeFor(c.entries[k].dev))
  }

  /** Whoever holds the entries cleared in c still holds them in d, unless they are gone. */
  lemma StillCleared(c: Cache, d: Cache)
    requires Sized(c) && Sized(d)
    requires forall h | h in c.held && c.held[h].stage.Cleared? && 0 <= c.held[h].k < NINODE ::
      (h in d.held && d.held[h] == c.held[h]) || !Live(d.entries[c.held[h].k])
    ensures forall k | 0 <= k < NINODE && Live(d.entries[k]) && IsCleared(c, k) :: IsCleared(d, k)
  {
    forall k | 0 <= k < NINODE && Live(d.entries[k]) && IsCleared(c, k)
      ensures IsCleared(d, k)
    {
      var h :| h in c.held && c.held[h].k == k && c.held[h].stage.Cleared?;
      assert h in d.held;
    }
  }

  lemma SharedCalm(c: Cache, k: int, h: int)
    requires Sized(c) && Calm(c) && 0 <= k < NINODE && Live(c.entries[k]) && h !in c.held && !IsPending(c, k)
    ensures Calm(Shared(c, k, h))
  {
    StillCleared(c, Shared(c, k, h));
  }

  lemma FilledCalm(c: Cache, k: int, dev: int, inum: int, i: int, h: int)
    requires Sized(c) && Refs(c) && Calm(c) && 0 <= k < NINODE && !Live(c.entries[k]) && 0 <= i < NINODE && h !in c.held
    ensures Calm(Filled(c, k, dev, inum, i, h))
  {
    var d := Filled(c, k, dev, inum, i, h);
    forall g | g in c.held
      ensures c.held[g].k != k && d.held[g] == c.held[g]
    {
      NotHeld(c, k, g);
    }
    StillCleared(c, d);
  }

  lemma HeldNotCleared(c: Cache, h: int)
    requires Sized(c) && Calm(c) && h in c.held && !Pending(c.held[h].stage)
    ensures !IsPending(c, c.held[h].k) && !IsCleared(c, c.held[h].k)
  {
    forall g | g in c.held && c.held[g].k == c.held[h].k
      ensures !Pending(c.held[g].stage)
    {
    }
  }

  lemma CalledCalm(c: Cache, h: int)
    requires Sized(c) && Calm(c) && h in c.held && c.held[h].stage.Held?
    ensures Calm(Called(c, h))
  {
    HeldNotCleared(c, h);
    StillCleared(c, Called(c, h));
  }

  lemma LockedCalm(c: Cache, h: int)
    requires Sized(c) && Calm(c) && h in c.held && c.held[h].stage.Locking? && 0 <= c.held[h].k < NINODE
    ensures Calm(Locked(c, h))
  {
    HeldNotCleared(c, h);
    StillCleared(c, Locked(c, h));
  }

  lemma CheckedCalm(c: Cache, h: int, freeable: bool)
    requires Sized(c) && Refs(c) && Calm(c) && h in c.held && c.held[h].stage.Held?
    ensures Calm(Checked(c, h, freeable))
  {
    HeldIsLive(c, h);
    HeldNotCleared(c, h);
    var d := Checked(c, h, freeable);
    if Pending(d.held[h].stage) {
      forall g | g in c.held && c.held[g].k == c.held[h].k
        ensures g == h
      {
        OnlyHandle(c, h, g);
      }
    }
    StillCleared(c, d);
  }

  lemma ClearedCalm(c: Cache, h: int)
    requires Sized(c) && Refs(c) && Calm(c) && h in c.held && c.held[h].stage.Freeing?
    ensures Calm(ClearedBy(c, h))
  {
    var d := ClearedBy(c, h);
    assert d.held[h].stage.Cleared? && d.held[h].k == c.held[h].k;
    assert IsCleared(d, c.held[h].k);
    StillCleared(c, d);
  }

  lemma DroppedCalm(c: Cache, d: Cache, h: int)
    requires Sized(c) && Refs(c) && Calm(c) && DropStep(c, d, h)
    ensures Calm(d)
  {
    var k := c.held[h].k;
    if c.held[h].stage.Cleared? {
      assert Handles(c.held, k) == {h} by {
        forall g | g in Handles(c.held, k)
          ensures g == h
        {
          assert Pending(c.held[h].stage) && c.held[g].k == c.held[h].k;
        }
        assert h in Handles(c.held, k);
      }
      assert |Handles(c.held, k)| == 1;
    }
    StillCleared(c, d);
  }

  lemma PutCalm(c: Cache, d: Cache, h: int)
    requires Sized(c) && Refs(c) && Calm(c) && PutStep(c, d, h)
    ensures Calm(d)
  {
    if CheckStep(c, d, h) {
      CheckedCalm(c, h, true);
      CheckedCalm(c, h, false);
    } else if ClearStep(c, d, h) {
      ClearedCalm(c, h);
    } else {
      DroppedCalm(c, d, h);
    }
  }

  lemma NextCalm(c: Cache, d: Cache)
    requires Ok(c) && Calm(c) && Next(c, d) && !Clash(c, d)
    ensures Sized(d) && Calm(d)
  {
    if k, h :| ShareStep(c, d, k, h) {
      SharedCalm(c, k, h);
    } else if k, dev, inum, i, h :| FillStep(c, d, k, dev, inum, i, h) {
      FilledCalm(c, k, dev, inum, i, h);
    } else if h :| CallStep(c, d, h) {
      CalledCalm(c, h);
    } else if h :| LockStep(c, d, h) {
      LockedCalm(c, h);
    } else {
      var h :| PutStep(c, d, h);
      PutCalm(c, d, h);
    }
  }

  /** While no iget finds an inode that is being freed, an iput has its entry's slot in hand, so nothing
      leaks. */
  lemma {:induction false} NoClashCalm(cs: seq<Cache>, n: nat)
    requires Run(cs) && n < |cs| && forall i | 0 < i <= n :: !Clash(cs[i - 1], cs[i])
    ensures Sized(cs[n]) && Calm(cs[n]) && Strays(cs[n], ROOTDEV) == {}
  {
    RunOk(cs, n);
    if n > 0 {
      NoClashCalm(cs, n - 1);
      RunOk(cs, n - 1);
      NextCalm(cs[n - 1], cs[n]);
      CalmNoLeak(cs[n - 1], cs[n]);
      NextOk(cs[n - 1], cs[n]);
    }
  }

  lemma CalmNoLeak(c: Cache, d: Cache)
    requires Ok(c) && Calm(c)
    ensures !Leak(c, d)
  {
    forall h | DropStep(c, d, h)
      ensures !Leaks(c, h)
    {
      HeldIsLive(c, h);
    }
  }

  // ---------- a run that revives an inode, and one that uses up the table ----------

  lemma Extend(cs: seq<Cache>, d: Cache)
    requires Run(cs) && Next(cs[|cs| - 1], d)
    ensures Run(cs + [d])
  {
  }

  /** Nobody holds anything, and the first n slots of the root table are stray. */
  ghost predicate Idle(c: Cache, n: nat) {
    && Sized(c) && c.held == map[]
    && forall k | 0 <= k < NINODE :: c.entries[k].ref == 0 && !c.ext[k] && (c.root[k] <==> k < n)
  }

  /** Only entry 0 is in use: it is e, its slot is n, and its holders are these. */
  ghost predicate At(c: Cache, n: nat, e: Entry, held: map<int, Handle>) {
    && Sized(c) && c.held == held && c.own[0] == n < NINODE && c.entries[0] == e
    && (forall k | 0 < k < NINODE :: c.entries[k].ref == 0)
    && forall k | 0 <= k < NINODE :: !c.ext[k] && (c.root[k] <==> k <= n)
  }

  function Fresh(n: int, ref: int): Entry {
    Entry(ROOTDEV, 7, ref, n, InbuiltFs)
  }

  /** Neither addresses nor operations. */
  function Bare(ref: int): Entry {
    Entry(ROOTDEV, 7, ref, NULL, NoType)
  }

  lemma Fills(c: Cache, n: nat) returns (d: Cache)
    requires n < NINODE && Idle(c, n)
    ensures Next(c, d) && At(d, n, Fresh(n, 1), map[0 := Handle(0, Held)])
  {
    d := Filled(c, 0, ROOTDEV, 7, n, 0);
    assert FillStep(c, d, 0, ROOTDEV, 7, n, 0);
  }

  lemma Decides(c: Cache, n: nat) returns (d: Cache)
    requires At(c, n, Fresh(n, 1), map[0 := Handle(0, Held)])
    ensures Next(c, d) && At(d, n, Fresh(n, 1), map[0 := Handle(0, Freeing(n))])
  {
    d := Checked(c, 0, true);
    assert CheckStep(c, d, 0);
    assert PutStep(c, d, 0);
  }

  lemma Shares(c: Cache, n: nat) returns (d: Cache)
    requires At(c, n, Fresh(n, 1), map[0 := Handle(0, Freeing(n))])
    ensures Next(c, d) && At(d, n, Fresh(n, 2), map[0 := Handle(0, Freeing(n)), 1 := Handle(0, Held)])
  {
    d := Shared(c, 0, 1);
    assert ShareStep(c, d, 0, 1);
  }

  lemma Calls(c: Cache, n: nat) returns (d: Cache)
    requires At(c, n, Fresh(n, 2), map[0 := Handle(0, Freeing(n)), 1 := Handle(0, Held)])
    ensures Next(c, d) && At(d, n, Fresh(n, 2), map[0 := Handle(0, Freeing(n)), 1 := Handle(0, Locking)])
  {
    d := Called(c, 1);
    assert CallStep(c, d, 1);
  }

  lemma Clears(c: Cache, n: nat) returns (d: Cache)
    requires At(c, n, Fresh(n, 2), map[0 := Handle(0, Freeing(n)), 1 := Handle(0, Locking)])
    ensures Next(c, d) && At(d, n, Bare(2), map[0 := Handle(0, Cleared(n)), 1 := Handle(0, Locking)])
  {
    d := ClearedBy(c, 0);
    assert PutStep(c, d, 0);
  }

  lemma Drops(c: Cache, n: nat) returns (d: Cache)
    requires At(c, n, Bare(2), map[0 := Handle(0, Cleared(n)), 1 := Handle(0, Locking)])
    ensures Next(c, d) && At(d, n, Bare(1), map[1 := Handle(0, Locking)])
  {
    d := Dropped(c, 0);
    assert PutStep(c, d, 0);
    assert d.held == map[1 := Handle(0, Locking)];
  }

  lemma Locks(c: Cache, n: nat) returns (d: Cache)
    requires At(c, n, Bare(1), map[1 := Handle(0, Locking)])
    ensures Next(c, d) && At(d, n, Fresh(NULL, 1), map[1 := Handle(0, Held)])
  {
    d := Locked(c, 1);
    assert LockStep(c, d, 1);
  }

  lemma Puts(c: Cache, n: nat) returns (d: Cache)
    requires At(c, n, Fresh(NULL, 1), map[1 := Handle(0, Held)])
    ensures Next(c, d) && At(d, n, Fresh(NULL, 1), map[1 := Handle(0, Ending(NULL))])
  {
    d := Checked(c, 1, false);
    assert CheckStep(c, d, 1);
    assert PutStep(c, d, 1);
  }

  lemma Forgets(c: Cache, n: nat) returns (d: Cache)
    requires At(c, n, Fresh(NULL, 1), map[1 := Handle(0, Ending(NULL))])
    ensures Next(c, d) && Idle(d, n + 1)
  {
    d := Dropped(c, 1);
    assert PutStep(c, d, 1);
    assert d.held == map[];
  }

  /** An iput decides to free the inode and has marked it free on disk.  ialloc takes it, its iget finds
      the entry, and create calls ilock through the file system that is still set.  Then the iput clears
      the entry and ends. */
  lemma Revive(cs: seq<Cache>, n: nat) returns (ds: seq<Cache>)
    requires Run(cs) && n < NINODE && Idle(cs[|cs| - 1], n)
    ensures Run(ds) && At(ds[|ds| - 1], n, Bare(1), map[1 := Handle(0, Locking)])
  {
    var d := Fills(cs[|cs| - 1], n);
    Extend(cs, d); ds := cs + [d];
    d := Decides(d, n);
    Extend(ds, d); ds := ds + [d];
    d := Shares(d, n);
    Extend(ds, d); ds := ds + [d];
    d := Calls(d, n);
    Extend(ds, d); ds := ds + [d];
    d := Clears(d, n);
    Extend(ds, d); ds := ds + [d];
    d := Drops(d, n);
    Extend(ds, d); ds := ds + [d];
  }

  /** ilock goes on and sets the file system again, but not the slot.  When the reference is dropped, the
      slot is not found. */
  lemma LoseSlot(cs: seq<Cache>, n: nat) returns (ds: seq<Cache>)
    requires Run(cs) && At(cs[|cs| - 1], n, Bare(1), map[1 := Handle(0, Locking)])
    ensures Run(ds) && Idle(ds[|ds| - 1], n + 1)
  {
    var d := Locks(cs[|cs| - 1], n);
    Extend(cs, d); ds := cs + [d];
    d := Puts(d, n);
    Extend(ds, d); ds := ds + [d];
    d := Forgets(d, n);
    Extend(ds, d); ds := ds + [d];
  }

  lemma {:induction false} LoseSlots(n: nat) returns (cs: seq<Cache>)
    requires n <= NINODE
    ensures Run(cs) && Idle(cs[|cs| - 1], n)
  {
    if n == 0 {
      var off := seq(NINODE, _ => false);
      cs := [Cache(seq(NINODE, _ => Entry(0, 0, 0, NULL, NoType)), off, off, seq(NINODE, _ => 0), map[])];
    } else {
      cs := LoseSlots(n - 1);
      cs := Revive(cs, n - 1);
      cs := LoseSlot(cs, n - 1);
    }
  }

  /** h is in ilock on a live entry with neither addresses nor operations, whose busy slot nothing points at. */
  ghost predicate Broken(c: Cache, k: int, h: int) {
    && Sized(c) && h in c.held && c.held[h] == Handle(k, Locking) && 0 <= k < NINODE && Live(c.entries[k])
    && c.entries[k].addrs == NULL && c.entries[k].ftype.NoType?
    && 0 <= c.own[k] < NINODE && Table(c, c.entries[k].dev)[c.own[k]]
    && forall l | 0 <= l < NINODE && Live(c.entries[l]) :: c.entries[l].addrs != c.own[k]
  }

  lemma BareIsBroken(c: Cache, n: nat)
    requires At(c, n, Bare(1), map[1 := Handle(0, Locking)])
    ensures Broken(c, 0, 1)
  {
  }

  /** From a freshly booted cache an inode can be revived so. */
  lemma RevivedIsBroken() returns (cs: seq<Cache>, k: int, h: int)
    ensures Run(cs) && Broken(cs[|cs| - 1], k, h)
  {
    var bs := LoseSlots(0);
    cs := Revive(bs, 0);
    BareIsBroken(cs[|cs| - 1], 0);
    k, h := 0, 1;
  }

  /** And the whole root table can be lost so: no inode is in use, and iget of one finds no slot. */
  lemma TableRunsOut() returns (cs: seq<Cache>)
    ensures Run(cs) && var c := cs[|cs| - 1];
      Sized(c) && c.held == map[] && (forall k | 0 <= k < NINODE :: !Live(c.entries[k])) && Full(c, ROOTDEV)
  {
    cs := LoseSlots(NINODE);
  }
}
