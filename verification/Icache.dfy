/** iget, idup and iput of fs.c and ext2fs.c as code over the shared cache. */
module Icache {
  import opened InodeCache

  class Icache {
    var entries: seq<Entry>
    var addrs: seq<bool>
    var ext2addrs: seq<bool>
    ghost var own: seq<int>
    ghost var held: map<int, Handle>

    ghost function Now(): Cache
      reads this
    {
      Cache(entries, addrs, ext2addrs, own, held)
    }

    ghost predicate Valid()
      reads this
    {
      Ok(Now())
    }

    constructor ()
      ensures Boot(Now()) && Valid()
    {
      entries := seq(NINODE, _ => Entry(0, 0, 0, NULL, NoType));
      addrs := seq(NINODE, _ => false);
      ext2addrs := seq(NINODE, _ => false);
      own := seq(NINODE, _ => 0);
      held := map[];
      new;
      BootOk(Now());
    }

    /** iget's first loop: the live entry for the inode, else the first free entry; NINODE for none. */
    method Find(dev: int, inum: int) returns (hit: int, empty: int)
      requires |entries| == NINODE
      ensures 0 <= hit <= NINODE && 0 <= empty <= NINODE
      ensures hit < NINODE ==> Live(entries[hit]) && entries[hit].dev == dev && entries[hit].inum == inum
      ensures hit == NINODE ==> forall k | 0 <= k < NINODE && Live(entries[k]) :: entries[k].dev != dev || entries[k].inum != inum
      ensures hit == NINODE && empty < NINODE ==> entries[empty].ref == 0
      ensures hit == NINODE ==> forall k | 0 <= k < empty :: entries[k].ref != 0
    {
      hit, empty := 0, NINODE;
      while hit < NINODE
        invariant 0 <= hit <= NINODE && 0 <= empty <= NINODE
        invariant forall k | 0 <= k < hit && Live(entries[k]) :: entries[k].dev != dev || entries[k].inum != inum
        invariant empty < NINODE ==> empty < hit && entries[empty].ref == 0
        invariant forall k | 0 <= k < hit && k < empty :: entries[k].ref != 0
      {
        if entries[hit].ref > 0 && entries[hit].dev == dev && entries[hit].inum == inum {
          return;
        }
        if empty == NINODE && entries[hit].ref == 0 {
          empty := hit;
        }
        hit := hit + 1;
      }
    }

    /** iget's search for a free slot; NINODE when it runs off the end. */
    static method FreeSlot(busy: seq<bool>) returns (i: int)
      requires |busy| == NINODE
      ensures 0 <= i <= NINODE && (forall j | 0 <= j < i :: busy[j]) && (i < NINODE ==> !busy[i])
    {
      i := 0;
      while i < NINODE && busy[i]
        invariant 0 <= i <= NINODE && forall j | 0 <= j < i :: busy[j]
      {
        i := i + 1;
      }
    }

    /** Neither cached nor any entry to put it in. */
    ghost predicate NoEntry(dev: int, inum: int)
      reads this
      requires |entries| == NINODE
    {
      forall l | 0 <= l < NINODE :: entries[l].ref != 0 && (entries[l].dev != dev || entries[l].inum != inum)
    }

    /** An entry to fill, but the device's table is used up. */
    ghost predicate NoSlot(dev: int, inum: int)
      reads this
      requires Sized(Now())
    {
      && (forall l | 0 <= l < NINODE && Live(entries[l]) :: entries[l].dev != dev || entries[l].inum != inum)
      && (exists l | 0 <= l < NINODE :: entries[l].ref == 0) && Full(Now(), dev)
    }

    /** iget: the reference gets the name h.  NULL stands for its panic, NINODE for a slot search that ran
        off the end, after which the code writes behind the table. */
    method Iget(dev: int, inum: int, ghost h: int) returns (k: int)
      requires Valid() && h !in held
      modifies this
      ensures Valid() && (k == NULL || 0 <= k <= NINODE)
      ensures k == NULL <==> old(NoEntry(dev, inum))
      ensures k == NINODE <==> old(NoSlot(dev, inum))
      ensures k == NINODE ==> dev == ROOTDEV && |Lives(Now(), ROOTDEV)| + |Strays(Now(), ROOTDEV)| == NINODE
      ensures if k == NULL || k == NINODE then Now() == old(Now()) else Next(old(Now()), Now())
      ensures 0 <= k < NINODE ==> held == old(held)[h := Handle(k, Held)]
      ensures 0 <= k < NINODE ==> Found(old(Now()), Now(), k, dev, inum) || Entered(old(Now()), Now(), k, dev, inum)
    {
      ghost var c := Now();
      var hit, empty := Find(dev, inum);
      if hit < NINODE {
        Share(hit, h);
        assert Found(c, Now(), hit, dev, inum);
        return hit;
      }
      var i := FreeSlot(addrs);
      var j := FreeSlot(ext2addrs);
      if empty == NINODE {
        return NULL;
      }
      var slot := if dev == ROOTDEV then i else j;
      SearchEnds(c, empty, dev);
      if slot == NINODE {
        return NINODE;
      }
      Fill(empty, dev, inum, slot, h);
      IsEntered(c, Now(), empty, dev, inum, slot, h);
      return empty;
    }

    /** iget on a cached inode, and idup: one more reference. */
    method Share(k: int, ghost h: int)
      requires Valid() && 0 <= k < NINODE && Live(entries[k]) && h !in held
      modifies this
      ensures Valid() && ShareStep(old(Now()), Now(), k, h) && Next(old(Now()), Now())
      ensures entries == old(entries)[k := old(entries)[k].(ref := old(entries)[k].ref + 1)] && held == old(held)[h := Handle(k, Held)]
      ensures addrs == old(addrs) && ext2addrs == old(ext2addrs)
    {
      ghost var c := Now();
      SharedOk(c, k, h);
      entries := entries[k := entries[k].(ref := entries[k].ref + 1)];
      held := held[h := Handle(k, Held)];
      assert ShareStep(c, Now(), k, h);
    }

    /** idup, by someone who holds a reference. */
    method Idup(k: int, ghost g: int, ghost h: int)
      requires Valid() && g in held && held[g] == Handle(k, Held) && h !in held
      modifies this
      ensures Valid() && ShareStep(old(Now()), Now(), k, h)
      ensures entries == old(entries)[k := old(entries)[k].(ref := old(entries)[k].ref + 1)] && held == old(held)[h := Handle(k, Held)]
      ensures Calm(old(Now())) ==> !Clash(old(Now()), Now())
    {
      ghost var c := Now();
      HeldIsLive(c, g);
      if Calm(c) {
        HolderIsSafe(c, k, g, h);
      }
      Share(k, h);
    }

    method Fill(k: int, dev: int, inum: int, i: int, ghost h: int)
      requires Valid() && 0 <= k < NINODE && entries[k].ref == 0 && 0 <= i < NINODE && !Table(Now(), dev)[i] && h !in held
      requires forall l | 0 <= l < NINODE && Live(entries[l]) :: entries[l].dev != dev || entries[l].inum != inum
      modifies this
      ensures Valid() && FillStep(old(Now()), Now(), k, dev, inum, i, h) && Next(old(Now()), Now())
    {
      ghost var c := Now();
      FilledOk(c, k, dev, inum, i, h);
      entries := entries[k := Entry(dev, inum, 1, i, TypeFor(dev))];
      if dev == ROOTDEV {
        addrs := addrs[i := true];
      } else {
        ext2addrs := ext2addrs[i := true];
      }
      own := own[k := i];
      held := held[h := Handle(k, Held)];
      assert FillStep(c, Now(), k, dev, inum, i, h);
    }

    /** iput, up to its decision; it has the entry's sleep lock, so no other iput is freeing the inode.  As
        a step of the cache it is called through the entry's file system. */
    method PutCheck(k: int, freeable: bool, ghost h: int) returns (ad: int, free: bool)
      requires Valid() && h in held && held[h] == Handle(k, Held) && !IsFreeing(Now(), k)
      modifies this
      ensures Valid() && Now() == Checked(old(Now()), h, freeable)
      ensures !old(entries)[k].ftype.NoType? ==> Next(old(Now()), Now())
      ensures free <==> freeable && entries[k].ref == 1
      ensures held[h] == Handle(k, if free then Freeing(ad) else Ending(ad)) && Points(Now(), k, ad)
      ensures Calm(old(Now())) ==> 0 <= ad < NINODE
    {
      ghost var c := Now();
      HeldIsLive(c, h);
      CheckedOk(c, h, freeable);
      if Calm(c) {
        HeldNotCleared(c, h);
      }
      ad := entries[k].addrs;
      free := freeable && entries[k].ref == 1;
      held := held[h := Handle(k, if free then Freeing(ad) else Ending(ad))];
      assert Now() == Checked(c, h, freeable);
      if !c.entries[k].ftype.NoType? {
        assert CheckStep(c, Now(), h);
        assert PutStep(c, Now(), h);
      }
    }

    /** iput, after freeing the inode on disk. */
    method PutClear(k: int, ghost ad: int, ghost h: int)
      requires Valid() && h in held && held[h] == Handle(k, Freeing(ad))
      modifies this
      ensures Valid() && Now() == ClearedBy(old(Now()), h) && Next(old(Now()), Now())
      ensures var e := old(entries)[k];
        entries == old(entries)[k := e.(ftype := NoType, addrs := if e.dev == ROOTDEV then NULL else e.addrs)]
      ensures addrs == old(addrs) && ext2addrs == old(ext2addrs)
    {
      ghost var c := Now();
      HeldIsLive(c, h);
      ClearedOk(c, h);
      if entries[k].dev == ROOTDEV {
        entries := entries[k := entries[k].(ftype := NoType)];
        entries := entries[k := entries[k].(addrs := NULL)];
      } else {
        entries := entries[k := entries[k].(ftype := NoType)];
      }
      held := held[h := Handle(k, Cleared(ad))];
      assert Now() == ClearedBy(c, h);
      assert PutStep(c, Now(), h);
    }

    /** iput's last critical section: ad is what it has had in hand since its first.  A null one is no
        slot, and the store through it reaches neither table. */
    method PutEnd(k: int, ad: int, ghost h: int)
      requires Valid() && h in held && (held[h] == Handle(k, Ending(ad)) || held[h] == Handle(k, Cleared(ad)))
      modifies this
      ensures Valid() && DropStep(old(Now()), Now(), h) && Next(old(Now()), Now()) && held == old(held) - {h}
      ensures Strays(Now(), ROOTDEV) == old(Strays(Now(), ROOTDEV))
        + if old(entries[k].ref) == 1 && ad == NULL then {own[k]} else {}
      ensures forall l | 0 <= l < NINODE && l != k :: entries[l] == old(entries)[l]
      ensures entries[k].ref == old(entries)[k].ref - 1 && entries[k].dev == old(entries)[k].dev && entries[k].inum == old(entries)[k].inum
      ensures entries[k].ref > 0 ==> entries[k].addrs == old(entries)[k].addrs && entries[k].ftype == old(entries)[k].ftype
      ensures var last := old(entries)[k].ref == 1 && ad != NULL; var root := old(entries)[k].dev == ROOTDEV;
        && addrs == (if last && root then old(addrs)[ad := false] else old(addrs))
        && ext2addrs == if last && !root then old(ext2addrs)[ad := false] else old(ext2addrs)
    {
      ghost var c := Now();
      HeldIsLive(c, h);
      DroppedOk(c, h);
      var e := entries[k].(ref := entries[k].ref - 1);
      if e.ref == 0 {
        if e.dev == ROOTDEV {
          if ad != NULL {
            addrs := addrs[ad := false];
          }
          e := e.(addrs := NULL);
        } else {
          ext2addrs := ext2addrs[ad := false];
          e := e.(ftype := NoType);
        }
      }
      entries := entries[k := e];
      held := held - {h};
      assert Now() == Dropped(c, h);
      assert PutStep(c, Now(), h);
    }
  }

  /** iget has found the inode in entry k: one reference more. */
  ghost predicate Found(c: Cache, d: Cache, k: int, dev: int, inum: int) {
    && 0 <= k < |c.entries| && Live(c.entries[k]) && c.entries[k].dev == dev && c.entries[k].inum == inum
    && d.entries == c.entries[k := c.entries[k].(ref := c.entries[k].ref + 1)] && d.root == c.root && d.ext == c.ext
  }

  /** iget has put the inode into the first free entry, with the first free slot of its table and the
      operations of its file system. */
  ghost predicate Entered(c: Cache, d: Cache, k: int, dev: int, inum: int) {
    && 0 <= k < |c.entries| == |d.entries| && !Live(c.entries[k]) && (forall l | 0 <= l < k :: c.entries[l].ref != 0)
    && var i := d.entries[k].addrs;
    && d.entries == c.entries[k := Entry(dev, inum, 1, i, if dev == ROOTDEV then InbuiltFs else Ext2Fs)]
    && FirstFree(if dev == ROOTDEV then c.root else c.ext, i)
    && d.root == (if dev == ROOTDEV then c.root[i := true] else c.root)
    && d.ext == if dev == ROOTDEV then c.ext else c.ext[i := true]
  }

  lemma IsEntered(c: Cache, d: Cache, k: int, dev: int, inum: int, i: int, h: int)
    requires Sized(c) && 0 <= k < NINODE && !Live(c.entries[k]) && (forall l | 0 <= l < k :: c.entries[l].ref != 0)
    requires FirstFree(if dev == ROOTDEV then c.root else c.ext, i) && d == Filled(c, k, dev, inum, i, h)
    ensures Entered(c, d, k, dev, inum)
  {
  }

  predicate FirstFree(busy: seq<bool>, i: int) {
    0 <= i < |busy| && !busy[i] && forall j | 0 <= j < i :: busy[j]
  }

  /** The search in the ext2 table always ends, and where the one in the root table does not, it is full. */
  lemma SearchEnds(c: Cache, k: int, dev: int)
    requires Ok(c) && 0 <= k < NINODE && !Live(c.entries[k])
    ensures Full(c, dev) ==> dev == ROOTDEV && |Lives(c, ROOTDEV)| + |Strays(c, ROOTDEV)| == NINODE
  {
    SlotSearch(c, ROOTDEV);
    SlotIsFree(c, k, EXT2DEV);
    if dev != ROOTDEV {
      var i :| 0 <= i < NINODE && !Table(c, EXT2DEV)[i];
      assert !Table(c, dev)[i];
    }
  }

  /** Nobody frees an inode that someone else holds. */
  lemma HolderIsSafe(c: Cache, k: int, g: int, h: int)
    requires Ok(c) && Calm(c) && g in c.held && c.held[g] == Handle(k, Held) && h !in c.held && 0 <= k < NINODE
    ensures !IsPending(c, k) && !Clash(c, Shared(c, k, h))
  {
    HeldNotCleared(c, g);
    var d := Shared(c, k, h);
    forall l, i | ShareStep(c, d, l, i)
      ensures l == k
    {
      assert i in d.held && i !in c.held;
      assert d.held == c.held[h := Handle(k, Held)] && d.held == c.held[i := Handle(l, Held)];
      assert i == h;
      assert d.held[h].k == k;
    }
  }
}
