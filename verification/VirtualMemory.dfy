/** kalloc.c and vm.c as code, in pages: an address is its page number, a physical address its frame. */
module VirtualMemory {
  import opened Frames
  import opened AddressSpaces
  import opened FrameCount
  import F = Finite

  const PTE_W := 2
  const PTE_U := 4
  const KERNBASE := 0x80000000

  /** PGROUNDUP, as a page number. */
  function PageUp(sz: int): int {
    (sz + PGSIZE - 1) / PGSIZE
  }

  class Memory {
    var mem: seq<Page>
    const lo: int
    var free: seq<int>
    ghost var dirs: set<int>
    ghost var out: set<int>

    ghost function Now(): Vm
      reads this
    {
      Vm(mem, lo, free, dirs, out)
    }

    ghost predicate Valid()
      reads this
    {
      0 < lo && Owned(Now())
    }

    /** At boot every frame above the kernel is still out: freerange puts them on the free list. */
    constructor (n: int, first: int)
      requires 0 < first <= n
      ensures Valid() && |mem| == n && lo == first && free == [] && dirs == {}
      ensures forall f :: f in out <==> first <= f < n
    {
      mem := seq(n, _ => Data([]));
      lo := first;
      free := [];
      dirs := {};
      out := F.Below(n) - F.Below(first);
      new;
      forall f | lo <= f < |mem|
        ensures Somewhere(Now(), f)
      {
        assert Held(Now(), Out, f);
      }
    }

    // ---------- kalloc.c ----------

    method Freerange(a: int, b: int)
      requires Valid() && forall f | a <= f < b :: f in out
      modifies `mem, `free, `out
      ensures Valid() && forall e | e in dirs :: Keeps(old(Now()), Now(), e)
      ensures forall f :: f in out <==> f in old(out) && !(a <= f < b)
      ensures forall f :: f in free <==> f in old(free) || a <= f < b
    {
      ghost var s := Now();
      var p := a;
      while p + 1 <= b
        invariant a <= p && (p == a || p <= b) && Valid()
        invariant forall e | e in dirs :: Keeps(s, Now(), e)
        invariant forall f :: f in out <==> f in s.out && !(a <= f < p)
        invariant forall f :: f in free <==> f in s.free || a <= f < p
      {
        ghost var t := Now();
        Kfree(p);
        forall e | e in dirs
          ensures Keeps(s, Now(), e)
        {
          KeepsChain(s, t, Now(), e);
        }
        p := p + 1;
      }
    }

    /** The first free frame; 0 if there is none. */
    method Kalloc() returns (f: int)
      requires Valid()
      modifies `free, `out
      ensures Valid()
      ensures f == 0 <==> old(free) == []
      ensures f == 0 ==> Now() == old(Now())
      ensures f != 0 ==> f == old(free)[0] && Now() == Alloc(old(Now())) && 0 <= f < |mem| && f !in old(out) && f !in dirs
      ensures forall e | e in dirs :: Keeps(old(Now()), Now(), e)
    {
      ghost var s := Now();
      if free == [] {
        return 0;
      }
      AllocOwned(s);
      f := free[0];
      assert Held(s, Free, f) && !Held(s, Out, f) && !Held(s, Root, f);
      free := free[1..];
      out := out + {f};
      forall e | e in dirs
        ensures Keeps(s, Now(), e)
      {
        AllocKeeps(s, e);
      }
    }

    method Kfree(f: int)
      requires Valid() && f in out
      modifies `mem, `free, `out
      ensures Valid() && lo <= f < |mem| == |old(mem)| && Now() == Release(old(Now()), f, Junk())
      ensures forall e | e in dirs :: Keeps(old(Now()), Now(), e)
    {
      ghost var s := Now();
      assert Held(s, Out, f);
      ReleaseOwned(s, f, Junk());
      mem := mem[f := Junk()];
      free := [f] + free;
      out := out - {f};
      forall e | e in dirs
        ensures Keeps(s, Now(), e)
      {
        OutKeeps(s, Now(), f, e);
      }
    }

    /** memset or memmove into a frame that is not mapped. */
    method Write(f: int, page: Page)
      requires Valid() && f in out
      modifies `mem
      ensures Valid() && 0 <= f < |mem| == |old(mem)| && Now() == old(Now()).(mem := old(mem)[f := page])
      ensures forall e | e in dirs :: Keeps(old(Now()), Now(), e)
    {
      ghost var s := Now();
      assert Held(s, Out, f);
      WriteOwned(s, f, page);
      mem := mem[f := page];
      forall e | e in dirs
        ensures Keeps(s, Now(), e)
      {
        OutKeeps(s, Now(), f, e);
      }
    }

    // ---------- vm.c ----------

    /** The frame of the table for page v, which is made if need be and alloc; 0 if there is none. */
    method Walkpgdir(d: int, v: int, alloc: bool) returns (t: int)
      requires Valid() && d in dirs && 0 <= v < NENT * NENT
      modifies `mem, `free, `out
      ensures Valid() && Apart(old(Now()), Now(), d) && SameView(old(Now()), Now(), d)
      ensures forall w :: PteOf(Now(), d, w) == PteOf(old(Now()), d, w)
      ensures t != 0 <==> HasTable(Now(), d, v)
      ensures t != 0 ==> t == Ent(Now(), d, v / NENT).frame && IsTab(Now(), t)
      ensures t == 0 || !alloc ==> Now() == old(Now())
      ensures old(Ent(Now(), d, v / NENT)).Absent? && t != 0 ==> t in old(free) && Ent(Now(), d, v / NENT).flags == PTE_W + PTE_U
      ensures alloc ==> (t != 0 <==> |old(free)| >= One(old(Ent(Now(), d, v / NENT)).Absent?))
      ensures t != 0 ==> |free| == |old(free)| - One(old(Ent(Now(), d, v / NENT)).Absent?) && Tabled(old(Now()), Now(), d, v, v + 1)
      ensures forall g | g in out && 0 <= g < |mem| :: mem[g] == old(mem)[g]
    {
      ghost var s := Now();
      assert IsTab(s, d);
      var pde := mem[d].ptes[v / NENT];
      assert pde == Ent(s, d, v / NENT);
      if pde.Present? {
        assert Held(s, Tab(d, v / NENT), pde.frame);
        TabledOne(s, s, d, v);
        return pde.frame;
      }
      if !alloc || free == [] {
        return 0;
      }
      TableAddedOk(s, d, v / NENT);
      t := free[0];
      assert Held(s, Free, t);
      free := free[1..];
      mem := mem[t := BlankTable()];
      mem := mem[d := Table(mem[d].ptes[v / NENT := Present(t, TABFLAGS)])];
      assert out + {t} - {t} == out by {
        assert !Held(s, Out, t);
      }
      assert d !in out by {
        assert Held(s, Root, d) && !Held(s, Out, d);
      }
      assert Now() == TableAdded(s, d, v / NENT);
      TabledOne(s, Now(), d, v);
    }

    /** mappages on one page.  A user page takes the frame from whoever held it. */
    method MapPage(d: int, v: int, f: int, flags: int) returns (ok: bool)
      requires Valid() && d in dirs && 0 <= v < NENT * NENT && PteOf(Now(), d, v).Absent?
      requires v < UPAGES ==> f in out
      modifies `mem, `free, `out
      ensures Valid() && dirs == old(dirs) && |mem| == |old(mem)|
      ensures !ok ==> Now() == old(Now())
      ensures ok <==> |old(free)| >= One(old(Ent(Now(), d, v / NENT)).Absent?)
      ensures ok ==> |free| == |old(free)| - One(old(Ent(Now(), d, v / NENT)).Absent?) && Tabled(old(Now()), Now(), d, v, v + 1)
      ensures ok ==> out == if v < UPAGES then old(out) - {f} else old(out)
      ensures forall e | e in dirs && e != d :: Keeps(old(Now()), Now(), e)
      ensures ok ==> forall w :: PteOf(Now(), d, w) == if w == v then Present(f, flags) else PteOf(old(Now()), d, w)
      ensures ok ==> 0 <= v < UPAGES ==> 0 <= f < |mem| && old(mem)[f] == mem[f] && ViewOf(Now(), d, v) == Some(Cell(f, flags, mem[f]))
      ensures ok ==> forall w | 0 <= w < UPAGES && w != v :: ViewOf(Now(), d, w) == ViewOf(old(Now()), d, w)
    {
      var t := Walkpgdir(d, v, true);
      if t == 0 {
        return false;
      }
      ghost var s := Now();
      if v < UPAGES {
        assert Held(s, Out, f);
        assert Held(s, Tab(d, v / NENT), t);
        MappedOk(s, d, v, f, flags);
        out := out - {f};
      } else {
        KernelOk(s, d, v, Present(f, flags));
      }
      mem := mem[t := Table(mem[t].ptes[v % NENT := Present(f, flags)])];
      TabledSame(old(Now()), s, Now(), d, v, v + 1);
      forall e | e in dirs && e != d
        ensures Keeps(old(Now()), Now(), e)
      {
        KeepsChain(old(Now()), s, Now(), e);
      }
      return true;
    }

    /** deallocuvm on page v, whose table is frame t: kfree, then clear the entry. */
    method FreePage(d: int, v: int, t: int)
      requires Valid() && 0 <= v < UPAGES && HasTable(Now(), d, v) && t == Ent(Now(), d, v / NENT).frame
      requires PteOf(Now(), d, v).Present?
      modifies `mem, `free
      ensures Valid() && Apart(old(Now()), Now(), d)
      ensures forall i :: Ent(Now(), d, i) == Ent(old(Now()), d, i)
      ensures forall w :: PteOf(Now(), d, w) == if w == v then Absent else PteOf(old(Now()), d, w)
      ensures forall w | 0 <= w < UPAGES :: ViewOf(Now(), d, w) == if w == v then None else ViewOf(old(Now()), d, w)
    {
      ghost var s := Now();
      PageFreedOk(s, d, v);
      var f := mem[t].ptes[v % NENT].frame;
      assert Held(s, Usr(d, v), f) && Held(s, Tab(d, v / NENT), t);
      assert out + {f} - {f} == out by {
        assert !Held(s, Out, f);
      }
      mem := mem[f := Junk()];
      free := [f] + free;
      mem := mem[t := Table(mem[t].ptes[v % NENT := Absent])];
      assert mem == PageFreed(s, d, v).mem;
      assert Now() == PageFreed(s, d, v);
    }

    /** Every user page from newsz up to oldsz goes, and its frame is free again. */
    method Deallocuvm(d: int, oldsz: int, newsz: int) returns (r: int)
      requires Valid() && d in dirs && 0 <= newsz && oldsz <= KERNBASE
      modifies `mem, `free, `out
      ensures Valid() && Apart(old(Now()), Now(), d)
      ensures r == if newsz >= oldsz then oldsz else newsz
      ensures forall w | 0 <= w < UPAGES :: ViewOf(Now(), d, w) ==
                                            if PageUp(newsz) <= w < PageUp(oldsz) then None else ViewOf(old(Now()), d, w)
      ensures SameKernel(old(Now()), Now(), d)
    {
      if newsz >= oldsz {
        return oldsz;
      }
      ghost var s := Now();
      ghost var a, z := PageUp(newsz), PageUp(oldsz);
      var v := PageUp(newsz);
      while v * PGSIZE < oldsz
        invariant a <= v && Valid() && Apart(s, Now(), d) && SameKernel(s, Now(), d)
        invariant forall w | 0 <= w < UPAGES :: ViewOf(Now(), d, w) == if a <= w < v && w < z then None else ViewOf(s, d, w)
        decreases z - v
      {
        var t := Walkpgdir(d, v, false);
        if t == 0 {
          ghost var next := (v / NENT + 1) * NENT;
          forall w | v <= w < next && w < z
            ensures ViewOf(Now(), d, w).None?
          {
            assert w / NENT == v / NENT;
          }
          v := (v / NENT + 1) * NENT - 1;
        } else if mem[t].ptes[v % NENT].Present? {
          ghost var u := Now();
          FreePage(d, v, t);
          ApartChain(s, u, Now(), d);
          KernelChain(s, u, Now(), d);
        } else {
          assert ViewOf(Now(), d, v).None?;
        }
        v := v + 1;
      }
      return newsz;
    }

    /** Zeroed, writable user pages from oldsz up to newsz; or none, and the address space as it was.  It
        succeeds exactly if the pages stay below the kernel and there are frames for them and for the
        tables that they lack. */
    method Allocuvm(d: int, oldsz: int, newsz: int) returns (r: int)
      requires Valid() && d in dirs && 0 <= oldsz && 0 <= newsz
      requires forall w | PageUp(oldsz) <= w < PageUp(newsz) && w < UPAGES :: ViewOf(Now(), d, w).None?
      modifies `mem, `free, `out
      ensures Valid() && Apart(old(Now()), Now(), d)
      ensures newsz >= KERNBASE ==> r == 0
      ensures oldsz <= newsz ==> r == newsz || r == 0
      ensures oldsz <= newsz < KERNBASE ==>
                (r == newsz <==> |old(free)| >= Price(old(Now()), d, PageUp(oldsz), PageUp(newsz)))
      ensures newsz < oldsz && newsz < KERNBASE ==> r == oldsz
      ensures r != newsz || newsz <= oldsz ==> SameView(old(Now()), Now(), d)
      ensures r == newsz && oldsz <= newsz ==> Grown(old(Now()), Now(), d, PageUp(oldsz), PageUp(newsz))
      ensures SameKernel(old(Now()), Now(), d)
    {
      if newsz >= KERNBASE {
        return 0;
      }
      if newsz < oldsz {
        return oldsz;
      }
      ghost var s := Now();
      ghost var a, z := PageUp(oldsz), PageUp(newsz);
      var v := PageUp(oldsz);
      TabledNone(s, d, a);
      while v * PGSIZE < newsz
        invariant a <= v <= z && Valid() && Grew(s, Now(), d, a, v)
      {
        var ok := GrowBy(s, d, a, v, z);
        if !ok {
          ghost var t := Now();
          var _ := Deallocuvm(d, newsz, oldsz);
          ApartChain(s, t, Now(), d);
          KernelChain(s, t, Now(), d);
          return 0;
        }
        v := v + 1;
      }
      return newsz;
    }

    /** allocuvm's loop at page v. */
    method GrowBy(ghost s: Vm, d: int, ghost a: int, v: int, ghost z: int) returns (ok: bool)
      requires Valid() && d in dirs && 0 <= a <= v < UPAGES && v < z && Grew(s, Now(), d, a, v) && ViewOf(s, d, v).None?
      modifies `mem, `free, `out
      ensures Valid()
      ensures ok ==> Grew(s, Now(), d, a, v + 1)
      ensures !ok ==> Apart(s, Now(), d) && Grown(s, Now(), d, a, v) && |s.free| < Price(s, d, a, z) && SameKernel(s, Now(), d)
    {
      ghost var t := Now();
      assert ViewOf(t, d, v) == ViewOf(s, d, v);
      AbsentIsNone(t, d, v);
      LacksThen(s, t, d, a, v);
      TabsGrow(s, d, a, v + 1, z);
      ok := AddPage(d, v);
      ApartChain(s, t, Now(), d);
      KernelChain(s, t, Now(), d);
      if ok {
        TabledThen(s, t, Now(), d, a, v, v + 1);
      }
    }

    /** One round of allocuvm.  On failure the caller still has to undo the rounds before; the page in
        hand goes back before those, not after, which only changes the order of the free list. */
    method AddPage(d: int, v: int) returns (ok: bool)
      requires Valid() && d in dirs && 0 <= v < UPAGES && PteOf(Now(), d, v).Absent?
      modifies `mem, `free, `out
      ensures Valid() && Apart(old(Now()), Now(), d)
      ensures !ok ==> SameView(old(Now()), Now(), d)
      ensures ok ==> Grown(old(Now()), Now(), d, v, v + 1)
      ensures SameKernel(old(Now()), Now(), d)
      ensures ok <==> |old(free)| >= 1 + One(old(Ent(Now(), d, v / NENT)).Absent?)
      ensures ok ==> |free| == |old(free)| - 1 - One(old(Ent(Now(), d, v / NENT)).Absent?) && Tabled(old(Now()), Now(), d, v, v + 1)
    {
      ghost var s := Now();
      var f := Kalloc();
      if f == 0 {
        return false;
      }
      assert s.out + {f} - {f} == s.out;
      ghost var s1 := Now();
      assert Keeps(s, s1, d);
      Write(f, Zero());
      ghost var s2 := Now();
      KeepsChain(s, s1, s2, d);
      assert PteOf(s2, d, v) == PteOf(s, d, v);
      assert Ent(s2, d, v / NENT) == Ent(s, d, v / NENT);
      ok := MapPage(d, v, f, PTE_W + PTE_U);
      ghost var s3 := Now();
      if ok {
        TabledFrom(s, s2, s3, d, v, v + 1);
      }
      if !ok {
        Kfree(f);
      }
      forall e | e in s.dirs && e != d
        ensures Keeps(s, Now(), e)
      {
        assert Keeps(s, s1, e) && Keeps(s1, s2, e) && Keeps(s2, s3, e);
        KeepsChain(s, s1, s2, e);
        KeepsChain(s, s2, s3, e);
        if !ok {
          assert Keeps(s3, Now(), e);
          KeepsChain(s, s3, Now(), e);
        }
      }
      if !ok {
        assert Keeps(s3, Now(), d);
        KeepsChain(s, s3, Now(), d);
      } else {
        forall w | 0 <= w < UPAGES && w != v
          ensures ViewOf(Now(), d, w) == ViewOf(s, d, w)
        {
          assert ViewOf(s2, d, w) == ViewOf(s, d, w);
        }
        KernelChain(s, s2, Now(), d);
      }
    }

    /** Directory d, its tables and its user pages are free, each of them once, and nothing else is. */
    method Freevm(d: int)
      requires Valid() && d in dirs
      modifies `mem, `free, `dirs, `out
      ensures Valid() && dirs == old(dirs) - {d} && out == old(out) && |mem| == |old(mem)|
      ensures forall e | e in dirs :: Keeps(old(Now()), Now(), e)
      ensures forall f :: f in free <==> f in old(free) || BelongsTo(old(Now()), d, f)
    {
      ghost var s := Now();
      var _ := Deallocuvm(d, KERNBASE, 0);
      ghost var s1 := Now();
      forall v | 0 <= v < UPAGES
        ensures PteOf(s1, d, v).Absent?
      {
        assert ViewOf(s1, d, v).None?;
        AbsentIsNone(s1, d, v);
      }
      RetiredOwned(s1, d);
      dirs := dirs - {d};
      out := out + {d} + TablesFrom(s1, d, 0);
      assert TablesFrom(s1, d, 0) == Tables(s1, d);
      FreeTables(d, s1);
      ghost var s2 := Now();
      Kfree(d);
      forall e | e in dirs
        ensures Keeps(s, Now(), e)
      {
        assert Keeps(s, s1, e) && Keeps(s1, s2, e) && Keeps(s2, Now(), e);
        KeepsChain(s, s1, s2, e);
        KeepsChain(s, s2, Now(), e);
      }
      assert out == s.out by {
        assert Held(s, Root, d) && !Held(s, Out, d);
      }
      ApartOthers(s, Now(), d);
      forall f
        ensures f in free <==> f in old(free) || BelongsTo(s, d, f)
      {
        FreedExactly(s, Now(), d, f);
      }
    }

    /** freevm's loop over the directory d of s1, which has been retired. */
    method FreeTables(d: int, ghost s1: Vm)
      requires Valid() && Owned(s1) && d in s1.dirs && NoUser(s1, d) && Now() == Retired(s1, d)
      modifies `mem, `free, `out
      ensures Valid() && |mem| == |s1.mem| && out == s1.out + {d}
      ensures forall e | e in s1.dirs && e != d :: Keeps(s1, Now(), e)
    {
      assert Tables(s1, d) == TablesFrom(s1, d, 0) && IsTab(s1, d);
      forall e | e in s1.dirs && e != d
        ensures Keeps(s1, Now(), e)
      {
        RetiredKeeps(s1, d, e);
      }
      var i := 0;
      while i < NENT
        invariant 0 <= i <= NENT && Valid() && |mem| == |s1.mem| && 0 <= d < |mem| && mem[d] == s1.mem[d] && dirs == s1.dirs - {d}
        invariant out == s1.out + {d} + TablesFrom(s1, d, i)
        invariant forall e | e in s1.dirs && e != d :: Keeps(s1, Now(), e)
      {
        TablesNext(s1, d, i);
        if mem[d].ptes[i].Present? {
          ghost var t := Now();
          assert mem[d].ptes[i] == Ent(s1, d, i);
          Kfree(mem[d].ptes[i].frame);
          forall e | e in s1.dirs && e != d
            ensures Keeps(s1, Now(), e)
          {
            assert Keeps(t, Now(), e);
            KeepsChain(s1, t, Now(), e);
          }
        }
        i := i + 1;
      }
      assert TablesFrom(s1, d, NENT) == {};
    }

    /** mappages on n kernel pages from v on.  On failure some of them may be mapped. */
    method Mappages(d: int, v: int, n: int, pa: int, perm: int) returns (ok: bool)
      requires Valid() && d in dirs && UPAGES <= v && 0 < n && v + n <= NENT * NENT
      requires forall w | v <= w < v + n :: PteOf(Now(), d, w).Absent?
      modifies `mem, `free, `out
      ensures Valid() && (ok <==> |old(free)| >= Tabs(old(Now()), d, v, v + n))
      ensures ok ==> Ranged(old(Now()), Now(), d, Range(v, n, pa, perm))
      ensures !ok ==> Apart(old(Now()), Now(), d) && SameView(old(Now()), Now(), d)
    {
      ghost var s := Now();
      var k := 0;
      TabledNone(s, d, v);
      while true
        invariant 0 <= k < n && Valid() && Ranged(s, Now(), d, Range(v, k, pa, perm))
        decreases n - k
      {
        ok := MapNext(s, d, v, k, pa, perm, n);
        if !ok || k == n - 1 {
          return;
        }
        k := k + 1;
      }
    }

    /** mappages' loop at page v + k. */
    method MapNext(ghost s: Vm, d: int, v: int, k: int, pa: int, perm: int, ghost n: int) returns (ok: bool)
      requires Valid() && d in dirs && UPAGES <= v && 0 <= k < n && v + k < NENT * NENT && PteOf(s, d, v + k).Absent?
      requires Ranged(s, Now(), d, Range(v, k, pa, perm))
      modifies `mem, `free, `out
      ensures Valid()
      ensures ok ==> Ranged(s, Now(), d, Range(v, k + 1, pa, perm))
      ensures !ok ==> Apart(s, Now(), d) && SameView(s, Now(), d) && |s.free| < Tabs(s, d, v, v + n)
    {
      ghost var t, r := Now(), Range(v, k, pa, perm);
      assert PteOf(t, d, v + k) == PteOf(s, d, v + k);
      ok := MapPage(d, v + k, pa + k, perm);
      if ok {
        RangedNext(s, t, Now(), d, r);
        assert Range(v, k + 1, pa, perm) == r.(n := k + 1);
      } else {
        RangedShort(s, t, d, r, n);
      }
    }

    /** A directory with the kernel's mappings and no user pages; 0, and nothing changed, exactly if there
        are no frames for it and the kernel's tables. */
    method Setupkvm(data: int) returns (d: int)
      requires Valid() && 0x80100 < data < 0x8E000
      modifies `mem, `free, `dirs, `out
      ensures Valid() && out == old(out) && |mem| == |old(mem)|
      ensures forall e | e in old(dirs) :: Keeps(old(Now()), Now(), e)
      ensures d == 0 ==> dirs == old(dirs) && forall f :: f in free <==> f in old(free)
      ensures d == 0 <==> |old(free)| < 1 + KVM_TABLES
      ensures d != 0 ==> |free| == |old(free)| - 1 - KVM_TABLES && forall i | 0 <= i < UPAGES / NENT :: Ent(Now(), d, i).Absent?
      ensures d != 0 ==> d !in old(dirs) && dirs == old(dirs) + {d} && NoUser(Now(), d)
      ensures d != 0 ==> KernelHalf(Now(), d, data)
    {
      ghost var s := Now();
      d := Kalloc();
      if d == 0 {
        return;
      }
      ghost var s1 := Now();
      Write(d, BlankTable());
      ghost var s2 := Now();
      RootedOwned(s2, d);
      dirs := dirs + {d};
      out := out - {d};
      ghost var s3 := Now();
      assert s3 == Rooted(s2, d) && out == s.out;
      forall e | e in s.dirs
        ensures Keeps(s, s3, e)
      {
        assert Keeps(s, s1, e) && Keeps(s1, s2, e);
        RootedKeeps(s2, d, e);
        KeepsChain(s, s1, s2, e);
        KeepsChain(s, s2, s3, e);
      }
      var ok := MapKernel(d, data);
      ghost var s4 := Now();
      forall e | e in s.dirs
        ensures Keeps(s, s4, e)
      {
        assert Keeps(s3, s4, e);
        KeepsChain(s, s3, s4, e);
      }
      if !ok {
        Freevm(d);
        forall e | e in s.dirs
          ensures Keeps(s, Now(), e)
        {
          assert Keeps(s4, Now(), e);
          KeepsChain(s, s4, Now(), e);
        }
        assert dirs == s.dirs;
        KeepsSameFree(s, Now());
        d := 0;
        return;
      }
      AllRows(Now(), d, data);
      forall v | 0 <= v < UPAGES
        ensures PteOf(Now(), d, v).Absent?
      {
        assert PteOf(s3, d, v).Absent?;
        AbsentIsNone(s3, d, v);
        assert ViewOf(s4, d, v) == ViewOf(s3, d, v);
        AbsentIsNone(s4, d, v);
      }
    }

    /** setupkvm's loop over kmap. */
    method MapKernel(d: int, data: int) returns (ok: bool)
      requires Valid() && d in dirs && 0x80100 < data < 0x8E000
      requires forall i :: Ent(Now(), d, i).Absent?
      modifies `mem, `free, `out
      ensures Valid() && Apart(old(Now()), Now(), d) && SameView(old(Now()), Now(), d)
      ensures ok <==> |old(free)| >= KVM_TABLES
      ensures ok ==> KernelUpTo(old(Now()), Now(), d, data, 4)
    {
      ghost var s := Now();
      var k := 0;
      while k < 4
        invariant 0 <= k <= 4 && Valid() && KernelUpTo(s, Now(), d, data, k)
      {
        ok := MapRow(s, d, data, k);
        if !ok {
          return;
        }
        k := k + 1;
      }
      ok := true;
    }

    method MapRow(ghost s: Vm, d: int, data: int, k: int) returns (ok: bool)
      requires Valid() && d in dirs && 0x80100 < data < 0x8E000 && 0 <= k < 4 && KernelUpTo(s, Now(), d, data, k)
      modifies `mem, `free, `out
      ensures Valid()
      ensures ok ==> KernelUpTo(s, Now(), d, data, k + 1)
      ensures !ok ==> Apart(s, Now(), d) && SameView(s, Now(), d) && |s.free| < KVM_TABLES
    {
      ghost var t := Now();
      var r := Kmap(data)[k];
      assert forall w | r.v <= w < r.v + r.n :: Covers(r, w);
      RowTabs(t, d, data, k);
      ok := Mappages(d, r.v, r.n, r.frame, r.perm);
      ApartChain(s, t, Now(), d);
      ViewChain(s, t, Now(), d);
      if ok {
        RowSlots(t, Now(), d, data, k);
        RowPages(t, Now(), d, data, k);
      }
    }

    /** A copy of d's first pages: equal contents and flags, in frames that no other address space has; 0,
        and nothing changed, exactly if there are no frames for a kernel map, the pages and their tables. */
    method Copyuvm(d: int, sz: int, data: int) returns (nd: int)
      requires Valid() && d in dirs && 0x80100 < data < 0x8E000 && 0 <= sz <= KERNBASE
      requires forall w | 0 <= w < PageUp(sz) :: PteOf(Now(), d, w).Present?
      modifies `mem, `free, `dirs, `out
      ensures Valid() && out == old(out) && |mem| == |old(mem)|
      ensures forall e | e in old(dirs) :: Keeps(old(Now()), Now(), e)
      ensures nd == 0 ==> dirs == old(dirs) && forall f :: f in free <==> f in old(free)
      ensures nd == 0 <==> |old(free)| < 1 + KVM_TABLES + PageUp(sz) + TablesFor(PageUp(sz))
      ensures nd != 0 ==> nd !in old(dirs) && dirs == old(dirs) + {nd} && CopyOf(old(Now()), Now(), d, nd, PageUp(sz)) && Private(Now(), nd)
      ensures nd != 0 ==> KernelHalf(Now(), nd, data)
    {
      ghost var s := Now();
      nd := Setupkvm(data);
      if nd == 0 {
        return;
      }
      assert CopyOf(s, Now(), d, nd, 0) by {
        forall w | 0 <= w < UPAGES
          ensures ViewOf(Now(), nd, w).None?
        {
          AbsentIsNone(Now(), nd, w);
        }
      }
      ghost var u, z := Now(), PageUp(sz);
      TabledNone(u, nd, 0);
      UserTabs(u, nd, z);
      var v := 0;
      while v * PGSIZE < sz
        invariant 0 <= v <= z && Valid() && Copying(s, u, Now(), d, nd, v)
      {
        var ok := CopyNext(s, u, d, nd, v, z);
        if !ok {
          ghost var t := Now();
          Freevm(nd);
          forall e | e in s.dirs
            ensures Keeps(s, Now(), e)
          {
            assert Keeps(t, Now(), e);
            KeepsChain(s, t, Now(), e);
          }
          assert dirs == s.dirs;
          KeepsSameFree(s, Now());
          nd := 0;
          return;
        }
        v := v + 1;
      }
      OwnedIsPrivate(Now(), nd);
      SameHalf(u, Now(), nd, data);
    }

    /** copyuvm's loop at page v. */
    method CopyNext(ghost s: Vm, ghost u: Vm, d: int, nd: int, v: int, ghost z: int) returns (ok: bool)
      requires Valid() && d in s.dirs && 0 <= v < UPAGES && v < z && Copying(s, u, Now(), d, nd, v) && PteOf(s, d, v).Present?
      modifies `mem, `free, `out
      ensures Valid()
      ensures ok ==> Copying(s, u, Now(), d, nd, v + 1)
      ensures !ok ==> Beside(s, Now(), nd) && |u.free| < Price(u, nd, 0, z)
    {
      ghost var t := Now();
      assert Keeps(s, t, d);
      assert PteOf(t, d, v) == PteOf(s, d, v);
      LacksThen(u, t, nd, 0, v);
      TabsGrow(u, nd, 0, v + 1, z);
      ok := CopyPage(d, nd, v);
      forall e | e in s.dirs
        ensures Keeps(s, Now(), e)
      {
        assert Keeps(t, Now(), e);
        KeepsChain(s, t, Now(), e);
      }
      if ok {
        CopyStep(s, t, Now(), d, nd, v);
        KernelChain(u, t, Now(), nd);
        TabledThen(u, t, Now(), nd, 0, v, v + 1);
      }
    }

    /** One round of copyuvm. */
    method CopyPage(d: int, nd: int, v: int) returns (ok: bool)
      requires Valid() && d in dirs && nd in dirs && d != nd && 0 <= v < UPAGES
      requires PteOf(Now(), d, v).Present? && ViewOf(Now(), nd, v).None?
      modifies `mem, `free, `out
      ensures Valid() && Apart(old(Now()), Now(), nd)
      ensures ok ==> CopiedPage(old(Now()), Now(), d, nd, v) && SameKernel(old(Now()), Now(), nd)
      ensures ok <==> |old(free)| >= 1 + One(old(Ent(Now(), nd, v / NENT)).Absent?)
      ensures ok ==> |free| == |old(free)| - 1 - One(old(Ent(Now(), nd, v / NENT)).Absent?) && Tabled(old(Now()), Now(), nd, v, v + 1)
    {
      ghost var s := Now();
      AbsentIsNone(s, nd, v);
      var t := Walkpgdir(d, v, false);
      var pte := mem[t].ptes[v % NENT];
      assert pte == PteOf(s, d, v) && Held(s, Usr(d, v), pte.frame);
      var f := Kalloc();
      if f == 0 {
        return false;
      }
      assert s.out + {f} - {f} == s.out;
      ghost var s1 := Now();
      assert Keeps(s, s1, nd);
      Write(f, mem[pte.frame]);
      ghost var s2 := Now();
      KeepsChain(s, s1, s2, nd);
      assert PteOf(s2, nd, v) == PteOf(s, nd, v);
      assert Ent(s2, nd, v / NENT) == Ent(s, nd, v / NENT);
      ok := MapPage(nd, v, f, pte.flags);
      ghost var s3 := Now();
      if ok {
        TabledFrom(s, s2, s3, nd, v, v + 1);
      }
      if !ok {
        Kfree(f);
      }
      forall e | e in s.dirs && e != nd
        ensures Keeps(s, Now(), e)
      {
        assert Keeps(s, s1, e) && Keeps(s1, s2, e) && Keeps(s2, s3, e);
        KeepsChain(s, s1, s2, e);
        KeepsChain(s, s2, s3, e);
        if !ok {
          assert Keeps(s3, Now(), e);
          KeepsChain(s, s3, Now(), e);
        }
      }
      if ok {
        forall w | 0 <= w < UPAGES && w != v
          ensures ViewOf(Now(), nd, w) == ViewOf(s, nd, w)
        {
          assert ViewOf(s2, nd, w) == ViewOf(s, nd, w);
        }
        KernelChain(s, s2, Now(), nd);
      }
    }
  }

  /** Page v of nd has become a copy of page v of d. */
  ghost predicate CopiedPage(s: Vm, u: Vm, d: int, nd: int, v: int) {
    && var b, c := ViewOf(s, d, v), ViewOf(u, nd, v);
    && b.Some? && c.Some? && c.cell.flags == b.cell.flags && c.cell.page == b.cell.page
    && forall w {:trigger ViewOf(u, nd, w)} | 0 <= w < UPAGES && w != v :: ViewOf(u, nd, w) == ViewOf(s, nd, w)
  }

  /** nd has copies of the first z pages of d, and no others. */
  ghost predicate CopyOf(s: Vm, u: Vm, d: int, nd: int, z: int) {
    forall w {:trigger ViewOf(u, nd, w)} | 0 <= w < UPAGES ::
      var b, c := ViewOf(s, d, w), ViewOf(u, nd, w);
      if w < z then b.Some? && c.Some? && c.cell.flags == b.cell.flags && c.cell.page == b.cell.page else c.None?
  }

  lemma CopyStep(s: Vm, t: Vm, u: Vm, d: int, nd: int, v: int)
    requires CopyOf(s, t, d, nd, v) && SameView(s, t, d) && CopiedPage(t, u, d, nd, v) && 0 <= v < UPAGES
    ensures CopyOf(s, u, d, nd, v + 1)
  {
    forall w | 0 <= w < UPAGES
      ensures w != v ==> ViewOf(u, nd, w) == ViewOf(t, nd, w)
      ensures ViewOf(t, d, w) == ViewOf(s, d, w)
    {
    }
  }

  /** No frame of a user page of nd is a frame of a user page of another address space. */
  ghost predicate Private(u: Vm, nd: int) {
    forall e, v, w {:trigger ViewOf(u, e, v), ViewOf(u, nd, w)}
      | e in u.dirs && e != nd && 0 <= v < UPAGES && 0 <= w < UPAGES && ViewOf(u, e, v).Some? && ViewOf(u, nd, w).Some? ::
      ViewOf(u, e, v).cell.frame != ViewOf(u, nd, w).cell.frame
  }

  lemma OwnedIsPrivate(u: Vm, nd: int)
    requires Owned(u) && nd in u.dirs
    ensures Private(u, nd)
  {
    forall e, v, w | e in u.dirs && e != nd && 0 <= v < UPAGES && 0 <= w < UPAGES && ViewOf(u, e, v).Some? && ViewOf(u, nd, w).Some?
      ensures ViewOf(u, e, v).cell.frame != ViewOf(u, nd, w).cell.frame
    {
      var f := ViewOf(u, e, v).cell.frame;
      assert Held(u, Usr(e, v), f);
      assert !Held(u, Usr(nd, w), f);
    }
  }

  /** A row of kmap, in pages. */
  datatype Range = Range(v: int, n: int, frame: int, perm: int)

  predicate Covers(r: Range, w: int) {
    r.v <= w < r.v + r.n
  }

  function KernelPte(r: Range, w: int): Pte {
    Present(r.frame + w - r.v, r.perm)
  }

  /** kmap, if the kernel's data begins at that page: I/O space, text, data and free memory up to
      PHYSTOP, devices up to the top of the address space. */
  function Kmap(data: int): (r: seq<Range>)
    requires 0x80100 < data < 0x8E000
    ensures |r| == 4 && forall i | 0 <= i < 4 :: UPAGES <= r[i].v && 0 < r[i].n && r[i].v + r[i].n <= NENT * NENT
    ensures forall i, j | 0 <= i < j < 4 :: r[i].v + r[i].n <= r[j].v
  {
    [Range(0x80000, 0x100, 0, PTE_W),
     Range(0x80100, data - 0x80100, 0x100, 0),
     Range(data, 0x8E000 - data, data - 0x80000, PTE_W),
     Range(0xFE000, 0x2000, 0xFE000, PTE_W)]
  }

  /** Pages a to z - 1 of d are new and blank, the others unchanged. */
  ghost predicate Grown(s: Vm, u: Vm, d: int, a: int, z: int) {
    forall w {:trigger ViewOf(u, d, w)} | 0 <= w < UPAGES ::
      if a <= w < z then var c := ViewOf(u, d, w); c.Some? && c.cell.flags == PTE_W + PTE_U && c.cell.page == Zero()
      else ViewOf(u, d, w) == ViewOf(s, d, w)
  }

  // ---------- counting frames ----------

  /** From s to u kernel pages of directory d were mapped as r says, at the cost of the tables lacking. */
  ghost predicate Ranged(s: Vm, u: Vm, d: int, r: Range) {
    && Apart(s, u, d) && SameView(s, u, d)
    && Tabled(s, u, d, r.v, r.v + r.n) && |u.free| == |s.free| - Tabs(s, d, r.v, r.v + r.n)
    && forall w :: PteOf(u, d, w) == if Covers(r, w) then KernelPte(r, w) else PteOf(s, d, w)
  }

  lemma RangedNext(s: Vm, t: Vm, u: Vm, d: int, r: Range)
    requires 0 <= r.v && 0 <= r.n && Ranged(s, t, d, r) && Apart(t, u, d) && SameView(t, u, d)
    requires var w := r.v + r.n;
      && Tabled(t, u, d, w, w + 1) && |u.free| == |t.free| - One(Ent(t, d, w / NENT).Absent?)
      && forall x :: PteOf(u, d, x) == if x == w then Present(r.frame + r.n, r.perm) else PteOf(t, d, x)
    ensures Ranged(s, u, d, r.(n := r.n + 1))
  {
    LacksThen(s, t, d, r.v, r.v + r.n);
    TabledThen(s, t, u, d, r.v, r.v + r.n, r.v + r.n + 1);
    ApartChain(s, t, u, d);
    ViewChain(s, t, u, d);
  }

  lemma RangedShort(s: Vm, t: Vm, d: int, r: Range, n: int)
    requires 0 <= r.v && 0 <= r.n < n && Ranged(s, t, d, r) && |t.free| < One(Ent(t, d, (r.v + r.n) / NENT).Absent?)
    ensures |s.free| < Tabs(s, d, r.v, r.v + n)
  {
    LacksThen(s, t, d, r.v, r.v + r.n);
    TabsGrow(s, d, r.v, r.v + r.n + 1, r.v + n);
  }

  /** Pages a to v - 1 of d are new and blank and paid for, the others unchanged. */
  ghost predicate Grew(s: Vm, u: Vm, d: int, a: int, v: int) {
    && Apart(s, u, d) && Grown(s, u, d, a, v) && SameKernel(s, u, d)
    && Tabled(s, u, d, a, v) && |u.free| == |s.free| - Price(s, d, a, v)
  }

  /** The frames that pages a to z - 1 of directory d cost. */
  ghost function Price(s: Vm, d: int, a: int, z: int): int {
    z - a + Tabs(s, d, a, z)
  }

  lemma ViewChain(s: Vm, t: Vm, u: Vm, d: int)
    requires SameView(s, t, d) && SameView(t, u, d)
    ensures SameView(s, u, d)
  {
    forall w | 0 <= w < UPAGES
      ensures ViewOf(u, d, w) == ViewOf(s, d, w)
    {
      assert ViewOf(t, d, w) == ViewOf(s, d, w);
    }
  }

  lemma TabledSame(s: Vm, t: Vm, u: Vm, d: int, a: int, z: int)
    requires Tabled(s, t, d, a, z) && forall i :: Ent(u, d, i) == Ent(t, d, i)
    ensures Tabled(s, u, d, a, z)
  {
  }

  lemma TabledFrom(s: Vm, t: Vm, u: Vm, d: int, a: int, z: int)
    requires Keeps(s, t, d) && Tabled(t, u, d, a, z)
    ensures Tabled(s, u, d, a, z)
  {
    assert forall i :: Ent(t, d, i) == Ent(s, d, i);
  }

  /** The tables that z pages from 0 on need. */
  function TablesFor(z: int): int {
    (z + NENT - 1) / NENT
  }

  /** 56 tables for the memory up to PHYSTOP and 8 for the devices. */
  const KVM_TABLES := 64

  /** Where the first k rows of kmap end; the last is apart from the others. */
  function KernelEnd(data: int, k: int): int {
    if k == 0 then 0x80000 else if k == 1 then 0x80100 else if k == 2 then data else 0x8E000
  }

  /** Slot i has a table once k rows of kmap are mapped. */
  predicate KernelSlot(data: int, k: int, i: int) {
    UPAGES / NENT <= i <= (KernelEnd(data, k) - 1) / NENT || (k == 4 && 1016 <= i <= 1023)
  }

  function KernelTabs(data: int, k: int): int {
    (KernelEnd(data, k) - 1) / NENT - UPAGES / NENT + 1 + if k == 4 then 8 else 0
  }

  ghost predicate KernelUpTo(s: Vm, u: Vm, d: int, data: int, k: int)
    requires 0x80100 < data < 0x8E000
  {
    && Apart(s, u, d) && SameView(s, u, d) && |u.free| == |s.free| - KernelTabs(data, k)
    && (forall i {:trigger Ent(u, d, i)} :: Ent(u, d, i).Present? <==> KernelSlot(data, k, i))
    && forall w {:trigger PteOf(u, d, w)} :: PteOf(u, d, w) == KernelAt(data, k, w)
  }

  /** The kernel's entry for page w once k rows of kmap are mapped: I/O space, text, data and memory at their
      distance from KERNBASE, text read-only, and devices at their own address. */
  function KernelAt(data: int, k: int, w: int): Pte {
    if 0x80000 <= w < 0x80100 then (if k >= 1 then Present(w - 0x80000, PTE_W) else Absent)
    else if 0x80100 <= w < data then (if k >= 2 then Present(w - 0x80000, 0) else Absent)
    else if data <= w < 0x8E000 then (if k >= 3 then Present(w - 0x80000, PTE_W) else Absent)
    else if 0xFE000 <= w < 0x100000 then (if k >= 4 then Present(w, PTE_W) else Absent)
    else Absent
  }

  lemma RowPages(t: Vm, u: Vm, d: int, data: int, k: int)
    requires 0x80100 < data < 0x8E000 && 0 <= k < 4
    requires forall w {:trigger PteOf(t, d, w)} :: PteOf(t, d, w) == KernelAt(data, k, w)
    requires var r := Kmap(data)[k]; forall w :: PteOf(u, d, w) == if Covers(r, w) then KernelPte(r, w) else PteOf(t, d, w)
    ensures forall w {:trigger PteOf(u, d, w)} :: PteOf(u, d, w) == KernelAt(data, k + 1, w)
  {
    forall w
      ensures PteOf(u, d, w) == KernelAt(data, k + 1, w)
    {
      assert PteOf(t, d, w) == KernelAt(data, k, w);
    }
  }

  /** Directory d has the kernel's mappings: every page of physical memory at its distance from KERNBASE and
      the devices at their own address, all writable but the kernel's text, and nothing else up there. */
  ghost predicate KernelHalf(u: Vm, d: int, data: int) {
    && (forall w | 0x80000 <= w < 0x8E000 :: PteOf(u, d, w).Present? && PteOf(u, d, w).frame == w - 0x80000)
    && (forall w | 0xFE000 <= w < 0x100000 :: PteOf(u, d, w).Present? && PteOf(u, d, w).frame == w)
    && (forall w | UPAGES <= w && PteOf(u, d, w).Present? :: PteOf(u, d, w).flags == if 0x80100 <= w < data then 0 else PTE_W)
    && forall w | UPAGES <= w && !(0x80000 <= w < 0x8E000) && !(0xFE000 <= w < 0x100000) :: PteOf(u, d, w).Absent?
  }

  lemma AllRows(u: Vm, d: int, data: int)
    requires 0x80100 < data < 0x8E000
    requires forall w {:trigger PteOf(u, d, w)} :: PteOf(u, d, w) == KernelAt(data, 4, w)
    ensures KernelHalf(u, d, data)
  {
  }

  /** The kernel's entries of directory d are as they were. */
  ghost predicate SameKernel(s: Vm, u: Vm, d: int) {
    forall w {:trigger PteOf(u, d, w)} | UPAGES <= w :: PteOf(u, d, w) == PteOf(s, d, w)
  }

  lemma KernelChain(s: Vm, t: Vm, u: Vm, d: int)
    requires SameKernel(s, t, d) && SameKernel(t, u, d)
    ensures SameKernel(s, u, d)
  {
    forall w | UPAGES <= w
      ensures PteOf(u, d, w) == PteOf(s, d, w)
    {
      assert PteOf(t, d, w) == PteOf(s, d, w);
    }
  }

  lemma SameHalf(s: Vm, u: Vm, d: int, data: int)
    requires KernelHalf(s, d, data) && SameKernel(s, u, d)
    ensures KernelHalf(u, d, data)
  {
    forall w | UPAGES <= w
      ensures PteOf(u, d, w) == PteOf(s, d, w)
    {
    }
  }

  lemma RowTabs(t: Vm, d: int, data: int, k: int)
    requires 0x80100 < data < 0x8E000 && 0 <= k < 4
    requires forall i {:trigger Ent(t, d, i)} :: Ent(t, d, i).Present? <==> KernelSlot(data, k, i)
    ensures var r := Kmap(data)[k]; Tabs(t, d, r.v, r.v + r.n) == KernelTabs(data, k + 1) - KernelTabs(data, k)
    ensures KernelTabs(data, k + 1) <= KernelTabs(data, 4) == KVM_TABLES
  {
    var r := Kmap(data)[k];
    TabsFrom(t, d, r.v, r.v + r.n);
  }

  lemma RowSlots(t: Vm, u: Vm, d: int, data: int, k: int)
    requires 0x80100 < data < 0x8E000 && 0 <= k < 4
    requires forall i {:trigger Ent(t, d, i)} :: Ent(t, d, i).Present? <==> KernelSlot(data, k, i)
    requires var r := Kmap(data)[k]; Tabled(t, u, d, r.v, r.v + r.n)
    ensures forall i {:trigger Ent(u, d, i)} :: Ent(u, d, i).Present? <==> KernelSlot(data, k + 1, i)
  {
    forall i
      ensures Ent(u, d, i).Present? <==> KernelSlot(data, k + 1, i)
    {
      assert Ent(t, d, i).Present? <==> KernelSlot(data, k, i);
    }
  }

  /** Below the kernel a directory fresh from setupkvm has no tables. */
  lemma UserTabs(s: Vm, d: int, z: int)
    requires 0 <= z <= UPAGES && forall i | 0 <= i < UPAGES / NENT :: Ent(s, d, i).Absent?
    ensures Price(s, d, 0, z) == z + TablesFor(z)
  {
    if z > 0 {
      TabsFrom(s, d, 0, z);
    } else {
      TabledNone(s, d, 0);
    }
  }

  /** Directory nd is new, and the others are as they were. */
  ghost predicate Beside(s: Vm, u: Vm, nd: int) {
    && u.dirs == s.dirs + {nd} && u.out == s.out && |u.mem| == |s.mem| && nd !in s.dirs && nd != 0
    && forall e {:trigger Keeps(s, u, e)} | e in s.dirs :: Keeps(s, u, e)
  }

  /** copyuvm of d, from s on, has come to page v; in u it had just set up nd. */
  ghost predicate Copying(s: Vm, u: Vm, t: Vm, d: int, nd: int, v: int) {
    && Beside(s, t, nd) && CopyOf(s, t, d, nd, v) && SameKernel(u, t, nd)
    && Tabled(u, t, nd, 0, v) && |t.free| == |u.free| - Price(u, nd, 0, v)
  }
}
