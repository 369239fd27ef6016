/** What the operations on one address space do to it, and that they leave the others alone. */
module AddressSpaces {
  import opened Frames

  const PGSIZE := 4096

  /** Directory e has the same entries, tables and pages. */
  ghost predicate Keeps(s: Vm, u: Vm, e: int) {
    && (forall i {:trigger Ent(u, e, i)} :: Ent(u, e, i) == Ent(s, e, i))
    && (forall v {:trigger PteOf(u, e, v)} :: PteOf(u, e, v) == PteOf(s, e, v))
    && SameView(s, u, e)
  }

  /** Every directory but d is kept, and no frame is taken or left over. */
  ghost predicate Apart(s: Vm, u: Vm, d: int) {
    && u.lo == s.lo && |u.mem| == |s.mem| && u.dirs == s.dirs && u.out == s.out
    && forall e {:trigger Keeps(s, u, e)} | e in s.dirs && e != d :: Keeps(s, u, e)
  }

  lemma KeepsChain(s: Vm, t: Vm, u: Vm, e: int)
    requires Keeps(s, t, e) && Keeps(t, u, e)
    ensures Keeps(s, u, e)
  {
    forall i
      ensures Ent(u, e, i) == Ent(s, e, i)
    {
      assert Ent(t, e, i) == Ent(s, e, i);
    }
    forall v
      ensures PteOf(u, e, v) == PteOf(s, e, v)
    {
      assert PteOf(t, e, v) == PteOf(s, e, v);
    }
    forall v | 0 <= v < UPAGES
      ensures ViewOf(u, e, v) == ViewOf(s, e, v)
    {
      assert ViewOf(t, e, v) == ViewOf(s, e, v);
    }
  }

  lemma ApartChain(s: Vm, t: Vm, u: Vm, d: int)
    requires Apart(s, t, d) && Apart(t, u, d)
    ensures Apart(s, u, d)
  {
    forall e | e in s.dirs && e != d
      ensures Keeps(s, u, e)
    {
      KeepsChain(s, t, u, e);
    }
  }

  lemma ApartOthers(s: Vm, u: Vm, d: int)
    requires (forall e {:trigger Keeps(s, u, e)} | e in s.dirs && e != d :: Keeps(s, u, e)) && (u.dirs == s.dirs || u.dirs == s.dirs - {d})
    ensures Others(s, u, d)
  {
    forall e, i, g | e != d
      ensures Held(u, Tab(e, i), g) <==> Held(s, Tab(e, i), g)
    {
      if e in s.dirs {
        assert Keeps(s, u, e);
        assert Ent(u, e, i) == Ent(s, e, i);
      }
    }
    forall e, v, g | e != d
      ensures Held(u, Usr(e, v), g) <==> Held(s, Usr(e, v), g)
    {
      if e in s.dirs {
        assert Keeps(s, u, e);
        assert PteOf(u, e, v) == PteOf(s, e, v);
      }
    }
    assert forall e | e in s.dirs && e != d :: Keeps(s, u, e);
  }

  // ---------- kalloc, kfree and writes ----------

  function Junk(): Page {
    Data(seq(PGSIZE, _ => 1))
  }

  function Zero(): Page {
    Data(seq(PGSIZE, _ => 0))
  }

  function BlankTable(): Page {
    Table(seq(NENT, _ => Absent))
  }

  lemma AllocKeeps(s: Vm, e: int)
    requires s.free != []
    ensures Keeps(s, Alloc(s), e)
  {
    var u := Alloc(s);
    assert forall g, i :: Ent(u, g, i) == Ent(s, g, i);
    assert forall v :: PteOf(u, e, v) == PteOf(s, e, v);
  }

  lemma OutKeeps(s: Vm, u: Vm, f: int, e: int)
    requires OnceOnly(s) && f in s.out && Rewrites(s, u, f) && e in s.dirs
    ensures Keeps(s, u, e)
  {
    OutIsSpare(s, f);
    SameEntries(s, u, f, e);
    OutView(s, u, f, e);
  }

  // ---------- a new table ----------

  const TABFLAGS := 6   // PTE_W | PTE_U

  /** walkpgdir's new table for slot i. */
  function TableAdded(s: Vm, d: int, i: int): Vm
    requires s.free != [] && 0 <= s.free[0] < |s.mem| && s.free[0] != d && IsTab(s, d) && 0 <= i < NENT
  {
    var f := s.free[0];
    var t := Alloc(s);
    Linked(t.(mem := t.mem[f := BlankTable()]), d, i, f, TABFLAGS)
  }

  lemma TableAddedOk(s: Vm, d: int, i: int)
    requires Owned(s) && d in s.dirs && s.free != [] && 0 <= i < NENT && Ent(s, d, i).Absent?
    ensures 0 <= s.free[0] < |s.mem| && s.free[0] != d && IsTab(s, d)
    ensures var u := TableAdded(s, d, i);
      && Owned(u) && Apart(s, u, d) && SameView(s, u, d) && (forall v :: PteOf(u, d, v) == PteOf(s, d, v))
      && forall j :: Ent(u, d, j) == if j == i then Present(s.free[0], TABFLAGS) else Ent(s, d, j)
  {
    var f := s.free[0];
    assert Held(s, Free, f) && IsTab(s, d);
    assert !Held(s, Root, f);
    var t := Alloc(s);
    AllocOwned(s);
    assert s.out - {f} == s.out by {
      assert !Held(s, Out, f);
    }
    var w := t.(mem := t.mem[f := BlankTable()]);
    WriteOwned(t, f, BlankTable());
    AllocKeeps(s, d);
    OutKeeps(t, w, f, d);
    KeepsChain(s, t, w, d);
    assert Ent(w, d, i).Absent?;
    LinkedOwned(w, d, i, f, TABFLAGS);
    var u := Linked(w, d, i, f, TABFLAGS);
    forall e | e in s.dirs && e != d
      ensures Keeps(s, u, e)
    {
      AllocKeeps(s, e);
      OutKeeps(t, w, f, e);
      KeepsChain(s, t, w, e);
      LinkedKeeps(w, d, i, f, TABFLAGS, e);
      KeepsChain(s, w, u, e);
    }
    LinkedSelf(s, w, d, i, f);
  }

  lemma LinkedKeeps(s: Vm, d: int, i: int, f: int, flags: int, e: int)
    requires OnceOnly(s) && Shaped(s) && d in s.dirs && 0 <= i < NENT && Ent(s, d, i).Absent? && f in s.out && Blank(s, f)
    requires e in s.dirs && e != d
    ensures Keeps(s, Linked(s, d, i, f, flags), e)
  {
    var u := Linked(s, d, i, f, flags);
    forall j
      ensures Ent(u, e, j) == Ent(s, e, j)
    {
      EntAfter(s, d, i, Present(f, flags), e, j);
    }
    forall v
      ensures PteOf(u, e, v) == PteOf(s, e, v)
    {
      LinkedPtes(s, d, i, f, flags, e, v);
    }
    LinkedView(s, d, i, f, flags, e);
  }

  lemma LinkedSelf(s: Vm, w: Vm, d: int, i: int, f: int)
    requires OnceOnly(w) && Shaped(w) && d in w.dirs && 0 <= i < NENT && Ent(w, d, i).Absent? && f in w.out && Blank(w, f)
    requires Keeps(s, w, d)
    ensures var u := Linked(w, d, i, f, TABFLAGS);
      && SameView(s, u, d) && (forall v :: PteOf(u, d, v) == PteOf(s, d, v))
      && forall j :: Ent(u, d, j) == if j == i then Present(f, TABFLAGS) else Ent(s, d, j)
  {
    var u := Linked(w, d, i, f, TABFLAGS);
    forall v
      ensures PteOf(u, d, v) == PteOf(s, d, v)
    {
      LinkedPtes(w, d, i, f, TABFLAGS, d, v);
      assert PteOf(w, d, v) == PteOf(s, d, v);
    }
    forall j
      ensures Ent(u, d, j) == if j == i then Present(f, TABFLAGS) else Ent(s, d, j)
    {
      EntAfter(w, d, i, Present(f, TABFLAGS), d, j);
      assert Ent(w, d, j) == Ent(s, d, j);
    }
    LinkedView(w, d, i, f, TABFLAGS, d);
    forall v | 0 <= v < UPAGES
      ensures ViewOf(u, d, v) == ViewOf(s, d, v)
    {
      assert ViewOf(w, d, v) == ViewOf(s, d, v);
    }
  }

  // ---------- one user page more or less ----------

  lemma SetPteKeeps(s: Vm, u: Vm, d: int, v: int, x: Pte, e: int)
    requires OnceOnly(s) && Shaped(s) && HasTable(s, d, v) && IsTab(s, Ent(s, d, v / NENT).frame) && u.mem == SetPte(s, d, v, x).mem
    requires e in s.dirs && e != d
    ensures Keeps(s, u, e)
  {
    SetPteViews(s, u, d, v, x);
    assert forall g, j :: Ent(u, g, j) == Ent(SetPte(s, d, v, x), g, j);
    forall j
      ensures Ent(u, e, j) == Ent(s, e, j)
    {
      SetPteEnt(s, d, v, x, e, j);
    }
    forall w
      ensures PteOf(u, e, w) == PteOf(s, e, w)
    {
      SetPteOf(s, d, v, x, e, w);
    }
  }

  /** deallocuvm on a page that is there. */
  function PageFreed(s: Vm, d: int, v: int): Vm
    requires HasTable(s, d, v) && IsTab(s, Ent(s, d, v / NENT).frame) && PteOf(s, d, v).Present? && 0 <= PteOf(s, d, v).frame < |s.mem|
  {
    Release(Unmapped(s, d, v), PteOf(s, d, v).frame, Junk())
  }

  lemma PageFreedOk(s: Vm, d: int, v: int)
    requires Owned(s) && HasTable(s, d, v) && 0 <= v < UPAGES && PteOf(s, d, v).Present?
    ensures IsTab(s, Ent(s, d, v / NENT).frame) && 0 <= PteOf(s, d, v).frame < |s.mem|
    ensures var u := PageFreed(s, d, v);
      && Owned(u) && Apart(s, u, d) && (forall i :: Ent(u, d, i) == Ent(s, d, i))
      && (forall w :: PteOf(u, d, w) == if w == v then Absent else PteOf(s, d, w))
      && (forall w | 0 <= w < UPAGES :: ViewOf(u, d, w) == if w == v then None else ViewOf(s, d, w))
  {
    UnmappedOwned(s, d, v);
    var f := PteOf(s, d, v).frame;
    var t := Unmapped(s, d, v);
    ReleaseOwned(t, f, Junk());
    var u := PageFreed(s, d, v);
    assert u.out == s.out by {
      assert Held(s, Usr(d, v), f);
      assert !Held(s, Out, f);
    }
    forall e | e in s.dirs && e != d
      ensures Keeps(s, u, e)
    {
      SetPteKeeps(s, t, d, v, Absent, e);
      OutKeeps(t, u, f, e);
      KeepsChain(s, t, u, e);
    }
    OutKeeps(t, u, f, d);
    PageFreedSelf(s, t, u, d, v);
  }

  lemma PageFreedSelf(s: Vm, t: Vm, u: Vm, d: int, v: int)
    requires OnceOnly(s) && Shaped(s) && HasTable(s, d, v) && 0 <= v < UPAGES && PteOf(s, d, v).Present?
    requires IsTab(s, Ent(s, d, v / NENT).frame) && t == Unmapped(s, d, v) && Keeps(t, u, d)
    ensures forall i :: Ent(u, d, i) == Ent(s, d, i)
    ensures forall w :: PteOf(u, d, w) == if w == v then Absent else PteOf(s, d, w)
    ensures forall w | 0 <= w < UPAGES :: ViewOf(u, d, w) == if w == v then None else ViewOf(s, d, w)
  {
    assert forall g, j :: Ent(t, g, j) == Ent(SetPte(s, d, v, Absent), g, j);
    forall i
      ensures Ent(u, d, i) == Ent(s, d, i)
    {
      SetPteEnt(s, d, v, Absent, d, i);
      assert Ent(u, d, i) == Ent(t, d, i);
    }
    forall w
      ensures PteOf(u, d, w) == if w == v then Absent else PteOf(s, d, w)
    {
      UnmappedPte(s, d, v, d, w);
      assert PteOf(u, d, w) == PteOf(t, d, w);
    }
    SetPteViews(s, t, d, v, Absent);
    forall w | 0 <= w < UPAGES
      ensures ViewOf(u, d, w) == if w == v then None else ViewOf(s, d, w)
    {
      assert ViewOf(u, d, w) == ViewOf(t, d, w);
    }
  }

  lemma MappedOk(s: Vm, d: int, v: int, f: int, flags: int)
    requires Owned(s) && HasTable(s, d, v) && 0 <= v < UPAGES && PteOf(s, d, v).Absent? && f in s.out && 0 <= f < |s.mem|
    ensures IsTab(s, Ent(s, d, v / NENT).frame)
    ensures var u := Mapped(s, d, v, f, flags);
      && Owned(u) && (forall e | e in s.dirs && e != d :: Keeps(s, u, e)) && (forall i :: Ent(u, d, i) == Ent(s, d, i))
      && (forall w :: PteOf(u, d, w) == if w == v then Present(f, flags) else PteOf(s, d, w))
      && (forall w | 0 <= w < UPAGES :: ViewOf(u, d, w) == if w == v then Some(Cell(f, flags, s.mem[f])) else ViewOf(s, d, w))
  {
    MappedOwned(s, d, v, f, flags);
    var u := Mapped(s, d, v, f, flags);
    forall e | e in s.dirs && e != d
      ensures Keeps(s, u, e)
    {
      SetPteKeeps(s, u, d, v, Present(f, flags), e);
    }
    assert forall g, j :: Ent(u, g, j) == Ent(SetPte(s, d, v, Present(f, flags)), g, j);
    forall i
      ensures Ent(u, d, i) == Ent(s, d, i)
    {
      SetPteEnt(s, d, v, Present(f, flags), d, i);
    }
    forall w
      ensures PteOf(u, d, w) == if w == v then Present(f, flags) else PteOf(s, d, w)
    {
      MappedPte(s, d, v, f, flags, d, w);
    }
  }

  lemma KernelOk(s: Vm, d: int, v: int, x: Pte)
    requires Owned(s) && HasTable(s, d, v) && UPAGES <= v
    ensures IsTab(s, Ent(s, d, v / NENT).frame)
    ensures var u := SetPte(s, d, v, x);
      && Owned(u) && Apart(s, u, d) && SameView(s, u, d) && (forall i :: Ent(u, d, i) == Ent(s, d, i))
      && forall w :: PteOf(u, d, w) == if w == v then x else PteOf(s, d, w)
  {
    KernelOwned(s, d, v, x);
    var u := SetPte(s, d, v, x);
    forall e | e in s.dirs && e != d
      ensures Keeps(s, u, e)
    {
      SetPteKeeps(s, u, d, v, x, e);
    }
    forall i
      ensures Ent(u, d, i) == Ent(s, d, i)
    {
      SetPteEnt(s, d, v, x, d, i);
    }
    forall w
      ensures PteOf(u, d, w) == if w == v then x else PteOf(s, d, w)
    {
      SetPteOf(s, d, v, x, d, w);
    }
  }

  lemma AbsentIsNone(s: Vm, d: int, v: int)
    requires Owned(s) && d in s.dirs && 0 <= v < UPAGES
    ensures PteOf(s, d, v).Absent? <==> ViewOf(s, d, v).None?
  {
    if PteOf(s, d, v).Present? {
      assert Held(s, Usr(d, v), PteOf(s, d, v).frame);
    }
  }

  /** With every directory kept and nothing else taken, the same frames are free. */
  lemma KeepsSameFree(s: Vm, u: Vm)
    requires Owned(s) && Owned(u) && u.lo == s.lo && |u.mem| == |s.mem| && u.dirs == s.dirs && u.out == s.out
    requires forall e {:trigger Keeps(s, u, e)} | e in s.dirs :: Keeps(s, u, e)
    ensures forall f :: f in u.free <==> f in s.free
  {
    forall e, i, g
      ensures Held(u, Tab(e, i), g) <==> Held(s, Tab(e, i), g)
    {
      if e in s.dirs {
        assert Keeps(s, u, e);
        assert Ent(u, e, i) == Ent(s, e, i);
      }
    }
    forall e, v, g
      ensures Held(u, Usr(e, v), g) <==> Held(s, Usr(e, v), g)
    {
      if e in s.dirs {
        assert Keeps(s, u, e);
        assert PteOf(u, e, v) == PteOf(s, e, v);
      }
    }
    forall f
      ensures f in u.free <==> f in s.free
    {
      SameFree(s, u, f);
    }
  }

  // ---------- freevm ----------

  /** The tables of d in slots i and up. */
  ghost function TablesFrom(s: Vm, d: int, i: int): (r: set<int>)
    ensures forall f :: f in r <==> exists j :: i <= j < NENT && 0 <= j && Ent(s, d, j).Present? && Ent(s, d, j).frame == f
  {
    set j | i <= j < NENT && 0 <= j && Ent(s, d, j).Present? :: Ent(s, d, j).frame
  }

  lemma TablesNext(s: Vm, d: int, i: int)
    requires OnceOnly(s) && d in s.dirs && 0 <= i < NENT
    ensures Ent(s, d, i).Absent? ==> TablesFrom(s, d, i) == TablesFrom(s, d, i + 1)
    ensures Ent(s, d, i).Present? ==> TablesFrom(s, d, i) == TablesFrom(s, d, i + 1) + {Ent(s, d, i).frame}
    ensures Ent(s, d, i).Present? ==> Ent(s, d, i).frame !in TablesFrom(s, d, i + 1) && Ent(s, d, i).frame != d && Ent(s, d, i).frame !in s.out
  {
    if Ent(s, d, i).Present? {
      var f := Ent(s, d, i).frame;
      forall j | i + 1 <= j < NENT && Ent(s, d, j).Present?
        ensures Ent(s, d, j).frame != f
      {
        TableIsOnce(s, d, i, d, j);
      }
      TableIsOnce(s, d, i, d, i);
      assert Held(s, Tab(d, i), f) && !Held(s, Out, f);
    }
  }

  lemma RetiredKeeps(s: Vm, d: int, e: int)
    requires Owned(s) && d in s.dirs && e in s.dirs && e != d && NoUser(s, d)
    ensures Keeps(s, Retired(s, d), e)
  {
    var u := Retired(s, d);
    assert forall g, i :: Ent(u, g, i) == Ent(s, g, i);
    assert forall v :: PteOf(u, e, v) == PteOf(s, e, v);
  }

  lemma RootedKeeps(s: Vm, f: int, e: int)
    ensures Keeps(s, Rooted(s, f), e)
  {
    var u := Rooted(s, f);
    assert forall g, i :: Ent(u, g, i) == Ent(s, g, i);
    assert forall v :: PteOf(u, e, v) == PteOf(s, e, v);
  }
}
