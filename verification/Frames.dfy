/** Physical frames and two-level page tables: who holds each frame, and what moving one changes. */
module Frames {

  /** Entries in a page directory or table. */
  const NENT := 1024

  /** Virtual pages below KERNBASE. */
  const UPAGES := 524288

  datatype Pte = Absent | Present(frame: int, flags: int)

  /** What a frame holds: bytes, or page-table entries. */
  datatype Page = Data(bytes: seq<int>) | Table(ptes: seq<Pte>)

  /** Frames from lo up are kalloc's.  dirs are the page directories in use; out are the frames that
      kalloc has handed out for anything else. */
  datatype Vm = Vm(mem: seq<Page>, lo: int, free: seq<int>, dirs: set<int>, out: set<int>)

  predicate IsTab(s: Vm, f: int) {
    0 <= f < |s.mem| && s.mem[f].Table? && |s.mem[f].ptes| == NENT
  }

  function Ent(s: Vm, f: int, i: int): Pte {
    if IsTab(s, f) && 0 <= i < NENT then s.mem[f].ptes[i] else Absent
  }

  /** The entry for virtual page v. */
  function PteOf(s: Vm, d: int, v: int): Pte {
    var p := Ent(s, d, v / NENT);
    if p.Present? then Ent(s, p.frame, v % NENT) else Absent
  }

  // ---------- who holds a frame ----------

  datatype Pos = Free | Out | Root | Tab(d: int, i: int) | Usr(d: int, v: int)

  ghost predicate Held(s: Vm, p: Pos, f: int) {
    match p
    case Free => f in s.free
    case Out => f in s.out
    case Root => f in s.dirs
    case Tab(d, i) => d in s.dirs && 0 <= i < NENT && Ent(s, d, i).Present? && Ent(s, d, i).frame == f
    case Usr(d, v) => d in s.dirs && 0 <= v < UPAGES && PteOf(s, d, v).Present? && PteOf(s, d, v).frame == f
  }

  ghost predicate NoDup(q: seq<int>) {
    forall i, j | 0 <= i < j < |q| :: q[i] != q[j]
  }

  ghost predicate InRange(s: Vm) {
    0 <= s.lo && forall p, f | Held(s, p, f) :: s.lo <= f < |s.mem|
  }

  ghost predicate OnceOnly(s: Vm) {
    forall p, q, f | Held(s, p, f) && Held(s, q, f) :: p == q
  }

  ghost predicate NoLeak(s: Vm) {
    forall f {:trigger Somewhere(s, f)} | s.lo <= f < |s.mem| :: Somewhere(s, f)
  }

  ghost predicate Somewhere(s: Vm, f: int) {
    exists p :: Held(s, p, f)
  }

  /** Directories and their tables are tables. */
  ghost predicate Shaped(s: Vm) {
    && (forall d | d in s.dirs :: IsTab(s, d))
    && (forall d, i {:trigger Ent(s, d, i)} | d in s.dirs && Ent(s, d, i).Present? :: IsTab(s, Ent(s, d, i).frame))
  }

  /** Every frame of kalloc's is in exactly one place. */
  ghost predicate Owned(s: Vm) {
    NoDup(s.free) && InRange(s) && OnceOnly(s) && NoLeak(s) && Shaped(s)
  }

  // ---------- a frame changes hands ----------

  /** f goes from p to q and nothing else moves. */
  ghost predicate Moves(s: Vm, u: Vm, f: int, p: Pos, q: Pos) {
    && u.lo == s.lo && |u.mem| == |s.mem| && Held(s, p, f)
    && forall r, g {:trigger Held(u, r, g)} :: Held(u, r, g) <==> if g == f then r == q else Held(s, r, g)
  }

  lemma MovesOwned(s: Vm, u: Vm, f: int, p: Pos, q: Pos)
    requires Owned(s) && Moves(s, u, f, p, q) && NoDup(u.free) && Shaped(u)
    ensures Owned(u)
  {
    assert Held(u, q, f);
    forall g | u.lo <= g < |u.mem|
      ensures Somewhere(u, g)
    {
      if g != f {
        assert Somewhere(s, g);
        var r :| Held(s, r, g);
        assert Held(u, r, g);
      }
    }
  }

  /** Frames that no directory uses as itself or as a table. */
  ghost predicate Spare(s: Vm, f: int) {
    f !in s.dirs && forall d, i {:trigger Ent(s, d, i)} | d in s.dirs && Ent(s, d, i).Present? :: Ent(s, d, i).frame != f
  }

  lemma OutIsSpare(s: Vm, f: int)
    requires OnceOnly(s) && f in s.out
    ensures Spare(s, f) && f !in s.free
  {
    assert Held(s, Out, f);
    assert !Held(s, Root, f) && !Held(s, Free, f);
    forall d, i | d in s.dirs && Ent(s, d, i).Present?
      ensures Ent(s, d, i).frame != f
    {
      assert !Held(s, Tab(d, i), f);
    }
  }

  /** Only frame f's contents change. */
  predicate Rewrites(s: Vm, u: Vm, f: int) {
    u.lo == s.lo && |u.mem| == |s.mem| && forall g {:trigger u.mem[g]} | 0 <= g < |s.mem| && g != f :: u.mem[g] == s.mem[g]
  }

  lemma SameEntries(s: Vm, u: Vm, f: int, d: int)
    requires Spare(s, f) && Rewrites(s, u, f) && d in s.dirs
    ensures forall i :: Ent(u, d, i) == Ent(s, d, i)
    ensures forall v :: PteOf(u, d, v) == PteOf(s, d, v)
  {
    assert d != f;
    assert forall g, i | g != f :: Ent(u, g, i) == Ent(s, g, i);
    forall v
      ensures PteOf(u, d, v) == PteOf(s, d, v)
    {
      var p := Ent(s, d, v / NENT);
      assert p.Present? ==> p.frame != f;
    }
  }

  lemma SameShape(s: Vm, u: Vm, f: int)
    requires Spare(s, f) && Rewrites(s, u, f) && u.dirs == s.dirs && Shaped(s)
    ensures Shaped(u)
  {
    forall d | d in u.dirs
      ensures IsTab(u, d)
    {
      assert d != f && IsTab(s, d);
    }
    forall d, i | d in u.dirs && Ent(u, d, i).Present?
      ensures IsTab(u, Ent(u, d, i).frame)
    {
      SameEntries(s, u, f, d);
      assert IsTab(s, Ent(s, d, i).frame);
    }
  }

  /** Rewriting a spare frame moves nothing. */
  lemma SameHeld(s: Vm, u: Vm, f: int, p: Pos, g: int)
    requires Spare(s, f) && Rewrites(s, u, f) && u.dirs == s.dirs && (p.Tab? || p.Usr? || p.Root?)
    ensures Held(u, p, g) <==> Held(s, p, g)
  {
    match p
    case Tab(d, i) => if d in s.dirs { SameEntries(s, u, f, d); }
    case Usr(d, v) => if d in s.dirs { SameEntries(s, u, f, d); }
    case Root =>
  }

  // ---------- views ----------

  /** User page v of directory d: its frame, flags and contents. */
  datatype Cell = Cell(frame: int, flags: int, page: Page)
  datatype View = None | Some(cell: Cell)

  function ViewOf(s: Vm, d: int, v: int): View {
    var p := PteOf(s, d, v);
    if p.Present? && 0 <= p.frame < |s.mem| then Some(Cell(p.frame, p.flags, s.mem[p.frame])) else None
  }

  /** Directory d looks the same to its user. */
  ghost predicate SameView(s: Vm, u: Vm, d: int) {
    forall v {:trigger ViewOf(u, d, v)} | 0 <= v < UPAGES :: ViewOf(u, d, v) == ViewOf(s, d, v)
  }

  lemma SpareView(s: Vm, u: Vm, f: int, d: int)
    requires Spare(s, f) && Rewrites(s, u, f) && d in s.dirs
    requires forall v {:trigger PteOf(s, d, v)} | 0 <= v < UPAGES && PteOf(s, d, v).Present? :: PteOf(s, d, v).frame != f
    ensures SameView(s, u, d)
  {
    SameEntries(s, u, f, d);
  }

  /** No user page is in a frame that is held elsewhere. */
  lemma NotMapped(s: Vm, p: Pos, f: int, d: int, v: int)
    requires OnceOnly(s) && Held(s, p, f) && !p.Usr? && d in s.dirs && 0 <= v < UPAGES && PteOf(s, d, v).Present?
    ensures PteOf(s, d, v).frame != f
  {
    assert !Held(s, Usr(d, v), f);
  }

  // ---------- kalloc and kfree ----------

  function Alloc(s: Vm): Vm
    requires s.free != []
  {
    s.(free := s.free[1..], out := s.out + {s.free[0]})
  }

  function Release(s: Vm, f: int, junk: Page): Vm
    requires 0 <= f < |s.mem|
  {
    s.(mem := s.mem[f := junk], free := [f] + s.free, out := s.out - {f})
  }

  lemma AllocOwned(s: Vm)
    requires Owned(s) && s.free != []
    ensures Owned(Alloc(s)) && Moves(s, Alloc(s), s.free[0], Free, Out)
  {
    var u, f := Alloc(s), s.free[0];
    assert Held(s, Free, f);
    assert f !in u.free;
    forall r, g
      ensures Held(u, r, g) <==> if g == f then r == Out else Held(s, r, g)
    {
      SameTables(s, u, r, g);
      if g == f {
        assert Held(s, r, g) ==> r == Free;
      }
    }
    assert Moves(s, u, f, Free, Out);
    assert Shaped(u) by {
      assert forall d, i :: Ent(u, d, i) == Ent(s, d, i);
    }
    MovesOwned(s, u, f, Free, Out);
  }

  /** Memory and directories decide where tables and user pages are. */
  lemma SameTables(s: Vm, u: Vm, p: Pos, g: int)
    requires u.mem == s.mem && u.dirs == s.dirs
    ensures p.Tab? || p.Usr? || p.Root? ==> (Held(u, p, g) <==> Held(s, p, g))
    ensures forall d, i :: Ent(u, d, i) == Ent(s, d, i)
  {
    assert forall d, i :: Ent(u, d, i) == Ent(s, d, i);
    if p.Usr? {
      assert PteOf(u, p.d, p.v) == PteOf(s, p.d, p.v);
    }
  }

  lemma ReleaseOwned(s: Vm, f: int, junk: Page)
    requires Owned(s) && f in s.out && 0 <= f < |s.mem|
    ensures Owned(Release(s, f, junk)) && Moves(s, Release(s, f, junk), f, Out, Free)
    ensures forall d | d in s.dirs :: SameView(s, Release(s, f, junk), d)
  {
    var u := Release(s, f, junk);
    OutIsSpare(s, f);
    assert Held(s, Out, f);
    forall r, g
      ensures Held(u, r, g) <==> if g == f then r == Free else Held(s, r, g)
    {
      if r.Tab? || r.Usr? || r.Root? {
        SameHeld(s, u, f, r, g);
      }
      if g == f {
        assert Held(s, r, g) ==> r == Out;
      }
    }
    SameShape(s, u, f);
    MovesOwned(s, u, f, Out, Free);
    forall d | d in s.dirs
      ensures SameView(s, u, d)
    {
      OutView(s, u, f, d);
    }
  }

  /** Writing into a frame that is out shows in no address space. */
  lemma OutView(s: Vm, u: Vm, f: int, d: int)
    requires OnceOnly(s) && f in s.out && Rewrites(s, u, f) && d in s.dirs
    ensures SameView(s, u, d)
  {
    OutIsSpare(s, f);
    forall v | 0 <= v < UPAGES && PteOf(s, d, v).Present?
      ensures PteOf(s, d, v).frame != f
    {
      NotMapped(s, Out, f, d, v);
    }
    SpareView(s, u, f, d);
  }

  lemma WriteOwned(s: Vm, f: int, page: Page)
    requires Owned(s) && f in s.out && 0 <= f < |s.mem|
    ensures var u := s.(mem := s.mem[f := page]);
      Owned(u) && (forall r, g {:trigger Held(u, r, g)} :: Held(u, r, g) <==> Held(s, r, g)) && forall d | d in s.dirs :: SameView(s, u, d)
  {
    var u := s.(mem := s.mem[f := page]);
    OutIsSpare(s, f);
    assert Held(s, Out, f);
    forall r, g
      ensures Held(u, r, g) <==> Held(s, r, g)
    {
      if r.Tab? || r.Usr? || r.Root? {
        SameHeld(s, u, f, r, g);
      }
    }
    SameShape(s, u, f);
    SameOwned(s, u);
    forall d | d in s.dirs
      ensures SameView(s, u, d)
    {
      OutView(s, u, f, d);
    }
  }

  lemma SameOwned(s: Vm, u: Vm)
    requires Owned(s) && u.lo == s.lo && |u.mem| == |s.mem| && u.free == s.free && Shaped(u)
    requires forall r, g {:trigger Held(u, r, g)} :: Held(u, r, g) <==> Held(s, r, g)
    ensures Owned(u)
  {
    forall g | u.lo <= g < |u.mem|
      ensures Somewhere(u, g)
    {
      assert Somewhere(s, g);
      var r :| Held(s, r, g);
      assert Held(u, r, g);
    }
  }

  // ---------- entries ----------

  function SetEnt(s: Vm, t: int, i: int, e: Pte): Vm
    requires IsTab(s, t) && 0 <= i < NENT
  {
    s.(mem := s.mem[t := Table(s.mem[t].ptes[i := e])])
  }

  lemma EntAfter(s: Vm, t: int, i: int, e: Pte, g: int, j: int)
    requires IsTab(s, t) && 0 <= i < NENT
    ensures Ent(SetEnt(s, t, i, e), g, j) == if g == t && j == i then e else Ent(s, g, j)
    ensures IsTab(SetEnt(s, t, i, e), g) <==> IsTab(s, g)
  {
  }

  /** A directory is nobody's table, and a table serves one slot of one directory. */
  lemma TableIsOnce(s: Vm, d: int, i: int, e: int, j: int)
    requires OnceOnly(s) && d in s.dirs && Ent(s, d, i).Present? && e in s.dirs
    ensures Ent(s, d, i).frame != e
    ensures Ent(s, e, j).Present? && Ent(s, e, j).frame == Ent(s, d, i).frame ==> e == d && j == i
  {
    var f := Ent(s, d, i).frame;
    assert Held(s, Tab(d, i), f);
    assert !Held(s, Root, f);
    if Ent(s, e, j).Present? && Ent(s, e, j).frame == f {
      assert Held(s, Tab(e, j), f);
    }
  }

  predicate Blank(s: Vm, f: int) {
    IsTab(s, f) && forall i | 0 <= i < NENT :: s.mem[f].ptes[i].Absent?
  }

  /** walkpgdir makes the blank frame f the table for slot i. */
  function Linked(s: Vm, d: int, i: int, f: int, flags: int): Vm
    requires IsTab(s, d) && 0 <= i < NENT
  {
    SetEnt(s, d, i, Present(f, flags)).(out := s.out - {f})
  }

  lemma LinkedPtes(s: Vm, d: int, i: int, f: int, flags: int, e: int, v: int)
    requires OnceOnly(s) && Shaped(s) && d in s.dirs && 0 <= i < NENT && Ent(s, d, i).Absent? && f in s.out && Blank(s, f) && e in s.dirs
    ensures PteOf(Linked(s, d, i, f, flags), e, v) == PteOf(s, e, v)
  {
    var u := Linked(s, d, i, f, flags);
    OutIsSpare(s, f);
    EntAfter(s, d, i, Present(f, flags), e, v / NENT);
    if e == d && v / NENT == i {
      EntAfter(s, d, i, Present(f, flags), f, v % NENT);
    } else if Ent(s, e, v / NENT).Present? {
      TableIsOnce(s, e, v / NENT, d, i);
      EntAfter(s, d, i, Present(f, flags), Ent(s, e, v / NENT).frame, v % NENT);
    }
  }

  lemma LinkedHeld(s: Vm, d: int, i: int, f: int, flags: int, r: Pos, g: int)
    requires OnceOnly(s) && Shaped(s) && d in s.dirs && 0 <= i < NENT && Ent(s, d, i).Absent? && f in s.out && Blank(s, f)
    ensures Held(Linked(s, d, i, f, flags), r, g) <==> if g == f then r == Tab(d, i) else Held(s, r, g)
  {
    assert Held(s, Out, f);
    assert Held(s, r, f) ==> r == Out;
    match r
    case Tab(e, j) => EntAfter(s, d, i, Present(f, flags), e, j);
    case Usr(e, v) => if e in s.dirs { LinkedPtes(s, d, i, f, flags, e, v); }
    case Free =>
    case Out =>
    case Root =>
  }

  lemma LinkedOwned(s: Vm, d: int, i: int, f: int, flags: int)
    requires Owned(s) && d in s.dirs && 0 <= i < NENT && Ent(s, d, i).Absent? && f in s.out && Blank(s, f)
    ensures var u := Linked(s, d, i, f, flags);
      Owned(u) && Moves(s, u, f, Out, Tab(d, i)) && forall e | e in s.dirs :: SameView(s, u, e)
  {
    var u := Linked(s, d, i, f, flags);
    assert Held(s, Out, f);
    forall r, g
      ensures Held(u, r, g) <==> if g == f then r == Tab(d, i) else Held(s, r, g)
    {
      LinkedHeld(s, d, i, f, flags, r, g);
    }
    forall e, j
      ensures Ent(u, e, j) == if e == d && j == i then Present(f, flags) else Ent(s, e, j)
      ensures IsTab(u, e) <==> IsTab(s, e)
    {
      EntAfter(s, d, i, Present(f, flags), e, j);
    }
    MovesOwned(s, u, f, Out, Tab(d, i));
    forall e | e in s.dirs
      ensures SameView(s, u, e)
    {
      LinkedView(s, d, i, f, flags, e);
    }
  }

  lemma LinkedView(s: Vm, d: int, i: int, f: int, flags: int, e: int)
    requires OnceOnly(s) && Shaped(s) && d in s.dirs && 0 <= i < NENT && Ent(s, d, i).Absent? && f in s.out && Blank(s, f) && e in s.dirs
    ensures SameView(s, Linked(s, d, i, f, flags), e)
  {
    var u := Linked(s, d, i, f, flags);
    assert Held(s, Root, d);
    forall v | 0 <= v < UPAGES
      ensures ViewOf(u, e, v) == ViewOf(s, e, v)
    {
      LinkedPtes(s, d, i, f, flags, e, v);
      if PteOf(s, e, v).Present? {
        NotMapped(s, Root, d, e, v);
      }
    }
  }

  /** setupkvm makes the blank frame f a directory. */
  function Rooted(s: Vm, f: int): Vm {
    s.(dirs := s.dirs + {f}, out := s.out - {f})
  }

  lemma RootedOwned(s: Vm, f: int)
    requires Owned(s) && f in s.out && Blank(s, f)
    ensures Owned(Rooted(s, f)) && Moves(s, Rooted(s, f), f, Out, Root)
    ensures forall d | d in s.dirs :: SameView(s, Rooted(s, f), d)
    ensures forall v :: PteOf(Rooted(s, f), f, v).Absent?
  {
    var u := Rooted(s, f);
    assert forall e, j :: Ent(u, e, j) == Ent(s, e, j);
    assert forall j :: Ent(u, f, j).Absent?;
    assert Held(s, Out, f);
    forall r, g
      ensures Held(u, r, g) <==> if g == f then r == Root else Held(s, r, g)
    {
      assert Held(s, r, f) ==> r == Out;
      if r.Usr? {
        assert PteOf(u, r.d, r.v) == PteOf(s, r.d, r.v);
      }
    }
    assert Shaped(u);
    MovesOwned(s, u, f, Out, Root);
  }

  // ---------- mapping and unmapping ----------

  predicate HasTable(s: Vm, d: int, v: int) {
    d in s.dirs && 0 <= v < NENT * NENT && Ent(s, d, v / NENT).Present?
  }

  /** Write the entry for page v. */
  function SetPte(s: Vm, d: int, v: int, x: Pte): Vm
    requires HasTable(s, d, v) && IsTab(s, Ent(s, d, v / NENT).frame)
  {
    SetEnt(s, Ent(s, d, v / NENT).frame, v % NENT, x)
  }

  lemma SetPteEnt(s: Vm, d: int, v: int, x: Pte, e: int, j: int)
    requires OnceOnly(s) && Shaped(s) && HasTable(s, d, v) && e in s.dirs
    ensures IsTab(s, Ent(s, d, v / NENT).frame) && Ent(SetPte(s, d, v, x), e, j) == Ent(s, e, j)
  {
    assert IsTab(s, Ent(s, d, v / NENT).frame);
    TableIsOnce(s, d, v / NENT, e, j);
    EntAfter(s, Ent(s, d, v / NENT).frame, v % NENT, x, e, j);
  }

  lemma SetPteOf(s: Vm, d: int, v: int, x: Pte, e: int, w: int)
    requires OnceOnly(s) && Shaped(s) && HasTable(s, d, v) && e in s.dirs
    ensures IsTab(s, Ent(s, d, v / NENT).frame) && PteOf(SetPte(s, d, v, x), e, w) == if e == d && w == v then x else PteOf(s, e, w)
  {
    var t := Ent(s, d, v / NENT).frame;
    SetPteEnt(s, d, v, x, e, w / NENT);
    var p := Ent(s, e, w / NENT);
    if p.Present? {
      EntAfter(s, t, v % NENT, x, p.frame, w % NENT);
      TableIsOnce(s, d, v / NENT, e, w / NENT);
      if p.frame == t && w % NENT == v % NENT {
        assert w == w / NENT * NENT + w % NENT && v == v / NENT * NENT + v % NENT;
      }
    }
  }

  lemma SetPteShaped(s: Vm, d: int, v: int, x: Pte)
    requires OnceOnly(s) && Shaped(s) && HasTable(s, d, v)
    ensures IsTab(s, Ent(s, d, v / NENT).frame) && Shaped(SetPte(s, d, v, x))
  {
    var t := Ent(s, d, v / NENT).frame;
    assert IsTab(s, t);
    var u := SetPte(s, d, v, x);
    forall e, j | e in s.dirs
      ensures IsTab(u, e) && Ent(u, e, j) == Ent(s, e, j) && (Ent(u, e, j).Present? ==> IsTab(u, Ent(u, e, j).frame))
    {
      SetPteEnt(s, d, v, x, e, j);
      EntAfter(s, t, v % NENT, x, e, j);
      if Ent(s, e, j).Present? {
        EntAfter(s, t, v % NENT, x, Ent(s, e, j).frame, 0);
      }
    }
  }

  /** mappages gives frame f to user page v. */
  function Mapped(s: Vm, d: int, v: int, f: int, flags: int): Vm
    requires HasTable(s, d, v) && IsTab(s, Ent(s, d, v / NENT).frame)
  {
    SetPte(s, d, v, Present(f, flags)).(out := s.out - {f})
  }

  /** Only page v of d looks different. */
  ghost predicate OnlyPage(s: Vm, u: Vm, d: int, v: int) {
    forall e, w {:trigger ViewOf(u, e, w)} | e in s.dirs && 0 <= w < UPAGES && (e != d || w != v) :: ViewOf(u, e, w) == ViewOf(s, e, w)
  }

  lemma MappedHeld(s: Vm, d: int, v: int, f: int, flags: int, r: Pos, g: int)
    requires OnceOnly(s) && Shaped(s) && HasTable(s, d, v) && 0 <= v < UPAGES && PteOf(s, d, v).Absent? && f in s.out
    ensures IsTab(s, Ent(s, d, v / NENT).frame)
    ensures Held(Mapped(s, d, v, f, flags), r, g) <==> if g == f then r == Usr(d, v) else Held(s, r, g)
  {
    assert Held(s, Out, f);
    assert Held(s, r, f) ==> r == Out;
    SetPteOf(s, d, v, Present(f, flags), d, v);
    match r
    case Tab(e, j) => if e in s.dirs { SetPteEnt(s, d, v, Present(f, flags), e, j); }
    case Usr(e, w) => if e in s.dirs { MappedPte(s, d, v, f, flags, e, w); }
    case Free =>
    case Out =>
    case Root =>
  }

  lemma MappedPte(s: Vm, d: int, v: int, f: int, flags: int, e: int, w: int)
    requires OnceOnly(s) && Shaped(s) && HasTable(s, d, v) && e in s.dirs
    ensures IsTab(s, Ent(s, d, v / NENT).frame)
    ensures PteOf(Mapped(s, d, v, f, flags), e, w) == if e == d && w == v then Present(f, flags) else PteOf(s, e, w)
  {
    SetPteOf(s, d, v, Present(f, flags), e, w);
    var u := SetPte(s, d, v, Present(f, flags));
    assert forall g, j :: Ent(Mapped(s, d, v, f, flags), g, j) == Ent(u, g, j);
  }

  /** Writing a table changes no user page's contents. */
  lemma SetPteViews(s: Vm, u: Vm, d: int, v: int, x: Pte)
    requires OnceOnly(s) && Shaped(s) && HasTable(s, d, v) && IsTab(s, Ent(s, d, v / NENT).frame) && u.mem == SetPte(s, d, v, x).mem
    ensures OnlyPage(s, u, d, v)
  {
    var t := Ent(s, d, v / NENT).frame;
    assert Held(s, Tab(d, v / NENT), t);
    forall e, w | e in s.dirs && 0 <= w < UPAGES && (e != d || w != v)
      ensures ViewOf(u, e, w) == ViewOf(s, e, w)
    {
      SetPteOf(s, d, v, x, e, w);
      assert forall g, j :: Ent(u, g, j) == Ent(SetPte(s, d, v, x), g, j);
      assert PteOf(u, e, w) == PteOf(s, e, w);
      if PteOf(s, e, w).Present? {
        NotMapped(s, Tab(d, v / NENT), t, e, w);
      }
    }
  }

  lemma MappedOwned(s: Vm, d: int, v: int, f: int, flags: int)
    requires Owned(s) && HasTable(s, d, v) && 0 <= v < UPAGES && PteOf(s, d, v).Absent? && f in s.out && 0 <= f < |s.mem|
    ensures IsTab(s, Ent(s, d, v / NENT).frame)
    ensures var u := Mapped(s, d, v, f, flags);
      Owned(u) && Moves(s, u, f, Out, Usr(d, v)) && OnlyPage(s, u, d, v) && ViewOf(u, d, v) == Some(Cell(f, flags, s.mem[f]))
  {
    SetPteShaped(s, d, v, Present(f, flags));
    var u := Mapped(s, d, v, f, flags);
    assert Held(s, Out, f);
    forall r, g
      ensures Held(u, r, g) <==> if g == f then r == Usr(d, v) else Held(s, r, g)
    {
      MappedHeld(s, d, v, f, flags, r, g);
    }
    ShapeOf(SetPte(s, d, v, Present(f, flags)), u);
    MovesOwned(s, u, f, Out, Usr(d, v));
    SetPteViews(s, u, d, v, Present(f, flags));
    MappedPte(s, d, v, f, flags, d, v);
    assert !Held(s, Tab(d, v / NENT), f);
  }

  lemma ShapeOf(s: Vm, u: Vm)
    requires Shaped(s) && u.mem == s.mem && u.dirs == s.dirs
    ensures Shaped(u)
  {
    assert forall d, i :: Ent(u, d, i) == Ent(s, d, i);
  }

  /** deallocuvm takes the frame of user page v back. */
  function Unmapped(s: Vm, d: int, v: int): Vm
    requires HasTable(s, d, v) && IsTab(s, Ent(s, d, v / NENT).frame) && PteOf(s, d, v).Present?
  {
    SetPte(s, d, v, Absent).(out := s.out + {PteOf(s, d, v).frame})
  }

  lemma UnmappedHeld(s: Vm, d: int, v: int, r: Pos, g: int)
    requires OnceOnly(s) && Shaped(s) && HasTable(s, d, v) && 0 <= v < UPAGES && PteOf(s, d, v).Present?
    ensures IsTab(s, Ent(s, d, v / NENT).frame)
    ensures Held(Unmapped(s, d, v), r, g) <==> if g == PteOf(s, d, v).frame then r == Out else Held(s, r, g)
  {
    var f := PteOf(s, d, v).frame;
    assert Held(s, Usr(d, v), f);
    assert Held(s, r, f) ==> r == Usr(d, v);
    SetPteOf(s, d, v, Absent, d, v);
    match r
    case Tab(e, j) => if e in s.dirs { SetPteEnt(s, d, v, Absent, e, j); }
    case Usr(e, w) => if e in s.dirs { UnmappedPte(s, d, v, e, w); }
    case Free =>
    case Out =>
    case Root =>
  }

  lemma UnmappedPte(s: Vm, d: int, v: int, e: int, w: int)
    requires OnceOnly(s) && Shaped(s) && HasTable(s, d, v) && e in s.dirs && PteOf(s, d, v).Present?
    ensures IsTab(s, Ent(s, d, v / NENT).frame)
    ensures PteOf(Unmapped(s, d, v), e, w) == if e == d && w == v then Absent else PteOf(s, e, w)
  {
    SetPteOf(s, d, v, Absent, e, w);
    assert forall g, j :: Ent(Unmapped(s, d, v), g, j) == Ent(SetPte(s, d, v, Absent), g, j);
  }

  lemma UnmappedOwned(s: Vm, d: int, v: int)
    requires Owned(s) && HasTable(s, d, v) && 0 <= v < UPAGES && PteOf(s, d, v).Present?
    ensures IsTab(s, Ent(s, d, v / NENT).frame)
    ensures var u := Unmapped(s, d, v);
      && Owned(u) && Moves(s, u, PteOf(s, d, v).frame, Usr(d, v), Out) && OnlyPage(s, u, d, v) && ViewOf(u, d, v).None?
      && s.lo <= PteOf(s, d, v).frame < |s.mem|
  {
    SetPteShaped(s, d, v, Absent);
    var u, f := Unmapped(s, d, v), PteOf(s, d, v).frame;
    assert Held(s, Usr(d, v), f);
    forall r, g
      ensures Held(u, r, g) <==> if g == f then r == Out else Held(s, r, g)
    {
      UnmappedHeld(s, d, v, r, g);
    }
    ShapeOf(SetPte(s, d, v, Absent), u);
    MovesOwned(s, u, f, Usr(d, v), Out);
    SetPteViews(s, u, d, v, Absent);
    UnmappedPte(s, d, v, d, v);
  }

  /** mappages on a kernel page, whose frame nobody owns through this entry. */
  lemma KernelOwned(s: Vm, d: int, v: int, x: Pte)
    requires Owned(s) && HasTable(s, d, v) && UPAGES <= v
    ensures IsTab(s, Ent(s, d, v / NENT).frame)
    ensures var u := SetPte(s, d, v, x);
      && Owned(u) && (forall r, g {:trigger Held(u, r, g)} :: Held(u, r, g) <==> Held(s, r, g))
      && forall e | e in s.dirs :: SameView(s, u, e)
  {
    SetPteShaped(s, d, v, x);
    var u := SetPte(s, d, v, x);
    forall r, g
      ensures Held(u, r, g) <==> Held(s, r, g)
    {
      match r
      case Tab(e, j) => if e in s.dirs { SetPteEnt(s, d, v, x, e, j); }
      case Usr(e, w) => if e in s.dirs { SetPteOf(s, d, v, x, e, w); }
      case Free =>
      case Out =>
      case Root =>
    }
    SameOwned(s, u);
    SetPteViews(s, u, d, v, x);
  }

  // ---------- giving a directory up ----------

  ghost function Tables(s: Vm, d: int): (r: set<int>)
    ensures forall i | 0 <= i < NENT && Ent(s, d, i).Present? :: Ent(s, d, i).frame in r
    ensures forall f | f in r :: exists i :: 0 <= i < NENT && Ent(s, d, i).Present? && Ent(s, d, i).frame == f
  {
    set i | 0 <= i < NENT && Ent(s, d, i).Present? :: Ent(s, d, i).frame
  }

  /** freevm is about to free d and its tables: they are nobody's any more. */
  ghost function Retired(s: Vm, d: int): Vm {
    s.(dirs := s.dirs - {d}, out := s.out + {d} + Tables(s, d))
  }

  ghost predicate NoUser(s: Vm, d: int) {
    forall v {:trigger PteOf(s, d, v)} | 0 <= v < UPAGES :: PteOf(s, d, v).Absent?
  }

  lemma RetiredHeld(s: Vm, d: int, r: Pos, g: int)
    requires d in s.dirs
    ensures var u := Retired(s, d);
      match r
      case Free => Held(u, r, g) <==> Held(s, r, g)
      case Out => Held(u, r, g) <==> (Held(s, r, g) || g == d || exists i :: Held(s, Tab(d, i), g))
      case Root => Held(u, r, g) <==> Held(s, r, g) && g != d
      case Tab(e, i) => Held(u, r, g) <==> Held(s, r, g) && e != d
      case Usr(e, v) => Held(u, r, g) <==> Held(s, r, g) && e != d
  {
    var u := Retired(s, d);
    assert forall e, i :: Ent(u, e, i) == Ent(s, e, i);
    if r.Out? && g in Tables(s, d) {
      var i :| 0 <= i < NENT && Ent(s, d, i).Present? && Ent(s, d, i).frame == g;
      assert Held(s, Tab(d, i), g);
    }
  }

  lemma RetiredOwned(s: Vm, d: int)
    requires Owned(s) && d in s.dirs && NoUser(s, d)
    ensures Owned(Retired(s, d))
    ensures forall e | e in s.dirs && e != d :: SameView(s, Retired(s, d), e)
  {
    var u := Retired(s, d);
    assert forall e, i :: Ent(u, e, i) == Ent(s, e, i);
    forall p, f | Held(u, p, f)
      ensures s.lo <= f < |s.mem|
    {
      var _ := RetiredFrom(s, d, p, f);
    }
    forall p, q, f | Held(u, p, f) && Held(u, q, f)
      ensures p == q
    {
      RetiredOnce(s, d, p, q, f);
    }
    forall f | u.lo <= f < |u.mem|
      ensures Somewhere(u, f)
    {
      assert Somewhere(s, f);
      var r :| Held(s, r, f);
      RetiredHeld(s, d, r, f);
      RetiredHeld(s, d, Out, f);
      assert Held(u, r, f) || Held(u, Out, f);
    }
    forall e | e in s.dirs && e != d
      ensures SameView(s, u, e)
    {
      forall v
        ensures ViewOf(u, e, v) == ViewOf(s, e, v)
      {
        assert PteOf(u, e, v) == PteOf(s, e, v);
      }
    }
  }

  /** Whatever is held afterwards was held before. */
  lemma RetiredFrom(s: Vm, d: int, p: Pos, f: int) returns (q: Pos)
    requires d in s.dirs && Held(Retired(s, d), p, f)
    ensures Held(s, q, f) && (q == p || (p.Out? && (q.Root? || (q.Tab? && q.d == d))))
    ensures q.Root? && p.Out? ==> f == d
  {
    RetiredHeld(s, d, p, f);
    if p.Out? && !Held(s, Out, f) {
      if f == d {
        q := Root;
      } else {
        var i :| Held(s, Tab(d, i), f);
        q := Tab(d, i);
      }
    } else {
      q := p;
    }
  }

  lemma RetiredOnce(s: Vm, d: int, p: Pos, q: Pos, f: int)
    requires OnceOnly(s) && d in s.dirs && Held(Retired(s, d), p, f) && Held(Retired(s, d), q, f)
    ensures p == q
  {
    RetiredHeld(s, d, p, f);
    RetiredHeld(s, d, q, f);
    var p1 := RetiredFrom(s, d, p, f);
    var q1 := RetiredFrom(s, d, q, f);
    assert p1 == q1;
  }

  // ---------- what one address space's operations leave alone ----------

  /** Tables and user pages of directories other than d are where they were. */
  ghost predicate Others(s: Vm, u: Vm, d: int) {
    && (forall e, i, g {:trigger Held(u, Tab(e, i), g)} | e != d :: Held(u, Tab(e, i), g) <==> Held(s, Tab(e, i), g))
    && (forall e, v, g {:trigger Held(u, Usr(e, v), g)} | e != d :: Held(u, Usr(e, v), g) <==> Held(s, Usr(e, v), g))
    && forall e | e in s.dirs && e != d :: SameView(s, u, e)
  }

  /** f belongs to directory d. */
  ghost predicate BelongsTo(s: Vm, d: int, f: int) {
    f == d || (exists i :: Held(s, Tab(d, i), f)) || exists v :: Held(s, Usr(d, v), f)
  }

  /** Once d is gone and the rest is as it was, d's frames, and no others, have become free. */
  lemma FreedExactly(s: Vm, u: Vm, d: int, f: int)
    requires Owned(s) && Owned(u) && d in s.dirs && u.lo == s.lo && |u.mem| == |s.mem|
    requires u.dirs == s.dirs - {d} && u.out == s.out && Others(s, u, d)
    ensures f in u.free <==> f in s.free || BelongsTo(s, d, f)
  {
    if f in u.free {
      assert Held(u, Free, f);
      assert Somewhere(s, f);
      var r :| Held(s, r, f);
      match r
      case Tab(e, i) => assert e == d || Held(u, r, f);
      case Usr(e, v) => assert e == d || Held(u, r, f);
      case Out => assert Held(u, Out, f);
      case Root => assert f == d || Held(u, Root, f);
      case Free =>
    } else if s.lo <= f < |s.mem| {
      assert Somewhere(u, f);
      var r :| Held(u, r, f);
      NotOfD(s, u, d, f, r);
    } else {
      OutOfRange(s, d, f);
    }
  }

  lemma NotOfD(s: Vm, u: Vm, d: int, f: int, r: Pos)
    requires Owned(s) && d in s.dirs && u.dirs == s.dirs - {d} && u.out == s.out && Others(s, u, d) && Held(u, r, f) && !r.Free?
    ensures f !in s.free && !BelongsTo(s, d, f)
  {
    assert r.Tab? || r.Usr? ==> r.d in u.dirs;
    assert Held(s, r, f);
    assert !Held(s, Free, f);
    if r.Root? {
      assert f != d;
    } else {
      assert !Held(s, Root, f);
    }
    forall i
      ensures !Held(s, Tab(d, i), f)
    {
    }
    forall v
      ensures !Held(s, Usr(d, v), f)
    {
    }
  }

  lemma OutOfRange(s: Vm, d: int, f: int)
    requires Owned(s) && d in s.dirs && !(s.lo <= f < |s.mem|)
    ensures f !in s.free && !BelongsTo(s, d, f)
  {
    assert !Held(s, Free, f) && !Held(s, Root, f);
  }

  /** If everything else is where it was, so are the free frames. */
  lemma SameFree(s: Vm, u: Vm, f: int)
    requires Owned(s) && Owned(u) && u.lo == s.lo && |u.mem| == |s.mem| && u.dirs == s.dirs && u.out == s.out
    requires forall e, i, g {:trigger Held(u, Tab(e, i), g)} :: Held(u, Tab(e, i), g) <==> Held(s, Tab(e, i), g)
    requires forall e, v, g {:trigger Held(u, Usr(e, v), g)} :: Held(u, Usr(e, v), g) <==> Held(s, Usr(e, v), g)
    ensures f in u.free <==> f in s.free
  {
    if f in u.free {
      assert Held(u, Free, f);
      assert Somewhere(s, f);
      var r :| Held(s, r, f);
      assert !r.Free? ==> Held(u, r, f);
    }
    if f in s.free {
      assert Held(s, Free, f);
      assert Somewhere(u, f);
      var r :| Held(u, r, f);
      assert !r.Free? ==> Held(s, r, f);
    }
  }
}
