/** The heap of umalloc.c as values.  Addresses and sizes are in units of sizeof(Header); `mem` holds the
    header words of every unit obtained so far and of `base`; `free` are the addresses on the free list,
    base included; `live` gives the size of every block handed out. */
module FreeList {

  datatype Header = Header(ptr: int, size: int)

  datatype Heap = Heap(base: int, mem: map<int, Header>, free: set<int>, live: map<int, int>, brk: int)
  {
    function Size(a: int): int
      requires a in mem
    {
      mem[a].size
    }

    function Ptr(a: int): int
      requires a in mem
    {
      mem[a].ptr
    }
  }

  /** n follows a round the cycle of s in address order: the next address up, or base after the last. */
  ghost predicate Follows(s: set<int>, base: int, a: int, n: int) {
    && n in s
    && if n > a then forall x | x in s :: x <= a || n <= x else n == base && forall x | x in s :: x <= a
  }

  ghost predicate InPlace(h: Heap) {
    && h.base in h.free
    && (forall a | a in h.free :: a in h.mem && h.base <= a < h.brk)
    && h.Size(h.base) == 0
    && (forall a | a in h.free && a != h.base :: 1 <= h.Size(a) && a + h.Size(a) <= h.brk)
  }

  /** The free list is one cycle in address order; the link of a loose entry need not be right. */
  ghost predicate Cycle(h: Heap, loose: set<int>) {
    InPlace(h) && forall a {:trigger h.Ptr(a)} | a in h.free && a !in loose :: Follows(h.free, h.base, a, h.Ptr(a))
  }

  /** Free blocks do not overlap, and do not touch either unless the lower one is loose. */
  ghost predicate Spaced(h: Heap, loose: set<int>) {
    InPlace(h) && forall a, b | a in h.free && b in h.free && a < b ::
      a + h.Size(a) <= b && (a + h.Size(a) == b ==> a in loose)
  }

  ghost predicate ListOk(h: Heap, loose: set<int>) {
    Cycle(h, loose) && Spaced(h, loose)
  }

  predicate Apart(a: int, m: int, b: int, n: int) {
    a + m <= b || b + n <= a
  }

  /** Live blocks keep their size word and overlap neither each other nor a free block. */
  ghost predicate LiveOk(h: Heap)
    requires forall a | a in h.free :: a in h.mem
  {
    && (forall a | a in h.live :: h.base < a && 1 <= h.live[a] && a + h.live[a] <= h.brk)
    && (forall a | a in h.live :: a in h.mem && h.mem[a].size == h.live[a])
    && (forall a, b | a in h.live && b in h.live && a != b :: Apart(a, h.live[a], b, h.live[b]))
    && (forall a, b | a in h.live && b in h.free && b != h.base :: Apart(a, h.live[a], b, h.Size(b)))
  }

  ghost predicate InLive(h: Heap, u: int) {
    exists a :: a in h.live && a <= u < a + h.live[a]
  }

  ghost predicate InFree(h: Heap, u: int)
    requires forall a | a in h.free :: a in h.mem
  {
    exists a :: a in h.free && a <= u < a + h.Size(a)
  }

  /** Nothing is lost and nothing invented: the units obtained are exactly those of the free and the
      live blocks. */
  ghost predicate Covered(h: Heap)
    requires forall a | a in h.free :: a in h.mem
  {
    forall u {:trigger InFree(h, u)} {:trigger InLive(h, u)} :: u in h.mem && u != h.base <==> InFree(h, u) || InLive(h, u)
  }

  ghost predicate Almost(h: Heap, loose: set<int>) {
    ListOk(h, loose) && LiveOk(h) && Covered(h)
  }

  ghost predicate Ok(h: Heap) {
    Almost(h, {})
  }

  // ---------- free ----------

  /** p is the list entry below bp, its link the entry above (or base). */
  ghost predicate Place(h: Heap, p: int, bp: int)
    requires ListOk(h, {})
  {
    && p in h.free && p < bp && (h.Ptr(p) <= p || bp < h.Ptr(p))
  }

  /** A block of n units at bp fits into the free list right after p. */
  ghost predicate Fits(h: Heap, p: int, bp: int, n: int)
    requires ListOk(h, {})
  {
    && p in h.free && p < bp && bp !in h.free && 1 <= n && bp + n <= h.brk
    && (forall x | x in h.free && x < bp :: x <= p && x + h.Size(x) <= bp)
    && (forall x | x in h.free && bp < x :: p < h.Ptr(p) <= x && bp + n <= x)
  }

  lemma LiveFits(h: Heap, p: int, bp: int)
    requires Ok(h) && bp in h.live && Place(h, p, bp)
    ensures Fits(h, p, bp, h.live[bp])
  {
  }

  /** First half of free, when bp does not touch the block above: it is linked to what p was. */
  ghost function LinkAbove(h: Heap, p: int, bp: int): Heap
    requires p in h.mem && bp in h.mem
  {
    h.(mem := h.mem[bp := Header(h.Ptr(p), h.Size(bp))], free := h.free + {bp}, live := h.live - {bp})
  }

  lemma LinkAboveCycle(h: Heap, p: int, bp: int)
    requires ListOk(h, {}) && bp in h.mem && Fits(h, p, bp, h.Size(bp))
    ensures Cycle(LinkAbove(h, p, bp), {p})
  {
    var g := LinkAbove(h, p, bp);
    forall a | a in g.free && a != p
      ensures Follows(g.free, g.base, a, g.Ptr(a))
    {
      if a != bp {
        assert Follows(h.free, h.base, a, h.Ptr(a));
      } else {
        assert Follows(h.free, h.base, p, h.Ptr(p));
      }
    }
  }

  lemma LinkAboveSpaced(h: Heap, p: int, bp: int)
    requires ListOk(h, {}) && bp in h.mem && Fits(h, p, bp, h.Size(bp)) && bp + h.Size(bp) != h.Ptr(p)
    ensures Spaced(LinkAbove(h, p, bp), {p})
  {
    var g := LinkAbove(h, p, bp);
    forall a, b | a in g.free && b in g.free && a < b
      ensures a + g.Size(a) <= b && (a + g.Size(a) == b ==> a in {p})
    {
      if a == bp {
        assert h.Ptr(p) <= b;
      } else if b == bp {
        if a != p {
          assert a + h.Size(a) <= p;
        }
      }
    }
  }

  lemma UnliveOk(h: Heap, g: Heap, bp: int)
    requires (forall a | a in h.free :: a in h.mem) && LiveOk(h) && bp in h.live && bp !in h.free
    requires g.base == h.base && g.brk == h.brk && g.free == h.free + {bp} && g.live == h.live - {bp}
    requires bp in g.mem && g.mem == h.mem[bp := g.mem[bp]] && g.mem[bp].size == h.mem[bp].size
    ensures LiveOk(g)
  {
  }

  /** The units of one live block move to the free side. */
  lemma UnliveUnits(h: Heap, g: Heap, bp: int)
    requires (forall a | a in h.free :: a in h.mem) && Covered(h) && bp in h.live && bp !in h.free
    requires g.base == h.base && g.free == h.free + {bp} && g.live == h.live - {bp}
    requires bp in h.mem && bp in g.mem && g.mem == h.mem[bp := g.mem[bp]] && g.mem[bp].size == h.live[bp]
    ensures Covered(g)
  {
    forall u
      ensures InFree(g, u) || InLive(g, u) <==> InFree(h, u) || InLive(h, u)
    {
      if InFree(h, u) {
        var a :| a in h.free && a <= u < a + h.Size(a);
        assert a in g.free;
      }
      if InLive(h, u) {
        var a :| a in h.live && a <= u < a + h.live[a];
        assert a == bp || a in g.live;
        assert a == bp ==> a in g.free;
      }
      if InFree(g, u) {
        var a :| a in g.free && a <= u < a + g.Size(a);
        assert a == bp ==> a in h.live;
      }
      if InLive(g, u) {
        var a :| a in g.live && a <= u < a + g.live[a];
        assert a in h.live;
      }
    }
  }

  lemma LinkAboveOk(h: Heap, p: int, bp: int)
    requires Ok(h) && bp in h.live && Place(h, p, bp) && bp + h.live[bp] != h.Ptr(p)
    ensures Almost(LinkAbove(h, p, bp), {p})
  {
    LiveFits(h, p, bp);
    LinkAboveCycle(h, p, bp);
    LinkAboveSpaced(h, p, bp);
    UnliveOk(h, LinkAbove(h, p, bp), bp);
    UnliveUnits(h, LinkAbove(h, p, bp), bp);
  }

  /** First half of free, when bp touches the block n above: bp swallows n. */
  ghost function JoinAbove(h: Heap, n: int, bp: int): Heap
    requires n in h.mem && bp in h.mem
  {
    h.(mem := h.mem[bp := Header(h.Ptr(n), h.Size(bp) + h.Size(n))], free := h.free - {n} + {bp}, live := h.live - {bp})
  }

  /** Entry n is replaced by bp, just below it: only what precedes n is affected. */
  lemma Moved(s: set<int>, base: int, p: int, n: int, bp: int, a: int, m: int)
    requires p in s && n in s && p < bp < n && (forall x | x in s :: x <= p || n <= x) && (forall x | x in s :: base <= x)
    requires base in s && a in s && a != p && Follows(s, base, a, m)
    ensures Follows(s - {n} + {bp}, base, if a == n then bp else a, m)
  {
  }

  lemma JoinAbovePlace(h: Heap, p: int, n: int, bp: int)
    requires InPlace(h) && bp in h.mem && bp !in h.free && n in h.free && n != h.base && h.base <= p < bp && 1 <= h.Size(bp) && bp + h.Size(bp) == n
    ensures InPlace(JoinAbove(h, n, bp))
  {
    var g := JoinAbove(h, n, bp);
    assert forall a | a in g.free && a != bp :: g.Size(a) == h.Size(a);
  }

  lemma JoinAboveCycle(h: Heap, p: int, bp: int)
    requires ListOk(h, {}) && bp in h.mem && Fits(h, p, bp, h.Size(bp)) && bp + h.Size(bp) == h.Ptr(p)
    ensures h.Ptr(p) in h.mem && Cycle(JoinAbove(h, h.Ptr(p), bp), {p})
  {
    var n := h.Ptr(p);
    assert Follows(h.free, h.base, p, n);
    JoinAbovePlace(h, p, n, bp);
    var g := JoinAbove(h, n, bp);
    forall a | a in g.free && a != p
      ensures Follows(g.free, g.base, a, g.Ptr(a))
    {
      var o := if a == bp then n else a;
      assert g.Ptr(a) == h.Ptr(o) && Follows(h.free, h.base, o, h.Ptr(o));
      Moved(h.free, h.base, p, n, bp, o, h.Ptr(o));
    }
  }

  lemma JoinAboveSpaced(h: Heap, p: int, bp: int)
    requires ListOk(h, {}) && bp in h.mem && Fits(h, p, bp, h.Size(bp)) && bp + h.Size(bp) == h.Ptr(p)
    requires h.Ptr(p) in h.mem
    ensures Spaced(JoinAbove(h, h.Ptr(p), bp), {p})
  {
    var n := h.Ptr(p);
    assert Follows(h.free, h.base, p, n);
    var g := JoinAbove(h, n, bp);
    forall a, b | a in g.free && b in g.free && a < b
      ensures a + g.Size(a) <= b && (a + g.Size(a) == b ==> a in {p})
    {
      if a == bp {
        assert n + h.Size(n) <= b;
      } else if b == bp && a != p {
        assert a + h.Size(a) <= p;
      }
    }
  }

  lemma JoinAboveLive(h: Heap, n: int, bp: int)
    requires (forall a | a in h.free :: a in h.mem) && LiveOk(h)
    requires bp in h.live && bp !in h.free && n in h.free && n != h.base && bp + h.live[bp] == n && 0 <= h.Size(n)
    ensures LiveOk(JoinAbove(h, n, bp))
  {
    var g := JoinAbove(h, n, bp);
    forall a, b | a in g.live && b in g.free && b != g.base
      ensures Apart(a, g.live[a], b, g.Size(b))
    {
      if b == bp {
        assert Apart(a, h.live[a], bp, h.live[bp]) && Apart(a, h.live[a], n, h.Size(n));
      } else {
        assert Apart(a, h.live[a], b, h.Size(b));
      }
    }
  }

  lemma JoinAboveUnits(h: Heap, n: int, bp: int)
    requires (forall a | a in h.free :: a in h.mem) && Covered(h)
    requires bp in h.live && bp in h.mem && h.Size(bp) == h.live[bp] && bp !in h.free && n in h.free
    requires bp + h.live[bp] == n && 0 <= h.Size(n) && 0 <= h.live[bp]
    ensures Covered(JoinAbove(h, n, bp))
  {
    var g := JoinAbove(h, n, bp);
    forall u
      ensures InFree(g, u) || InLive(g, u) <==> InFree(h, u) || InLive(h, u)
    {
      JoinAboveUnit(h, n, bp, u);
    }
  }

  lemma JoinAboveUnit(h: Heap, n: int, bp: int, u: int)
    requires (forall a | a in h.free :: a in h.mem)
    requires bp in h.live && bp in h.mem && h.Size(bp) == h.live[bp] && bp !in h.free && n in h.free
    requires bp + h.live[bp] == n && 0 <= h.Size(n) && 0 <= h.live[bp]
    ensures var g := JoinAbove(h, n, bp);
      (forall a | a in g.free :: a in g.mem) && (InFree(g, u) || InLive(g, u) <==> InFree(h, u) || InLive(h, u))
  {
    var g := JoinAbove(h, n, bp);
    if InFree(h, u) {
      var a :| a in h.free && a <= u < a + h.Size(a);
      var b := if a == n then bp else a;
      assert b in g.free && b <= u < b + g.Size(b);
    }
    if InLive(h, u) {
      var a :| a in h.live && a <= u < a + h.live[a];
      assert if a == bp then a in g.free && a <= u < a + g.Size(a) else a in g.live && a <= u < a + g.live[a];
    }
    if InFree(g, u) {
      var a :| a in g.free && a <= u < a + g.Size(a);
      assert if a != bp then a in h.free && a <= u < a + h.Size(a)
             else if u < n then a in h.live && a <= u < a + h.live[a] else n in h.free && n <= u < n + h.Size(n);
    }
    if InLive(g, u) {
      var a :| a in g.live && a <= u < a + g.live[a];
      assert a in h.live && a <= u < a + h.live[a];
    }
  }

  lemma JoinAboveOk(h: Heap, p: int, bp: int)
    requires Ok(h) && bp in h.live && Place(h, p, bp) && bp + h.live[bp] == h.Ptr(p)
    ensures h.Ptr(p) in h.mem && Almost(JoinAbove(h, h.Ptr(p), bp), {p})
  {
    LiveFits(h, p, bp);
    JoinAboveCycle(h, p, bp);
    JoinAboveSpaced(h, p, bp);
    assert Follows(h.free, h.base, p, h.Ptr(p));
    JoinAboveLive(h, h.Ptr(p), bp);
    JoinAboveUnits(h, h.Ptr(p), bp);
  }

  /** p and bp are neighbours on the list. */
  ghost predicate Adjacent(g: Heap, p: int, bp: int) {
    p in g.free && bp in g.free && p < bp && forall x | x in g.free :: x <= p || bp <= x
  }

  lemma NowAdjacent(h: Heap, p: int, bp: int)
    requires ListOk(h, {}) && bp in h.mem && Fits(h, p, bp, h.Size(bp))
    ensures Adjacent(LinkAbove(h, p, bp), p, bp)
    ensures h.Ptr(p) in h.mem && bp + h.Size(bp) == h.Ptr(p) ==> Adjacent(JoinAbove(h, h.Ptr(p), bp), p, bp)
  {
  }

  /** Second half of free, when bp does not touch p: p is linked to it. */
  ghost function LinkBelow(g: Heap, p: int, bp: int): Heap
    requires p in g.mem
  {
    g.(mem := g.mem[p := Header(bp, g.Size(p))])
  }

  lemma SameSizes(g: Heap, f: Heap)
    requires (forall a | a in g.free :: a in g.mem) && LiveOk(g) && Covered(g)
    requires f.base == g.base && f.brk == g.brk && f.free == g.free && f.live == g.live && f.mem.Keys == g.mem.Keys
    requires forall a | a in g.mem && (a in g.free || a in g.live) :: f.mem[a].size == g.mem[a].size
    ensures LiveOk(f) && Covered(f)
  {
    forall u
      ensures InFree(f, u) || InLive(f, u) <==> InFree(g, u) || InLive(g, u)
    {
      if InFree(g, u) {
        var a :| a in g.free && a <= u < a + g.Size(a);
        assert a in f.free && a <= u < a + f.Size(a);
      }
      if InFree(f, u) {
        var a :| a in f.free && a <= u < a + f.Size(a);
        assert a in g.free && a <= u < a + g.Size(a);
      }
      assert InLive(f, u) <==> InLive(g, u);
    }
  }

  lemma LinkBelowOk(g: Heap, p: int, bp: int)
    requires Almost(g, {p}) && Adjacent(g, p, bp) && p + g.Size(p) != bp
    ensures Ok(LinkBelow(g, p, bp))
  {
    LinkBelowCycle(g, p, bp);
    LinkBelowSpaced(g, p, bp);
    SameSizes(g, LinkBelow(g, p, bp));
  }

  lemma LinkBelowSpaced(g: Heap, p: int, bp: int)
    requires Spaced(g, {p}) && Adjacent(g, p, bp) && p + g.Size(p) != bp
    ensures Spaced(LinkBelow(g, p, bp), {})
  {
    var f := LinkBelow(g, p, bp);
    forall a, b | a in f.free && b in f.free && a < b
      ensures a + f.Size(a) <= b && a + f.Size(a) != b
    {
      if a == p && b != bp {
        assert bp <= b && p + g.Size(p) <= bp;
      }
    }
  }

  lemma LinkBelowPlace(g: Heap, p: int, bp: int)
    requires InPlace(g) && p in g.free
    ensures InPlace(LinkBelow(g, p, bp))
  {
    var f := LinkBelow(g, p, bp);
    assert forall a | a in g.free :: f.Size(a) == g.Size(a);
  }

  lemma LinkBelowCycle(g: Heap, p: int, bp: int)
    requires Cycle(g, {p}) && Adjacent(g, p, bp)
    ensures Cycle(LinkBelow(g, p, bp), {})
  {
    LinkBelowPlace(g, p, bp);
    var f := LinkBelow(g, p, bp);
    forall a | a in f.free
      ensures Follows(f.free, f.base, a, f.Ptr(a))
    {
      if a != p {
        assert Follows(g.free, g.base, a, g.Ptr(a)) && f.Ptr(a) == g.Ptr(a);
      }
    }
  }

  /** Second half of free, when bp touches p: p swallows bp. */
  ghost function JoinBelow(g: Heap, p: int, bp: int): Heap
    requires p in g.mem && bp in g.mem
  {
    g.(mem := g.mem[p := Header(g.Ptr(bp), g.Size(p) + g.Size(bp))], free := g.free - {bp})
  }

  /** Entry q leaves the cycle: its predecessor p now precedes what q preceded, and nothing else changes. */
  lemma Unlinked(s: set<int>, base: int, p: int, q: int, a: int, n: int)
    requires p in s && q in s && p < q && (forall x | x in s :: x <= p || q <= x) && (forall x | x in s :: base <= x)
    requires base in s && a in s && a != p && Follows(s, base, a, n)
    ensures Follows(s - {q}, base, if a == q then p else a, n)
  {
  }

  lemma JoinBelowPlace(g: Heap, p: int, bp: int)
    requires InPlace(g) && p in g.free && bp in g.free && g.base <= p < bp && p != g.base && p + g.Size(p) == bp
    ensures InPlace(JoinBelow(g, p, bp))
  {
    var f := JoinBelow(g, p, bp);
    assert forall a | a in f.free && a != p :: f.Size(a) == g.Size(a);
  }

  lemma JoinBelowCycle(g: Heap, p: int, bp: int)
    requires Cycle(g, {p}) && Spaced(g, {p}) && Adjacent(g, p, bp) && p + g.Size(p) == bp
    ensures Cycle(JoinBelow(g, p, bp), {})
  {
    JoinBelowPlace(g, p, bp);
    var f := JoinBelow(g, p, bp);
    forall a | a in f.free
      ensures Follows(f.free, f.base, a, f.Ptr(a))
    {
      var o := if a == p then bp else a;
      assert f.Ptr(a) == g.Ptr(o) && Follows(g.free, g.base, o, g.Ptr(o));
      Unlinked(g.free, g.base, p, bp, o, g.Ptr(o));
    }
  }

  lemma JoinBelowSpaced(g: Heap, p: int, bp: int)
    requires Cycle(g, {p}) && Spaced(g, {p}) && Adjacent(g, p, bp) && p + g.Size(p) == bp
    ensures Spaced(JoinBelow(g, p, bp), {})
  {
    var f := JoinBelow(g, p, bp);
    forall a, b | a in f.free && b in f.free && a < b
      ensures a + f.Size(a) <= b && a + f.Size(a) != b
    {
      if a == p {
        assert bp + g.Size(bp) <= b && bp + g.Size(bp) != b;
      }
    }
  }

  lemma JoinBelowLive(g: Heap, p: int, bp: int)
    requires (forall a | a in g.free :: a in g.mem) && LiveOk(g)
    requires p in g.free && bp in g.free && p != g.base && bp != g.base && p + g.Size(p) == bp && p < bp && 0 <= g.Size(bp)
    ensures LiveOk(JoinBelow(g, p, bp))
  {
    assert p !in g.live;
  }

  lemma JoinBelowUnits(g: Heap, p: int, bp: int)
    requires (forall a | a in g.free :: a in g.mem) && Covered(g)
    requires p in g.free && bp in g.free && p + g.Size(p) == bp && p < bp && 0 <= g.Size(bp)
    ensures Covered(JoinBelow(g, p, bp))
  {
    var f := JoinBelow(g, p, bp);
    forall u
      ensures InFree(f, u) || InLive(f, u) <==> InFree(g, u) || InLive(g, u)
    {
      if InFree(g, u) {
        var a :| a in g.free && a <= u < a + g.Size(a);
        var b := if a == bp then p else a;
        assert b in f.free && b <= u < b + f.Size(b);
      }
      if InFree(f, u) {
        var a :| a in f.free && a <= u < a + f.Size(a);
        var b := if a == p && u >= bp then bp else a;
        assert b in g.free && b <= u < b + g.Size(b);
      }
      assert InLive(f, u) <==> InLive(g, u);
    }
  }

  lemma JoinBelowOk(g: Heap, p: int, bp: int)
    requires Almost(g, {p}) && Adjacent(g, p, bp) && p + g.Size(p) == bp
    ensures Ok(JoinBelow(g, p, bp))
  {
    JoinBelowCycle(g, p, bp);
    JoinBelowSpaced(g, p, bp);
    JoinBelowLive(g, p, bp);
    JoinBelowUnits(g, p, bp);
  }

  // ---------- malloc and morecore ----------

  lemma SameLinks(h: Heap, g: Heap)
    requires Cycle(h, {}) && InPlace(g) && g.free == h.free && g.base == h.base
    requires forall a | a in h.free :: g.mem[a].ptr == h.mem[a].ptr
    ensures Cycle(g, {})
  {
    forall a | a in g.free
      ensures Follows(g.free, g.base, a, g.Ptr(a))
    {
      assert Follows(h.free, h.base, a, h.Ptr(a));
    }
  }

  lemma FewerUnits(h: Heap, g: Heap)
    requires Spaced(h, {}) && InPlace(g) && g.free <= h.free
    requires forall a | a in g.free :: g.Size(a) <= h.Size(a)
    ensures Spaced(g, {})
  {
    forall a, b | a in g.free && b in g.free && a < b
      ensures a + g.Size(a) <= b && a + g.Size(a) != b
    {
      assert a + h.Size(a) <= b && a + h.Size(a) != b;
    }
  }

  /** The block at p leaves the list whole. */
  ghost function TakeWhole(h: Heap, prevp: int, p: int): Heap
    requires prevp in h.mem && p in h.mem
  {
    h.(mem := h.mem[prevp := Header(h.Ptr(p), h.Size(prevp))], free := h.free - {p}, live := h.live[p := h.Size(p)])
  }

  lemma TakeWholePlace(h: Heap, prevp: int, p: int)
    requires InPlace(h) && prevp in h.free && p in h.free && p != h.base && prevp != p
    ensures InPlace(TakeWhole(h, prevp, p))
  {
    var g := TakeWhole(h, prevp, p);
    assert forall a | a in g.free :: g.Size(a) == h.Size(a);
  }

  lemma TakeWholeCycle(h: Heap, prevp: int, p: int)
    requires Cycle(h, {}) && prevp in h.free && p == h.Ptr(prevp) && p != h.base && p in h.free
    ensures prevp != p && Cycle(TakeWhole(h, prevp, p), {})
  {
    assert Follows(h.free, h.base, prevp, p);
    TakeWholePlace(h, prevp, p);
    var g := TakeWhole(h, prevp, p);
    forall a | a in g.free
      ensures Follows(g.free, g.base, a, g.Ptr(a))
    {
      var o := if a == prevp then p else a;
      assert g.Ptr(a) == h.Ptr(o) && Follows(h.free, h.base, o, h.Ptr(o));
      Unlinked(h.free, h.base, prevp, p, o, h.Ptr(o));
    }
  }

  lemma TakeWholeLive(h: Heap, p: int, g: Heap)
    requires (forall a | a in h.free :: a in h.mem) && LiveOk(h) && p in h.free && p != h.base
    requires h.base < p && 1 <= h.Size(p) && p + h.Size(p) <= h.brk
    requires g.base == h.base && g.brk == h.brk && g.free == h.free - {p} && g.live == h.live[p := h.Size(p)]
    requires g.mem.Keys == h.mem.Keys && forall a | a in h.mem :: g.mem[a].size == h.mem[a].size
    requires forall b | b in h.free && b != h.base && b != p :: Apart(p, h.Size(p), b, h.Size(b))
    ensures LiveOk(g)
  {
  }

  lemma TakeWholeUnits(h: Heap, p: int, g: Heap)
    requires (forall a | a in h.free :: a in h.mem) && Covered(h) && p in h.free && p !in h.live
    requires g.base == h.base && g.free == h.free - {p} && g.live == h.live[p := h.Size(p)]
    requires g.mem.Keys == h.mem.Keys && forall a | a in h.mem :: g.mem[a].size == h.mem[a].size
    ensures Covered(g)
  {
    forall u
      ensures InFree(g, u) || InLive(g, u) <==> InFree(h, u) || InLive(h, u)
    {
      if InFree(h, u) {
        var a :| a in h.free && a <= u < a + h.Size(a);
        assert if a == p then a in g.live && a <= u < a + g.live[a] else a in g.free && a <= u < a + g.Size(a);
      }
      if InLive(h, u) {
        var a :| a in h.live && a <= u < a + h.live[a];
        assert a in g.live && a <= u < a + g.live[a];
      }
      if InFree(g, u) {
        var a :| a in g.free && a <= u < a + g.Size(a);
        assert a in h.free && a <= u < a + h.Size(a);
      }
      if InLive(g, u) {
        var a :| a in g.live && a <= u < a + g.live[a];
        assert if a == p then a in h.free && a <= u < a + h.Size(a) else a in h.live && a <= u < a + h.live[a];
      }
    }
  }

  lemma FreeIsNotLive(h: Heap, p: int)
    requires InPlace(h) && LiveOk(h) && p in h.free
    ensures p !in h.live
  {
  }

  lemma FreeApart(h: Heap, p: int)
    requires Spaced(h, {}) && p in h.free
    ensures forall b | b in h.free && b != p :: Apart(p, h.Size(p), b, h.Size(b))
  {
  }

  lemma TakeWholeOk(h: Heap, prevp: int, p: int)
    requires Ok(h) && prevp in h.free && p == h.Ptr(prevp) && p != h.base
    ensures p in h.free && Ok(TakeWhole(h, prevp, p)) && p !in h.live
  {
    assert Follows(h.free, h.base, prevp, p);
    var g := TakeWhole(h, prevp, p);
    TakeWholeCycle(h, prevp, p);
    FewerUnits(h, g);
    FreeIsNotLive(h, p);
    FreeApart(h, p);
    TakeWholeLive(h, p, g);
    TakeWholeUnits(h, p, g);
  }

  /** The tail of the block at p, n units, is handed out. */
  ghost function TakeTail(h: Heap, p: int, n: int): Heap
    requires p in h.mem && p + h.Size(p) - n in h.mem
  {
    var q := p + h.Size(p) - n;
    h.(mem := h.mem[p := Header(h.Ptr(p), h.Size(p) - n)][q := Header(h.Ptr(q), n)], live := h.live[q := n])
  }

  lemma TailInHeap(h: Heap, p: int, n: int)
    requires Spaced(h, {}) && LiveOk(h) && Covered(h) && p in h.free && 1 <= n < h.Size(p)
    ensures p + h.Size(p) - n in h.mem && p + h.Size(p) - n !in h.free && p + h.Size(p) - n !in h.live
  {
    UnitOfFree(h, p, p + h.Size(p) - n);
    InsideFree(h, p, p + h.Size(p) - n);
  }

  lemma UnitOfFree(h: Heap, p: int, q: int)
    requires (forall a | a in h.free :: a in h.mem) && Covered(h) && p in h.free && p <= q < p + h.Size(p)
    ensures q in h.mem
  {
    assert InFree(h, q);
  }

  lemma InsideFree(h: Heap, p: int, q: int)
    requires Spaced(h, {}) && LiveOk(h) && p in h.free && p < q < p + h.Size(p)
    ensures q !in h.free && q !in h.live
  {
  }

  lemma TakeTailLive(h: Heap, p: int, n: int, q: int, g: Heap)
    requires InPlace(h) && LiveOk(h) && p in h.free && 1 <= n < h.Size(p) && q == p + h.Size(p) - n
    requires q in h.mem && q !in h.free && q !in h.live && p !in h.live && g == TakeTail(h, p, n)
    requires forall b | b in h.free && b != p :: Apart(p, h.Size(p), b, h.Size(b))
    ensures LiveOk(g)
  {
    forall a, b | a in g.live && b in g.free && b != g.base
      ensures Apart(a, g.live[a], b, g.Size(b))
    {
      if a == q {
        assert b == p || Apart(p, h.Size(p), b, h.Size(b));
      } else {
        assert Apart(a, h.live[a], b, h.Size(b));
      }
    }
    forall a, b | a in g.live && b in g.live && a != b
      ensures Apart(a, g.live[a], b, g.live[b])
    {
      if a == q {
        assert Apart(b, h.live[b], p, h.Size(p));
      } else if b == q {
        assert Apart(a, h.live[a], p, h.Size(p));
      }
    }
  }

  lemma TakeTailUnits(h: Heap, p: int, n: int, q: int, g: Heap)
    requires (forall a | a in h.free :: a in h.mem) && Covered(h) && p in h.free && 1 <= n < h.Size(p)
    requires q == p + h.Size(p) - n && q in h.mem && q !in h.free && q !in h.live && g == TakeTail(h, p, n)
    ensures Covered(g)
  {
    assert forall a | a in h.free && a != p :: g.Size(a) == h.Size(a);
    forall u
      ensures InFree(g, u) || InLive(g, u) <==> InFree(h, u) || InLive(h, u)
    {
      if InFree(h, u) {
        var a :| a in h.free && a <= u < a + h.Size(a);
        assert if a == p && q <= u then q in g.live && q <= u < q + g.live[q] else a in g.free && a <= u < a + g.Size(a);
      }
      if InLive(h, u) {
        var a :| a in h.live && a <= u < a + h.live[a];
        assert a in g.live && a <= u < a + g.live[a];
      }
      if InFree(g, u) {
        var a :| a in g.free && a <= u < a + g.Size(a);
        assert a in h.free && a <= u < a + h.Size(a);
      }
      if InLive(g, u) {
        var a :| a in g.live && a <= u < a + g.live[a];
        assert if a == q then p in h.free && p <= u < p + h.Size(p) else a in h.live && a <= u < a + h.live[a];
      }
    }
  }

  lemma TakeTailOk(h: Heap, p: int, n: int)
    requires Ok(h) && p in h.free && 1 <= n < h.Size(p)
    ensures p + h.Size(p) - n in h.mem && Ok(TakeTail(h, p, n)) && p + h.Size(p) - n !in h.live
  {
    TailInHeap(h, p, n);
    var q, g := p + h.Size(p) - n, TakeTail(h, p, n);
    SameLinks(h, g);
    FewerUnits(h, g);
    FreeIsNotLive(h, p);
    FreeApart(h, p);
    TakeTailLive(h, p, n, q, g);
    TakeTailUnits(h, p, n, q, g);
  }

  /** Fresh memory: n units from r on. */
  function Region(r: int, n: nat): (m: map<int, Header>)
    ensures forall u :: u in m <==> r <= u < r + n
  {
    if n == 0 then map[] else Region(r, n - 1)[r + n - 1 := Header(0, 0)]
  }

  /** morecore's new region of n units at r, with its size set and not yet freed. */
  ghost function Grown(h: Heap, r: int, n: nat): Heap {
    h.(mem := h.mem + Region(r, n)[r := Header(0, n)], live := h.live[r := n], brk := r + n)
  }

  lemma GrownMem(h: Heap, r: int, n: nat)
    requires 1 <= n && forall u | u in h.mem :: u < h.brk <= r
    ensures forall u :: u in Grown(h, r, n).mem <==> u in h.mem || r <= u < r + n
    ensures forall u | u in Grown(h, r, n).mem :: u < r + n
  {
  }

  lemma GrownLive(h: Heap, r: int, n: nat)
    requires InPlace(h) && LiveOk(h) && h.brk <= r && 1 <= n && r !in h.live
    requires forall u | u in h.mem :: u < h.brk
    ensures (forall a | a in h.free :: a in Grown(h, r, n).mem) && LiveOk(Grown(h, r, n))
  {
    var g := Grown(h, r, n);
    assert forall a | a in h.mem :: a in g.mem && g.mem[a] == h.mem[a];
  }

  lemma GrownUnits(h: Heap, r: int, n: nat)
    requires (forall a | a in h.free :: a in h.mem) && Covered(h) && h.brk <= r && 1 <= n && r !in h.live
    requires (forall u | u in h.mem :: u < h.brk) && h.base in h.mem
    ensures (forall a | a in h.free :: a in Grown(h, r, n).mem) && Covered(Grown(h, r, n))
  {
    var g := Grown(h, r, n);
    assert forall a | a in h.mem :: a in g.mem && g.mem[a] == h.mem[a];
    forall u
      ensures InFree(g, u) || InLive(g, u) <==> InFree(h, u) || InLive(h, u) || r <= u < r + n
    {
      if InFree(h, u) {
        var a :| a in h.free && a <= u < a + h.Size(a);
        assert a in g.free && a <= u < a + g.Size(a);
      }
      if InLive(h, u) {
        var a :| a in h.live && a <= u < a + h.live[a];
        assert a in g.live && a <= u < a + g.live[a];
      }
      if r <= u < r + n {
        assert r in g.live && r <= u < r + g.live[r];
      }
      if InFree(g, u) {
        var a :| a in g.free && a <= u < a + g.Size(a);
        assert a in h.free && a <= u < a + h.Size(a);
      }
      if InLive(g, u) {
        var a :| a in g.live && a <= u < a + g.live[a];
        assert a == r || (a in h.live && a <= u < a + h.live[a]);
      }
    }
  }

  lemma GrownOk(h: Heap, r: int, n: nat)
    requires Ok(h) && h.brk <= r && 1 <= n
    requires forall u | u in h.mem :: u < h.brk
    ensures Ok(Grown(h, r, n)) && r !in h.live
  {
    var g := Grown(h, r, n);
    assert forall a | a in h.mem :: a in g.mem && g.mem[a] == h.mem[a];
    assert InPlace(g);
    SameLinks(h, g);
    FewerUnits(h, g);
    assert r !in h.live;
    GrownLive(h, r, n);
    GrownUnits(h, r, n);
  }

  /** The owner of a live block may write anything behind its header. */
  lemma ScribbleOk(h: Heap, a: int, u: int, v: Header)
    requires Ok(h) && a in h.live && a < u < a + h.live[a]
    ensures u in h.mem && Ok(h.(mem := h.mem[u := v]))
  {
    var g := h.(mem := h.mem[u := v]);
    InsideLive(h, a, u);
    SameLinks(h, g);
    FewerUnits(h, g);
    SameSizes(h, g);
  }

  lemma InsideLive(h: Heap, a: int, u: int)
    requires InPlace(h) && LiveOk(h) && Covered(h) && a in h.live && a < u < a + h.live[a]
    ensures u in h.mem && u !in h.free && u !in h.live
  {
    assert InLive(h, u);
  }

  // ---------- what the owners of live blocks have written ----------

  /** The blocks live in both are the same size and hold the same, their headers apart. */
  ghost predicate Untouched(h: Heap, g: Heap) {
    && (forall a | a in h.live && a in g.live :: g.live[a] == h.live[a])
    && forall a, u | a in h.live && a in g.live && a < u < a + h.live[a] && u in h.mem :: u in g.mem && g.mem[u] == h.mem[u]
  }

  lemma UntouchedChain(h: Heap, g: Heap, f: Heap)
    requires Untouched(h, g) && Untouched(g, f) && forall a | a in h.live && a in f.live :: a in g.live
    ensures Untouched(h, f)
  {
    forall a, u | a in h.live && a in f.live && a < u < a + h.live[a] && u in h.mem
      ensures u in f.mem && f.mem[u] == h.mem[u]
    {
      assert a in g.live && g.live[a] == h.live[a];
    }
  }

  /** Only the header of a free or a live block is written. */
  lemma HeaderWrite(h: Heap, g: Heap, x: int)
    requires InPlace(h) && LiveOk(h) && Covered(h)
    requires x in h.free || x in h.live
    requires x in g.mem && g.mem == h.mem[x := g.mem[x]] && forall a | a in h.live && a in g.live :: g.live[a] == h.live[a]
    ensures Untouched(h, g)
  {
    forall a, u | a in h.live && a in g.live && a < u < a + h.live[a] && u in h.mem
      ensures u in g.mem && g.mem[u] == h.mem[u]
    {
      InsideLive(h, a, u);
    }
  }

  lemma GrownUntouched(h: Heap, r: int, n: nat)
    requires InPlace(h) && LiveOk(h) && Covered(h) && h.brk <= r && 1 <= n && r !in h.live && forall u | u in h.mem :: u < h.brk
    ensures Untouched(h, Grown(h, r, n))
  {
    var g := Grown(h, r, n);
    forall a, u | a in h.live && a in g.live && a < u < a + h.live[a] && u in h.mem
      ensures u in g.mem && g.mem[u] == h.mem[u]
    {
      InsideLive(h, a, u);
    }
  }

  lemma TailUntouched(h: Heap, p: int, n: int)
    requires Spaced(h, {}) && LiveOk(h) && Covered(h) && p in h.free && p != h.base && 1 <= n < h.Size(p)
    requires p + h.Size(p) - n in h.mem && p + h.Size(p) - n !in h.live
    ensures Untouched(h, TakeTail(h, p, n))
  {
    var q, g := p + h.Size(p) - n, TakeTail(h, p, n);
    forall a, u | a in h.live && a in g.live && a < u < a + h.live[a] && u in h.mem
      ensures u in g.mem && g.mem[u] == h.mem[u]
    {
      InsideLive(h, a, u);
      assert Apart(a, h.live[a], p, h.Size(p));
    }
  }

  lemma JoinUntouched(h: Heap, n: int, bp: int)
    requires InPlace(h) && LiveOk(h) && Covered(h) && n in h.mem && bp in h.live
    ensures Untouched(h, JoinAbove(h, n, bp))
  {
    HeaderWrite(h, JoinAbove(h, n, bp), bp);
  }

  lemma LinkUntouched(h: Heap, p: int, bp: int)
    requires InPlace(h) && LiveOk(h) && Covered(h) && p in h.mem && bp in h.live
    ensures Untouched(h, LinkAbove(h, p, bp))
  {
    HeaderWrite(h, LinkAbove(h, p, bp), bp);
  }

  lemma BelowUntouched(g: Heap, p: int, bp: int)
    requires InPlace(g) && LiveOk(g) && Covered(g) && p in g.free && bp in g.mem
    ensures Untouched(g, JoinBelow(g, p, bp)) && Untouched(g, LinkBelow(g, p, bp))
  {
    HeaderWrite(g, JoinBelow(g, p, bp), p);
    HeaderWrite(g, LinkBelow(g, p, bp), p);
  }

  lemma WholeUntouched(h: Heap, prevp: int, p: int)
    requires InPlace(h) && LiveOk(h) && Covered(h) && prevp in h.free && p in h.mem && p !in h.live
    ensures Untouched(h, TakeWhole(h, prevp, p))
  {
    HeaderWrite(h, TakeWhole(h, prevp, p), prevp);
  }

  /** A new block comes and goes. */
  lemma GrownThenFreed(h: Heap, g: Heap, f: Heap, r: int, n: int)
    requires r !in h.live && g.live == h.live[r := n] && f.live == g.live - {r} && Untouched(h, g) && Untouched(g, f)
    ensures f.live == h.live && Untouched(h, f)
  {
    assert g.live - {r} == h.live;
    UntouchedChain(h, g, f);
  }
}
