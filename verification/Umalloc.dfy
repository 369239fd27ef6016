/** How far apart two entries of the cyclic free list are, counted in links. */
module Ring {
  import opened Finite
  import opened FreeList

  ghost function Segment(s: set<int>, lo: int, hi: int): set<int> {
    set x | x in s && lo < x <= hi
  }

  ghost function UpTo(s: set<int>, hi: int): set<int> {
    set x | x in s && x <= hi
  }

  ghost function Above(s: set<int>, lo: int): set<int> {
    set x | x in s && lo < x
  }

  /** Links from p to t going up and round. */
  ghost function Dist(s: set<int>, p: int, t: int): nat {
    if p <= t then |Segment(s, p, t)| else |Above(s, p)| + |UpTo(s, t)|
  }

  /** One link towards t is one less to go. */
  lemma Step(s: set<int>, base: int, p: int, n: int, t: int)
    requires p in s && t in s && p != t && Follows(s, base, p, n) && forall x | x in s :: base <= x
    ensures Dist(s, n, t) == Dist(s, p, t) - 1
  {
    if p < t {
      assert p < n <= t;
      assert Segment(s, p, t) == Segment(s, n, t) + {n};
    } else if n > p {
      StepAbove(s, p, n);
    } else {
      StepRound(s, base, p, t);
    }
  }

  lemma StepAbove(s: set<int>, p: int, n: int)
    requires n in s && p < n && forall x | x in s :: x <= p || n <= x
    ensures |Above(s, p)| == |Above(s, n)| + 1
  {
    assert Above(s, p) == Above(s, n) + {n};
  }

  lemma StepRound(s: set<int>, base: int, p: int, t: int)
    requires base in s && t in s && (forall x | x in s :: base <= x <= p)
    ensures Above(s, p) == {} && |UpTo(s, t)| == |Segment(s, base, t)| + 1
  {
    assert UpTo(s, t) == Segment(s, base, t) + {base};
  }

  /** From the entry after t, everything else comes before t. */
  lemma FullTurn(s: set<int>, base: int, t: int, n: int, x: int)
    requires t in s && x in s && Follows(s, base, t, n) && forall x | x in s :: base <= x
    ensures Dist(s, n, x) <= Dist(s, n, t) == |s| - 1
  {
    if n > t {
      assert s == Above(s, n) + {n} + UpTo(s, t);
    } else {
      assert s == Segment(s, n, t) + {n};
    }
    if n <= x {
      SubsetSize(Segment(s, n, x), s - {n});
    } else {
      assert Above(s, n) + UpTo(s, x) <= s - {n};
      SubsetSize(Above(s, n) + UpTo(s, x), s - {n});
      assert Above(s, n) !! UpTo(s, x);
    }
  }

  lemma Zero(s: set<int>, p: int, t: int)
    requires p in s && t in s
    ensures Dist(s, p, t) == 0 <==> p == t
  {
    if p < t {
      assert t in Segment(s, p, t);
    } else if t < p {
      assert t in UpTo(s, t);
    } else {
      assert Segment(s, p, t) == {};
    }
  }

  lemma Further(s: set<int>, x: int, y: int, t: int)
    requires x in s && y in s && t in s && x < y
    ensures Dist(s, x, t) != Dist(s, y, t)
  {
    if y <= t {
      assert y in Segment(s, x, t) && Segment(s, y, t) <= Segment(s, x, t) - {y};
      SubsetSize(Segment(s, y, t), Segment(s, x, t) - {y});
    } else if x <= t {
      assert x in UpTo(s, t) && Segment(s, x, t) <= UpTo(s, t) - {x};
      SubsetSize(Segment(s, x, t), UpTo(s, t) - {x});
    } else {
      assert y in Above(s, x) && Above(s, y) <= Above(s, x) - {y};
      SubsetSize(Above(s, y), Above(s, x) - {y});
    }
  }

  /** Different entries are at different distances. */
  lemma Distinct(s: set<int>, x: int, y: int, t: int)
    requires x in s && y in s && t in s && Dist(s, x, t) == Dist(s, y, t)
    ensures x == y
  {
    if x < y {
      Further(s, x, y, t);
    } else if y < x {
      Further(s, y, x, t);
    }
  }
}

/** umalloc.c, with the free list changed in place. */
module Umalloc {
  import opened FreeList
  import opened Finite
  import Ring

  const UNIT: int := 8  // sizeof(Header)

  /** A header and room for n bytes. */
  function Units(n: int): int {
    (n + UNIT - 1) / UNIT + 1
  }

  lemma UnitsEnough(n: int)
    requires 0 <= n
    ensures 1 <= Units(n) && (Units(n) - 2) * UNIT < n <= (Units(n) - 1) * UNIT
  {
  }

  /** A block of n units at q is the tail of the first block from freep on that has as many. */
  ghost predicate FirstFit(h: Heap, freep: int, n: int, q: int)
    requires forall a | a in h.free :: a in h.mem
  {
    exists p :: IsFirst(h, freep, n, p) && q + n == p + h.Size(p)
  }

  ghost predicate IsFirst(h: Heap, freep: int, n: int, p: int)
    requires forall a | a in h.free :: a in h.mem
  {
    && p in h.free && h.Size(p) >= n
    && forall x | x in h.free && Ring.Dist(h.free, x, freep) > Ring.Dist(h.free, p, freep) :: h.Size(x) < n
  }

  class Allocator {
    const base: int               // the address of the static header, below the heap
    var mem: map<int, Header>
    var freep: int                // 0 before the first malloc
    ghost var free: set<int>
    ghost var live: map<int, int>
    ghost var brk: int            // everything obtained so far lies below

    ghost function H(): Heap
      reads this
    {
      Heap(base, mem, free, live, brk)
    }

    ghost predicate Ready()
      reads this
    {
      Ok(H()) && freep in free && 0 < base < brk && forall u | u in mem :: u < brk
    }

    ghost predicate Valid()
      reads this
    {
      Ready() || (freep == 0 && mem.Keys == {base} && free == {} && live == map[] && 0 < base < brk)
    }

    constructor (base: int)
      requires 0 < base
      ensures Valid() && live == map[] && this.base == base && mem.Keys == {base}
    {
      this.base := base;
      mem, freep, free, live, brk := map[base := Header(0, 0)], 0, {}, map[], base + 1;
    }

    /** Walk round the list to the entry below bp. */
    method FindPlace(bp: int) returns (p: int)
      requires Ready() && bp in live
      ensures p in free && Place(H(), p, bp)
    {
      ghost var h := H();
      p := freep;
      LiveFree(h, bp);
      while !(bp > p && bp < mem[p].ptr)
        invariant p in free
        decreases Rank(free, p, bp)
      {
        var n := mem[p].ptr;
        assert h.Ptr(p) == n && Follows(free, base, p, n);
        if p >= n && (bp > p || bp < n) {
          break;
        }
        RankStep(free, base, p, n, bp);
        p := n;
      }
    }

    /** free: the block is no longer live, no other block's contents or liveness changes, and its units
        are now inside some free block. */
    method Free(bp: int) returns (ghost into: int)
      requires Ready() && bp in live
      modifies this`mem, this`freep, this`free, this`live
      ensures Ready() && live == old(live) - {bp} && mem.Keys == old(mem.Keys) && Untouched(old(H()), H())
      ensures into in free && into <= bp && bp + old(live)[bp] <= into + mem[into].size
    {
      var p := FindPlace(bp);
      LiveFits(H(), p, bp);
      JoinUp(p, bp);
      ghost var g := H();
      into := JoinDown(p, bp);
      UntouchedChain(old(H()), g, H());
      freep := p;
    }

    /** free's second half: join the block below or link it to this one. */
    method JoinDown(p: int, bp: int) returns (ghost into: int)
      requires Almost(H(), {p}) && Adjacent(H(), p, bp)
      modifies this`mem, this`free
      ensures Ok(H()) && mem.Keys == old(mem.Keys) && p in free && Untouched(old(H()), H())
      ensures into in free && into <= bp && bp + old(mem)[bp].size <= into + mem[into].size
    {
      ghost var g := H();
      BelowUntouched(g, p, bp);
      if p + mem[p].size == bp {
        JoinBelowOk(g, p, bp);
        mem := mem[p := Header(mem[bp].ptr, mem[p].size + mem[bp].size)];
        free := free - {bp};
        into := p;
        assert H() == JoinBelow(g, p, bp);
      } else {
        LinkBelowOk(g, p, bp);
        mem := mem[p := Header(bp, mem[p].size)];
        into := bp;
        assert H() == LinkBelow(g, p, bp);
      }
    }

    /** free's first half: join the block above or link to it. */
    method JoinUp(p: int, bp: int)
      requires Ready() && bp in live && p in free && Place(H(), p, bp) && Fits(H(), p, bp, live[bp])
      modifies this`mem, this`free, this`live
      ensures Almost(H(), {p}) && Adjacent(H(), p, bp) && Untouched(old(H()), H())
      ensures live == old(live) - {bp} && mem.Keys == old(mem.Keys) && mem[p] == old(mem)[p]
      ensures mem[bp].size >= old(live)[bp]
    {
      ghost var h := H();
      NowAdjacent(h, p, bp);
      if bp + mem[bp].size == mem[p].ptr {
        JoinAboveOk(h, p, bp);
        var n := mem[p].ptr;
        mem := mem[bp := Header(mem[n].ptr, mem[bp].size + mem[n].size)];
        free := free - {n} + {bp};
        live := live - {bp};
        assert H() == JoinAbove(h, n, bp);
        JoinUntouched(h, n, bp);
      } else {
        LinkAboveOk(h, p, bp);
        mem := mem[bp := Header(mem[p].ptr, mem[bp].size)];
        free := free + {bp};
        live := live - {bp};
        assert H() == LinkAbove(h, p, bp);
        LinkUntouched(h, p, bp);
      }
    }

    /** morecore: at least 4096 units more, in the free list; `room` is what sbrk answered. */
    method Morecore(nu: int, room: int) returns (ok: bool, ghost big: int)
      requires Ready() && 1 <= nu && (room == -1 || brk <= room)
      modifies this`mem, this`freep, this`free, this`live, this`brk
      ensures Ready() && live == old(live) && (ok <==> room != -1) && Untouched(old(H()), H())
      ensures !ok ==> H() == old(H()) && freep == old(freep)
      ensures ok ==> big in free && mem[big].size >= nu
      ensures ok ==> brk == room + (if nu < 4096 then 4096 else nu)
      ensures ok ==> forall u :: u in mem <==> u in old(mem) || room <= u < brk
    {
      big := base;
      if room == -1 {
        return false, base;
      }
      var n := if nu < 4096 then 4096 else nu;
      Grow(room, n);
      ghost var g := H();
      big := Free(room);
      GrownThenFreed(old(H()), g, H(), room, n);
      ok := true;
    }

    /** The new region, as if it had been handed out. */
    method Grow(room: int, n: nat)
      requires Ready() && 1 <= n && brk <= room
      modifies this`mem, this`live, this`brk
      ensures Ready() && room !in old(live) && live == old(live)[room := n] && brk == room + n && Untouched(old(H()), H())
      ensures forall u :: u in mem <==> u in old(mem) || room <= u < brk
    {
      GrownOk(H(), room, n);
      GrownMem(H(), room, n);
      GrownUntouched(H(), room, n);
      mem := mem + Region(room, n)[room := Header(0, n)];
      live := live[room := n];
      brk := room + n;
    }

    /** malloc: null exactly when nothing on the free list is large enough and sbrk refuses; otherwise a
        block large enough that was not live, and the heap is extended only if no free block fits. */
    method Malloc(nbytes: int, room: int) returns (r: int)
      requires Valid() && 0 <= nbytes && (room == -1 || brk <= room)
      modifies this`mem, this`freep, this`free, this`live, this`brk
      ensures Ready()
      ensures r == 0 <==> room == -1 && forall a | a in old(free) :: old(mem)[a].size < Units(nbytes)
      ensures r == 0 ==> live == old(live)
      ensures Untouched(old(H()), H())
      ensures r != 0 ==> r - 1 !in old(live) && live == old(live)[r - 1 := Units(nbytes)]
      ensures r != 0 ==> (live[r - 1] - 2) * UNIT < nbytes <= (live[r - 1] - 1) * UNIT
      ensures r != 0 && old(freep) != 0 && brk == old(brk) ==> FirstFit(old(H()), old(freep), Units(nbytes), r - 1)
      ensures brk != old(brk) ==> forall a | a in old(free) :: old(mem)[a].size < Units(nbytes)
    {
      if freep == 0 {
        Init();
      }
      UnitsEnough(nbytes);
      r := Allocate(Units(nbytes), room);
    }

    /** malloc of n units, with a list to search. */
    method Allocate(n: int, room: int) returns (r: int)
      requires Ready() && 1 <= n && (room == -1 || brk <= room)
      modifies this`mem, this`freep, this`free, this`live, this`brk
      ensures Ready() && Untouched(old(H()), H())
      ensures r == 0 <==> room == -1 && forall a | a in old(free) :: old(mem)[a].size < n
      ensures r == 0 ==> live == old(live)
      ensures r != 0 ==> r - 1 !in old(live) && live == old(live)[r - 1 := n]
      ensures r != 0 && brk == old(brk) ==> FirstFit(old(H()), old(freep), n, r - 1)
      ensures brk != old(brk) ==> forall a | a in old(free) :: old(mem)[a].size < n
    {
      ghost var h := H();
      var prevp, p := FindFit(n, room);
      if p == 0 {
        return 0;
      }
      ghost var g := H();
      r := Take(prevp, p, n);
      UntouchedChain(h, g, H());
    }

    /** malloc's search, with morecore where it comes round without success; p is 0 where that fails. */
    method FindFit(n: int, room: int) returns (prevp: int, p: int)
      requires Ready() && 1 <= n && (room == -1 || brk <= room)
      modifies this`mem, this`freep, this`free, this`live, this`brk
      ensures Ready() && live == old(live) && Untouched(old(H()), H())
      ensures p == 0 <==> room == -1 && forall a | a in old(free) :: old(mem)[a].size < n
      ensures p != 0 ==> prevp in free && p in free && mem[prevp].ptr == p && n <= mem[p].size
      ensures brk != old(brk) ==> forall a | a in old(free) :: old(mem)[a].size < n
      ensures p != 0 && brk == old(brk) ==> H() == old(H()) && IsFirst(H(), old(freep), n, p)
    {
      prevp, p := Scan(n);
      if mem[p].size < n {
        var more;
        ghost var big;
        more, big := Morecore(n, room);
        if !more {
          return 0, 0;
        }
        prevp, p := Scan(n);
      }
    }

    /** malloc's walk, from the entry after freep round to freep: the first block with n units (those
        passed before it, which are further from freep, are too small) and the entry before it; if
        there is none, p ends at freep, which is too small like all the others. */
    method Scan(n: int) returns (prevp: int, p: int)
      requires Ready()
      ensures prevp in free && p in free && mem[prevp].ptr == p
      ensures forall x | x in free && Ring.Dist(free, x, freep) > Ring.Dist(free, p, freep) :: mem[x].size < n
      ensures mem[p].size >= n || forall x | x in free :: mem[x].size < n
    {
      prevp := freep;
      p := mem[prevp].ptr;
      assert Follows(free, base, prevp, H().Ptr(prevp));
      AllAhead(free, base, freep, p);
      while mem[p].size < n && p != freep
        invariant prevp in free && p in free && mem[prevp].ptr == p
        invariant forall x | x in free && Ring.Dist(free, x, freep) > Ring.Dist(free, p, freep) :: mem[x].size < n
        decreases Ring.Dist(free, p, freep)
      {
        assert Follows(free, base, p, H().Ptr(p));
        Ring.Step(free, base, p, mem[p].ptr, freep);
        forall x | x in free && Ring.Dist(free, x, freep) == Ring.Dist(free, p, freep)
          ensures x == p
        {
          Ring.Distinct(free, x, p, freep);
        }
        prevp := p;
        p := mem[p].ptr;
      }
      forall x | x in free && p == freep && mem[p].size < n
        ensures mem[x].size < n
      {
        Ring.Zero(free, x, freep);
        Ring.Zero(free, p, freep);
      }
    }

    method Init()
      requires Valid() && freep == 0
      modifies this`mem, this`freep, this`free
      ensures Ready() && freep == base && free == {base} && mem == map[base := Header(base, 0)]
    {
      mem := map[base := Header(base, 0)];
      freep := base;
      free := {base};
    }

    /** Hand out the block at p, all of it or its tail. */
    method Take(prevp: int, p: int, n: int) returns (r: int)
      requires Ready() && prevp in free && p in free && mem[prevp].ptr == p && 1 <= n <= mem[p].size
      modifies this`mem, this`freep, this`free, this`live
      ensures Ready() && r > 1 && r - 1 !in old(live) && live == old(live)[r - 1 := n] && Untouched(old(H()), H())
      ensures r - 1 + n == p + old(mem)[p].size && freep == prevp
    {
      ghost var h := H();
      var q := p;
      if mem[p].size == n {
        TakeWholeOk(h, prevp, p);
        TakeWholeCycle(h, prevp, p);
        mem := mem[prevp := Header(mem[p].ptr, mem[prevp].size)];
        free := free - {p};
        live := live[p := n];
        assert H() == TakeWhole(h, prevp, p);
        WholeUntouched(h, prevp, p);
      } else {
        TakeTailOk(h, p, n);
        mem := mem[p := Header(mem[p].ptr, mem[p].size - n)];
        q := p + mem[p].size;
        mem := mem[q := Header(mem[q].ptr, n)];
        live := live[q := n];
        assert H() == TakeTail(h, p, n);
        TailUntouched(h, p, n);
      }
      freep := prevp;
      return q + 1;
    }

    /** The owner of a live block writes one of its units. */
    method Scribble(a: int, u: int, v: Header)
      requires Ready() && a in live && a < u < a + live[a]
      modifies this`mem
      ensures Ready() && mem.Keys == old(mem.Keys)
    {
      ScribbleOk(H(), a, u, v);
      mem := mem[u := v];
    }
  }

  /** How far the walk in free has to go at most to pass bp. */
  ghost function Rank(s: set<int>, p: int, bp: int): nat {
    if p < bp then |Ring.Segment(s, p, bp)| else |Ring.Above(s, p)| + |s|
  }

  lemma RankStep(s: set<int>, base: int, p: int, n: int, bp: int)
    requires p in s && bp !in s && Follows(s, base, p, n) && !(p < bp < n) && !(n <= p && (p < bp || bp < n))
    ensures Rank(s, n, bp) < Rank(s, p, bp)
  {
    if n > p {
      assert p < bp ==> Ring.Segment(s, p, bp) == Ring.Segment(s, n, bp) + {n};
      assert p > bp ==> Ring.Above(s, p) == Ring.Above(s, n) + {n};
    } else {
      assert Ring.Segment(s, n, bp) <= s - {n};
      SubsetSize(Ring.Segment(s, n, bp), s - {n});
    }
  }

  /** From the entry n after t, nothing is further from t than n. */
  lemma AllAhead(s: set<int>, base: int, t: int, n: int)
    requires t in s && Follows(s, base, t, n) && forall x | x in s :: base <= x
    ensures forall x | x in s :: Ring.Dist(s, x, t) <= Ring.Dist(s, n, t)
  {
    forall x | x in s
      ensures Ring.Dist(s, x, t) <= Ring.Dist(s, n, t)
    {
      OnTheWay(s, base, t, n, x);
    }
  }

  lemma LiveFree(h: Heap, bp: int)
    requires Ok(h) && bp in h.live
    ensures bp !in h.free && h.base < bp
  {
    if bp in h.free {
      FreeIsNotLive(h, bp);
    }
  }

  lemma OnTheWay(s: set<int>, base: int, t: int, n: int, x: int)
    requires t in s && x in s && Follows(s, base, t, n) && forall x | x in s :: base <= x
    ensures Ring.Dist(s, x, t) <= Ring.Dist(s, n, t)
  {
    Ring.FullTurn(s, base, t, n, t);
    if x <= t {
      SubsetSize(Ring.Segment(s, x, t), s - {x});
    } else {
      SubsetSize(Ring.Above(s, x) + Ring.UpTo(s, t), s - {x});
      assert Ring.Above(s, x) !! Ring.UpTo(s, t);
    }
  }
}
