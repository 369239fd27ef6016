/** What mapping pages costs in frames: one for each page, and one for each directory slot that the pages
    touch and that has no table yet. */
module FrameCount {
  import opened Frames

  function One(b: bool): int {
    if b then 1 else 0
  }

  /** Mapping pages a, a + 1, ... in turn needs a new table at page v. */
  predicate Lacks(s: Vm, d: int, a: int, v: int) {
    Ent(s, d, v / NENT).Absent? && (v == a || v % NENT == 0)
  }

  /** The tables that directory d of s lacks for pages a to z - 1. */
  function Tabs(s: Vm, d: int, a: int, z: int): (n: nat)
    decreases z - a
  {
    if z <= a then 0 else Tabs(s, d, a, z - 1) + One(Lacks(s, d, a, z - 1))
  }

  /** From s to u directory d has got tables for pages a to z - 1, and no others. */
  ghost predicate Tabled(s: Vm, u: Vm, d: int, a: int, z: int) {
    forall i {:trigger Ent(u, d, i)} ::
      Ent(u, d, i).Present? <==> Ent(s, d, i).Present? || (a < z && a / NENT <= i <= (z - 1) / NENT)
  }

  lemma TabledOne(s: Vm, u: Vm, d: int, v: int)
    requires Ent(u, d, v / NENT).Present? && forall j | j != v / NENT :: Ent(u, d, j) == Ent(s, d, j)
    ensures Tabled(s, u, d, v, v + 1)
  {
  }

  lemma TabledNone(s: Vm, d: int, a: int)
    ensures Tabled(s, s, d, a, a) && Tabs(s, d, a, a) == 0
  {
  }

  /** What page v lacks now is what it lacked at first, unless a page before it has got it. */
  lemma LacksThen(s: Vm, t: Vm, d: int, a: int, v: int)
    requires 0 <= a <= v && Tabled(s, t, d, a, v)
    ensures Tabs(s, d, a, v + 1) == Tabs(s, d, a, v) + One(Ent(t, d, v / NENT).Absent?)
  {
    assert Ent(t, d, v / NENT).Present? <==> Ent(s, d, v / NENT).Present? || (a < v && a / NENT <= v / NENT <= (v - 1) / NENT);
    assert a < v && v % NENT != 0 ==> (v - 1) / NENT == v / NENT;
    assert a < v && v % NENT == 0 ==> (v - 1) / NENT == v / NENT - 1;
  }

  /** Some pages more. */
  lemma TabledThen(s: Vm, t: Vm, u: Vm, d: int, a: int, v: int, z: int)
    requires 0 <= a <= v < z && Tabled(s, t, d, a, v) && Tabled(t, u, d, v, z)
    ensures Tabled(s, u, d, a, z)
  {
    forall i
      ensures Ent(u, d, i).Present? <==> Ent(s, d, i).Present? || a / NENT <= i <= (z - 1) / NENT
    {
      assert Ent(t, d, i).Present? <==> Ent(s, d, i).Present? || (a < v && a / NENT <= i <= (v - 1) / NENT);
    }
  }

  lemma {:induction false} TabsGrow(s: Vm, d: int, a: int, y: int, z: int)
    requires y <= z
    ensures Tabs(s, d, a, y) <= Tabs(s, d, a, z)
    decreases z - y
  {
    if y < z {
      TabsGrow(s, d, a, y, z - 1);
    }
  }

  /** Where exactly the slots before page a have tables, the others that the pages touch lack one. */
  lemma {:induction false} TabsFrom(s: Vm, d: int, a: int, z: int)
    requires 0 <= a < z && forall i | a / NENT <= i <= (z - 1) / NENT :: Ent(s, d, i).Present? <==> i <= (a - 1) / NENT
    ensures Tabs(s, d, a, z) == (z - 1) / NENT - (a - 1) / NENT
    decreases z
  {
    var y := z - 1;
    assert y % NENT != 0 ==> (y - 1) / NENT == y / NENT;
    assert y % NENT == 0 ==> (y - 1) / NENT == y / NENT - 1;
    assert Ent(s, d, y / NENT).Present? <==> y / NENT <= (a - 1) / NENT;
    if a < y {
      TabsFrom(s, d, a, y);
    } else {
      assert Tabs(s, d, a, a) == 0;
    }
  }

  // ---------- the same, declaratively ----------

  /** The slots of directory d that have a table. */
  ghost function Slots(s: Vm, d: int): set<int> {
    set i | 0 <= i < NENT && Ent(s, d, i).Present?
  }

  /** The slots that pages a to z - 1 touch. */
  ghost function Touched(a: int, z: int): set<int> {
    set v | a <= v < z :: v / NENT
  }

  lemma OneMore(t: set<int>, s: set<int>, i: int)
    ensures |t + {i} - s| == |t - s| + One(i !in s && i !in t)
  {
    if i !in s && i !in t {
      assert t + {i} - s == (t - s) + {i};
    } else {
      assert t + {i} - s == t - s;
    }
  }

  /** The tables lacking are those of the slots that the pages touch and that have none. */
  lemma {:induction false} TabsAre(s: Vm, d: int, a: int, z: int)
    requires 0 <= a <= z <= NENT * NENT
    ensures Tabs(s, d, a, z) == |Touched(a, z) - Slots(s, d)|
    decreases z
  {
    if a == z {
      assert Touched(a, z) == {};
      assert {} - Slots(s, d) == {};
    } else {
      var y := z - 1;
      TabsAre(s, d, a, y);
      TouchedNext(a, y);
      TouchedBefore(a, y);
      OneMore(Touched(a, y), Slots(s, d), y / NENT);
      LackingSlot(s, d, a, y);
    }
  }

  lemma LackingSlot(s: Vm, d: int, a: int, y: int)
    requires 0 <= a <= y < NENT * NENT
    ensures Lacks(s, d, a, y) <==> y / NENT !in Slots(s, d) && (a == y || y % NENT == 0)
  {
  }

  lemma TouchedNext(a: int, v: int)
    requires a <= v
    ensures Touched(a, v + 1) == Touched(a, v) + {v / NENT}
  {
    forall i
      ensures i in Touched(a, v + 1) <==> i in Touched(a, v) + {v / NENT}
    {
      if i in Touched(a, v + 1) {
        var w :| a <= w < v + 1 && w / NENT == i;
        assert w < v ==> i in Touched(a, v);
      }
    }
  }

  lemma TouchedBefore(a: int, y: int)
    requires 0 <= a <= y
    ensures y / NENT in Touched(a, y) <==> a < y && y % NENT != 0
  {
    if a < y && y % NENT != 0 {
      assert (y - 1) / NENT == y / NENT;
      assert y / NENT in Touched(a, y);
    }
  }
}
