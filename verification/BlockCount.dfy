/** Counting blocks: what a file of a given size occupies, what a write needs, and how many are unused. */
module BlockCount {
  import opened FsModel
  import opened FileBytes

  function One(b: bool): int {
    if b then 1 else 0
  }

  /** The blocks a file of e bytes occupies: one for each block begun, and with the first one behind the
      direct blocks another for the table of indirect blocks. */
  function Cost(e: int): int
    decreases e
  {
    if e <= 0 then 0 else Cost(e - BSIZE) + 1 + One(NDIRECT * BSIZE < e <= (NDIRECT + 1) * BSIZE)
  }

  lemma {:induction false} SameCost(e: int, f: int)
    requires 0 < e <= f && (e - 1) / BSIZE == (f - 1) / BSIZE
    ensures Cost(e) == Cost(f)
    decreases e
  {
    if e > BSIZE {
      SameCost(e - BSIZE, f - BSIZE);
    } else {
      assert Cost(e - BSIZE) == Cost(f - BSIZE) == 0;
    }
  }

  lemma CostStep(e: int, m: int)
    requires 0 <= e && 0 < m && e % BSIZE + m <= BSIZE
    ensures Cost(e + m) == Cost(e) + One(e % BSIZE == 0) + One(e == NDIRECT * BSIZE)
  {
    if e % BSIZE != 0 {
      SameCost(e, e + m);
    } else {
      SameCost(e + m, e + BSIZE);
      assert Cost(e + BSIZE) == Cost(e) + 1 + One(e == NDIRECT * BSIZE);
    }
  }

  lemma {:induction false} CostGrows(e: int, f: int)
    requires 0 <= e <= f
    ensures Cost(e) <= Cost(f)
    decreases f
  {
    if 0 < e && (e - 1) / BSIZE == (f - 1) / BSIZE {
      SameCost(e, f);
    } else if e <= f - BSIZE {
      CostGrows(e, f - BSIZE);
    } else if 0 < e {
      SameCost(f - BSIZE, e);
    } else if 0 < f {
      assert Cost(f - BSIZE) == 0;
    }
  }

  /** How many blocks file i lacks for its block bn. */
  ghost function Lacks(s: Fs, i: int, bn: int): int
    requires Shape(s) && 0 <= i < |s.ino| && 0 <= bn < MAXFILE
  {
    One(BlockAt(s, i, bn) == 0) + One(bn >= NDIRECT && s.ino[i].addrs[NDIRECT] == 0)
  }

  /** A file mapped for its first e bytes lacks a block for byte e exactly at a block boundary, and its
      table exactly where the direct blocks end. */
  lemma LacksIs(s: Fs, i: int, e: int)
    requires Shape(s) && 0 <= i < |s.ino| && MappedTo(s, i, e) && e < MAXFILE * BSIZE
    ensures BlockAt(s, i, e / BSIZE) == 0 <==> e % BSIZE == 0
    ensures e / BSIZE >= NDIRECT && s.ino[i].addrs[NDIRECT] == 0 <==> e == NDIRECT * BSIZE
  {
    var bn := e / BSIZE;
    assert bn * BSIZE < e <==> e % BSIZE != 0;
  }

  /** What writing m bytes of one block at cur costs a file that has e bytes and is mapped as far as it has
      been written. */
  lemma WriteCost(s: Fs, i: int, e: int, cur: int, m: int)
    requires Shape(s) && 0 <= i < |s.ino| && 0 <= e && 0 <= cur && MappedTo(s, i, Max(e, cur))
    requires 0 < m && cur % BSIZE + m <= BSIZE && cur < MAXFILE * BSIZE
    ensures 0 <= cur / BSIZE < MAXFILE && Lacks(s, i, cur / BSIZE) == Cost(Max(e, cur + m)) - Cost(Max(e, cur))
  {
    if e <= cur {
      LacksIs(s, i, cur);
      CostStep(cur, m);
    } else {
      var bn := cur / BSIZE;
      assert bn * BSIZE <= cur < e;
      assert BlockAt(s, i, bn) != 0;
      if e < cur + m {
        SameCost(e, cur + m);
      }
    }
  }

  // ---------- unused blocks ----------

  function Unused(bits: seq<bool>): nat {
    if bits == [] then 0 else Unused(bits[..|bits| - 1]) + One(!bits[|bits| - 1])
  }

  lemma {:induction false} UnusedTake(bits: seq<bool>, b: int)
    requires 0 <= b < |bits| && !bits[b]
    ensures Unused(bits) == Unused(bits[b := true]) + 1
  {
    var n := |bits| - 1;
    if b < n {
      UnusedTake(bits[..n], b);
      assert bits[b := true][..n] == bits[..n][b := true];
    } else {
      assert bits[b := true][..n] == bits[..n];
    }
  }

  lemma {:induction false} UnusedNone(bits: seq<bool>)
    ensures Unused(bits) == 0 <==> forall b | 0 <= b < |bits| :: bits[b]
  {
    if bits != [] {
      UnusedNone(bits[..|bits| - 1]);
      assert bits == bits[..|bits| - 1] + [bits[|bits| - 1]];
    }
  }
}
