/** Counting: the numbers below n, and sets that fit inside one another. */
module Finite {

  ghost function Below(n: nat): (s: set<int>)
    ensures forall i :: i in s <==> 0 <= i < n
    ensures |s| == n
  {
    if n == 0 then {} else Below(n - 1) + {n - 1}
  }

  ghost function Range(a: int, n: nat): (s: set<int>)
    ensures forall i :: i in s <==> a <= i < a + n
    ensures |s| == n
  {
    if n == 0 then {} else Range(a, n - 1) + {a + n - 1}
  }

  lemma {:induction false} SubsetSize<T>(s: set<T>, t: set<T>)
    requires s <= t
    ensures |s| <= |t|
  {
    if s != {} {
      var x :| x in s;
      SubsetSize(s - {x}, t - {x});
    }
  }

  lemma UnionSize<T>(s: set<T>, t: set<T>)
    ensures |s + t| <= |s| + |t|
  {
    assert s + t == s + (t - s);
    SubsetSize(t - s, t);
  }

  /** A set of numbers below n with at least n members holds them all. */
  lemma FillsAll(s: set<int>, n: nat, x: int)
    requires s <= Below(n) && |s| >= n && 0 <= x < n
    ensures x in s
  {
    if x !in s {
      SubsetSize(s, Below(n) - {x});
    }
  }

  /** A set of numbers below n has n members exactly if it holds them all. */
  lemma FullExactly(s: set<int>, n: nat)
    requires forall x | x in s :: 0 <= x < n
    ensures |s| == n <==> forall i | 0 <= i < n :: i in s
    ensures |s| <= n
  {
    SubsetSize(s, Below(n));
    if forall i | 0 <= i < n :: i in s {
      assert s == Below(n);
    } else {
      var i :| 0 <= i < n && i !in s;
      SubsetSize(s, Below(n) - {i});
    }
  }

  ghost function SetOf(s: seq<int>): set<int> {
    set x | x in s
  }

  lemma {:induction false} DistinctSize(s: seq<int>)
    requires forall i, j | 0 <= i < j < |s| :: s[i] != s[j]
    ensures |SetOf(s)| == |s|
  {
    if s != [] {
      var r, x := s[..|s| - 1], s[|s| - 1];
      DistinctSize(r);
      assert SetOf(s) == SetOf(r) + {x} by {
        assert s == r + [x];
      }
      assert x !in SetOf(r);
    }
  }
}
