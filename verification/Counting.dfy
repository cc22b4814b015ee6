/** Counting arguments: pigeonhole, and folds that do not depend on the order. */
module Counting {

  ghost predicate AllDistinct<T>(xs: seq<T>) {
    forall i, j :: 0 <= i < j < |xs| ==> xs[i] != xs[j]
  }

  ghost function Elements<T>(xs: seq<T>): set<T> {
    set i | 0 <= i < |xs| :: xs[i]
  }

  lemma {:induction false} DistinctSize<T>(xs: seq<T>)
    requires AllDistinct(xs)
    ensures |Elements(xs)| == |xs|
  {
    if xs != [] {
      var (rest, last) := (xs[..|xs| - 1], xs[|xs| - 1]);
      DistinctSize(rest);
      assert forall i :: 0 <= i < |rest| ==> rest[i] == xs[i];
      forall x | x in Elements(xs) ensures x in Elements(rest) + {last} {
        var i :| 0 <= i < |xs| && xs[i] == x;
        assert i < |rest| ==> rest[i] == x;
      }
      forall x | x in Elements(rest) ensures x in Elements(xs) {
        var i :| 0 <= i < |rest| && rest[i] == x;
        assert xs[i] == x;
      }
      assert xs[|xs| - 1] in Elements(xs);
      assert Elements(xs) == Elements(rest) + {last};
    }
  }

  lemma {:induction false} SubsetSize<T>(a: set<T>, b: set<T>)
    requires a <= b
    ensures |a| <= |b|
  {
    if a != {} {
      var x :| x in a;
      SubsetSize(a - {x}, b - {x});
    }
  }

  ghost function Below(n: nat): (s: set<int>)
    ensures forall i :: i in s <==> 0 <= i < n
  {
    if n == 0 then {} else Below(n - 1) + {n - 1}
  }

  lemma {:induction false} BelowSize(n: nat)
    ensures |Below(n)| == n
  {
    if n > 0 {
      BelowSize(n - 1);
    }
  }

  /** `n` distinct numbers below `n` are all of them. */
  lemma Onto(xs: seq<int>, v: int)
    requires AllDistinct(xs) && (forall i :: 0 <= i < |xs| ==> 0 <= xs[i] < |xs|)
    requires 0 <= v < |xs|
    ensures v in xs
  {
    if v !in xs {
      DistinctSize(xs);
      BelowSize(|xs|);
      SubsetSize(Elements(xs), Below(|xs|) - {v});
      assert false;
    }
  }

  // ---------- Folds ----------

  ghost predicate Swaps(op: (int, int) -> int, x: int, y: int, z: int) {
    op(x, op(y, z)) == op(y, op(x, z))
  }

  /** The order of the operands does not matter. */
  ghost predicate Commutes(op: (int, int) -> int) {
    forall x, y, z :: Swaps(op, x, y, z)
  }

  function Fold(op: (int, int) -> int, e: int, xs: seq<int>): int {
    if xs == [] then e else op(xs[0], Fold(op, e, xs[1..]))
  }

  lemma {:induction false} FoldPull(op: (int, int) -> int, e: int, xs: seq<int>, p: nat)
    requires Commutes(op) && p < |xs|
    ensures Fold(op, e, xs) == op(xs[p], Fold(op, e, xs[..p] + xs[p + 1..]))
  {
    if p == 0 {
      assert xs[..0] + xs[1..] == xs[1..];
    } else {
      FoldPull(op, e, xs[1..], p - 1);
      var rest := xs[..p] + xs[p + 1..];
      assert rest[0] == xs[0] && rest[1..] == xs[1..][..p - 1] + xs[1..][p..];
      assert Swaps(op, xs[0], xs[p], Fold(op, e, rest[1..]));
    }
  }

  ghost predicate IsPermutation(dirs: seq<int>) {
    AllDistinct(dirs) && forall d :: 0 <= d < |dirs| ==> 0 <= dirs[d] < |dirs|
  }

  function Permuted<T>(xs: seq<T>, dirs: seq<int>): (r: seq<T>)
    requires forall d :: 0 <= d < |dirs| ==> 0 <= dirs[d] < |xs|
    ensures |r| == |dirs|
  {
    seq(|dirs|, d requires 0 <= d < |dirs| => xs[dirs[d]])
  }

  /** Folding along any permutation gives the same result. */
  lemma {:induction false} FoldPermuted(op: (int, int) -> int, e: int, xs: seq<int>, dirs: seq<int>)
    requires Commutes(op) && IsPermutation(dirs) && |dirs| == |xs|
    ensures Fold(op, e, Permuted(xs, dirs)) == Fold(op, e, xs)
    decreases |xs|
  {
    var n := |xs| - 1;
    if n >= 0 {
      Onto(dirs, n);
      var p :| 0 <= p < |dirs| && dirs[p] == n;
      FoldPull(op, e, Permuted(xs, dirs), p);
      FoldPull(op, e, xs, n);
      assert xs[..n] + xs[n + 1..] == xs[..n];
      LastDropped(xs, dirs, p);
      FoldPermuted(op, e, xs[..n], dirs[..p] + dirs[p + 1..]);
    }
  }

  /** Dropping the last direction from a permutation leaves a permutation of the others. */
  lemma LastDropped(xs: seq<int>, dirs: seq<int>, p: nat)
    requires IsPermutation(dirs) && |dirs| == |xs| && p < |dirs| && dirs[p] == |xs| - 1
    ensures IsPermutation(dirs[..p] + dirs[p + 1..])
    ensures Permuted(xs, dirs)[..p] + Permuted(xs, dirs)[p + 1..] == Permuted(xs[..|xs| - 1], dirs[..p] + dirs[p + 1..])
  {
    var rest := dirs[..p] + dirs[p + 1..];
    assert forall d :: 0 <= d < |rest| ==> rest[d] == dirs[if d < p then d else d + 1];
  }

  /** A sequence is determined by its permuted form. */
  lemma PermutedInjective<T>(a: seq<T>, b: seq<T>, dirs: seq<int>)
    requires IsPermutation(dirs) && |a| == |b| == |dirs| && Permuted(a, dirs) == Permuted(b, dirs)
    ensures a == b
  {
    forall i | 0 <= i < |a| ensures a[i] == b[i] {
      Onto(dirs, i);
      var d :| 0 <= d < |dirs| && dirs[d] == i;
      assert Permuted(a, dirs)[d] == Permuted(b, dirs)[d];
    }
  }
}
