/** The quadratic probe sequence of `FlatMap` visits every group of a power-of-two table exactly once. */
module ProbeSequence {
  import opened Arithmetic
  import Counting

  function Pow2(k: nat): (p: nat)
    ensures p > 0
  {
    if k == 0 then 1 else 2 * Pow2(k - 1)
  }

  /** One step of the walk, which wraps round the table. */
  function Jump(g: nat, i: nat, m: nat): (n: nat)
    requires m > 0
    ensures n < m
  {
    (g + i) % m
  }

  /** The group probed at iteration `i`: each step jumps one further than the last. */
  function Probe(home: nat, i: nat, m: nat): (g: nat)
    requires m > 0 && home < m
    ensures g < m
  {
    if i == 0 then home else Jump(Probe(home, i - 1, m), i, m)
  }

  function Triangle(i: nat): nat {
    if i == 0 then 0 else Triangle(i - 1) + i
  }

  /** The walk has moved on by a triangular number, up to whole rounds of the table. */
  lemma {:induction false} ProbeIs(home: nat, i: nat, m: nat) returns (q: nat)
    requires m > 0 && home < m
    ensures home + Triangle(i) == q * m + Probe(home, i, m)
  {
    if i == 0 {
      q := 0;
    } else {
      q := ProbeIs(home, i - 1, m);
      var d := JumpIs(Probe(home, i - 1, m), i, m);
      Distributes(q, d, m);
      q := q + d;
    }
  }

  lemma JumpIs(g: nat, i: nat, m: nat) returns (d: nat)
    requires m > 0
    ensures g + i == d * m + Jump(g, i, m)
  {
    d := (g + i) / m;
  }

  lemma Distributes(a: int, b: int, m: int)
    ensures (a + b) * m == a * m + b * m
  {
  }

  /** An odd factor can be cancelled in front of a power of two. */
  lemma {:induction false} OddCancels(a: nat, b: nat, q: nat, n: nat)
    requires a % 2 == 1 && a * b == q * Pow2(n)
    ensures b % Pow2(n) == 0
  {
    if n > 0 {
      var p := Pow2(n - 1);
      assert a * b == 2 * (q * p) by { MulAssoc(q, 2, p); MulAssoc(2, q, p); }
      OddTimes(a, b);
      var half := b / 2;
      assert a * half == q * p by { assert a * b == 2 * (a * half); }
      OddCancels(a, half, q, n - 1);
      var r := half / p;
      assert b == r * (2 * p) by { assert half == r * p; }
      DivUnique(b, 2 * p, r, 0);
    }
  }

  lemma OddTimes(a: nat, b: nat)
    requires a % 2 == 1 && (a * b) % 2 == 0
    ensures b % 2 == 0
  {
    var i := a / 2;
    assert a * b == 2 * (i * b) + b;
  }

  /** No group is probed twice within one round. */
  lemma ProbeInjective(home: nat, i: nat, j: nat, k: nat)
    requires home < Pow2(k) && i < j < Pow2(k)
    ensures Probe(home, i, Pow2(k)) != Probe(home, j, Pow2(k))
  {
    if Probe(home, i, Pow2(k)) == Probe(home, j, Pow2(k)) {
      var a, b := GapFactors(i, j, Pow2(k + 1));
      var q := TriangleGap(home, i, j, a, b, Pow2(k), Pow2(k + 1));
      NotBoth(a, b, q, k + 1);
    }
  }

  /** One of two factors with opposite parity is odd, and the other is too small to be a multiple. */
  lemma NotBoth(a: nat, b: nat, q: nat, n: nat)
    requires 0 < a < Pow2(n) && 0 < b < Pow2(n) && a % 2 != b % 2
    ensures a * b != q * Pow2(n)
  {
    if a % 2 == 1 {
      NotMultiple(a, b, q, n);
    } else {
      Commutes(a, b);
      NotMultiple(b, a, q, n);
    }
  }

  lemma Commutes(a: int, b: int)
    ensures a * b == b * a
  {
  }

  lemma NotMultiple(a: nat, b: nat, q: nat, n: nat)
    requires a % 2 == 1 && 0 < b < Pow2(n)
    ensures a * b != q * Pow2(n)
  {
    if a * b == q * Pow2(n) {
      OddCancels(a, b, q, n);
      SmallMultiple(b, Pow2(n));
    }
  }

  lemma SmallMultiple(x: nat, m: nat)
    requires m > 0 && x < m && x % m == 0
    ensures x == 0
  {
    DivUnique(x, m, 0, x);
  }

  lemma TriangleGap(home: nat, i: nat, j: nat, a: nat, b: nat, m: nat, n: nat) returns (q: nat)
    requires m > 0 && n == 2 * m && home < m && i < j && Probe(home, i, m) == Probe(home, j, m)
    requires a == j - i && b == i + j + 1
    ensures a * b == q * n
  {
    var x := ProbeIs(home, i, m);
    var y := ProbeIs(home, j, m);
    TriangleDifference(i, j, a, b);
    q := Whole(y, x, m, n, Triangle(j) - Triangle(i));
  }

  lemma Whole(b: nat, a: nat, m: nat, n: nat, gap: nat) returns (q: nat)
    requires m > 0 && n == 2 * m && b * m == a * m + gap
    ensures 2 * gap == q * n
  {
    if b < a { MulMono(b + 1, a, m); }
    q := b - a;
    assert q * m == gap;
  }

  /** The factors of twice the distance walked between steps `i` and `j`. */
  lemma GapFactors(i: nat, j: nat, n: nat) returns (a: nat, b: nat)
    requires i < j && 2 * j < n
    ensures a == j - i && b == i + j + 1
    ensures 0 < a < n && 0 < b < n && a % 2 != b % 2
  {
    a, b := j - i, i + j + 1;
  }

  lemma {:induction false} TriangleDifference(i: nat, j: nat, a: nat, b: nat)
    requires i <= j && a == j - i && b == i + j + 1
    ensures Triangle(i) <= Triangle(j) && 2 * (Triangle(j) - Triangle(i)) == a * b
    decreases j
  {
    if i < j {
      TriangleDifference(i, j - 1, a - 1, b - 1);
      assert a * b == (a - 1) * (b - 1) + a + b - 1;
    }
  }

  /** Within one round every group is probed. */
  lemma ProbeOnto(home: nat, g: nat, k: nat) returns (i: nat)
    requires home < Pow2(k) && g < Pow2(k)
    ensures i < Pow2(k) && Probe(home, i, Pow2(k)) == g
  {
    var m := Pow2(k);
    var round := seq(m, (j: nat) => Probe(home, j, m));
    forall a, b | 0 <= a < b < m ensures round[a] != round[b] {
      ProbeInjective(home, a, b, k);
    }
    Counting.Onto(round, g);
    i :| 0 <= i < m && round[i] == g;
  }

  // ---------- Rounding to a power of two ----------

  /** `31 - countl_zero(n)`: the position of the highest set bit. */
  function FloorLog2(n: nat): nat
    requires n > 0
  {
    if n == 1 then 0 else 1 + FloorLog2(n / 2)
  }

  lemma {:induction false} FloorLog2Is(n: nat)
    requires n > 0
    ensures Pow2(FloorLog2(n)) <= n < 2 * Pow2(FloorLog2(n))
  {
    if n > 1 { FloorLog2Is(n / 2); }
  }

  lemma {:induction false} Pow2Mono(i: nat, j: nat)
    requires i <= j
    ensures Pow2(i) <= Pow2(j)
    decreases j - i
  {
    if i < j { Pow2Mono(i, j - 1); }
  }

  lemma FloorLog2AtLeast(n: nat, j: nat)
    requires n >= Pow2(j)
    ensures FloorLog2(n) >= j
  {
    FloorLog2Is(n);
    if FloorLog2(n) < j {
      Pow2Mono(FloorLog2(n) + 1, j);
    }
  }
}
