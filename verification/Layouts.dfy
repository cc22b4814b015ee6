/** Strided layouts, with the directions listed from slowest to fastest.  `w` are the extents, `s` the strides
    and `x` a multi-index, all in that order. */
module Layouts {
  import opened Arithmetic
  import opened Counting

  function Add(x: int, y: int): int { x + y }

  function Mul(x: int, y: int): int { x * y }

  function Product(xs: seq<int>): int {
    Fold(Mul, 1, xs)
  }

  function Terms(x: seq<int>, s: seq<int>): (r: seq<int>)
    requires |x| == |s|
    ensures |r| == |x|
  {
    seq(|x|, i requires 0 <= i < |x| => x[i] * s[i])
  }

  /** `numerics::dot_product`: the offset of a multi-index. */
  function Dot(x: seq<int>, s: seq<int>): int
    requires |x| == |s|
  {
    Fold(Add, 0, Terms(x, s))
  }

  /** `toMultiIndex`: peel off one quotient per direction, slowest first. */
  function Unflatten(f: int, s: seq<int>): (x: seq<int>)
    requires forall d :: 0 <= d < |s| ==> s[d] != 0
    ensures |x| == |s|
    decreases |s|
  {
    if s == [] then []
    else
      var q := Truncating(f, s[0]);
      [q] + Unflatten(f - q * s[0], s[1..])
  }

  predicate InBox(x: seq<int>, w: seq<int>) {
    |x| == |w| && forall d :: 0 <= d < |x| ==> 0 <= x[d] < w[d]
  }

  predicate Positive(w: seq<int>) {
    forall d :: 0 <= d < |w| ==> w[d] > 0
  }

  /** Each stride spans at least the whole block of the next faster direction. */
  ghost predicate Nested(w: seq<int>, s: seq<int>) {
    && |w| == |s| > 0 && Positive(w) && s[|s| - 1] > 0
    && forall d :: 0 <= d < |s| - 1 ==> Spans(w, s, d)
  }

  ghost predicate Spans(w: seq<int>, s: seq<int>, d: nat)
    requires |w| == |s| && d + 1 < |s|
  {
    s[d] >= s[d + 1] * w[d + 1]
  }

  /** No padding between blocks. */
  ghost predicate Chained(w: seq<int>, s: seq<int>) {
    |w| == |s| > 0 && forall d :: 0 <= d < |s| - 1 ==> Tight(w, s, d)
  }

  ghost predicate Compact(w: seq<int>, s: seq<int>) {
    Chained(w, s) && s[|s| - 1] > 0
  }

  ghost predicate Tight(w: seq<int>, s: seq<int>, d: nat)
    requires |w| == |s| && d + 1 < |s|
  {
    s[d] == s[d + 1] * w[d + 1]
  }

  /** `memorySize`: the extent of the slowest direction times its stride. */
  function Span(w: seq<int>, s: seq<int>): int
    requires |w| == |s| > 0
  {
    s[0] * w[0]
  }

  // ---------- Structure of the recursion ----------

  lemma DotCons(x: seq<int>, s: seq<int>)
    requires |x| == |s| > 0
    ensures Dot(x, s) == x[0] * s[0] + Dot(x[1..], s[1..])
  {
    assert Terms(x, s)[1..] == Terms(x[1..], s[1..]);
  }

  lemma NestedTail(w: seq<int>, s: seq<int>)
    requires Nested(w, s) && |w| > 1
    ensures Nested(w[1..], s[1..]) && s[0] >= Span(w[1..], s[1..])
  {
    assert Spans(w, s, 0);
    forall d | 0 <= d < |s| - 2 ensures Spans(w[1..], s[1..], d) {
      assert Spans(w, s, d + 1);
    }
  }

  lemma CompactTail(w: seq<int>, s: seq<int>)
    requires Compact(w, s) && |w| > 1
    ensures Compact(w[1..], s[1..]) && s[0] == Span(w[1..], s[1..])
  {
    assert Tight(w, s, 0);
    forall d | 0 <= d < |s| - 2 ensures Tight(w[1..], s[1..], d) {
      assert Tight(w, s, d + 1);
    }
  }

  lemma CompactNested(w: seq<int>, s: seq<int>)
    requires Compact(w, s) && Positive(w)
    ensures Nested(w, s)
  {
    forall d | 0 <= d < |s| - 1 ensures Spans(w, s, d) {
      assert Tight(w, s, d);
    }
  }

  lemma {:induction false} NestedPositive(w: seq<int>, s: seq<int>)
    requires Nested(w, s)
    ensures Positive(s) && Span(w, s) > 0
    decreases |w|
  {
    if |w| > 1 {
      NestedTail(w, s);
      NestedPositive(w[1..], s[1..]);
      assert forall d :: 1 <= d < |s| ==> s[d] == s[1..][d - 1];
    }
    MulMono(1, w[0], s[0]);
  }

  // ---------- Offsets ----------

  /** Every in-bounds offset lies in `[0, memorySize)`. */
  lemma {:induction false} OffsetInSpan(x: seq<int>, w: seq<int>, s: seq<int>)
    requires Nested(w, s) && InBox(x, w)
    ensures 0 <= Dot(x, s) < Span(w, s)
    decreases |w|
  {
    DotCons(x, s);
    NestedPositive(w, s);
    if |w| > 1 {
      NestedTail(w, s);
      OffsetInSpan(x[1..], w[1..], s[1..]);
    }
    MulMono(0, x[0], s[0]);
    MulMono(x[0] + 1, w[0], s[0]);
  }

  /** `toMultiIndex` recovers every in-bounds index, padded or not. */
  lemma {:induction false} Recovered(x: seq<int>, w: seq<int>, s: seq<int>)
    requires Nested(w, s) && InBox(x, w)
    ensures Positive(s) && Unflatten(Dot(x, s), s) == x
    decreases |w|
  {
    DotCons(x, s);
    NestedPositive(w, s);
    var rest := Dot(x[1..], s[1..]);
    if |w| > 1 {
      NestedTail(w, s);
      OffsetInSpan(x[1..], w[1..], s[1..]);
      Recovered(x[1..], w[1..], s[1..]);
    } else {
      assert rest == 0 && Unflatten(rest, s[1..]) == x[1..];
    }
    OffsetInSpan(x, w, s);
    DivUnique(Dot(x, s), s[0], x[0], rest);
  }

  lemma {:induction false} CompactSpan(w: seq<int>, s: seq<int>)
    requires Compact(w, s)
    ensures Span(w, s) == s[|s| - 1] * Product(w)
    decreases |w|
  {
    if |w| > 1 {
      CompactTail(w, s);
      CompactSpan(w[1..], s[1..]);
      var (p, l) := (Product(w[1..]), s[|s| - 1]);
      assert Product(w) == w[0] * p;
      MulAssoc(l, p, w[0]);
    } else {
      assert w[1..] == [] && Product(w) == w[0] * Product(w[1..]);
    }
  }

  /** Without padding every offset below `memorySize` leads back into the box. */
  lemma {:induction false} BackInBox(f: nat, w: seq<int>, s: seq<int>)
    requires Compact(w, s) && Positive(w) && f < Span(w, s)
    ensures Positive(s) && InBox(Unflatten(f, s), w)
    decreases |w|
  {
    CompactNested(w, s);
    NestedPositive(w, s);
    var x := Unflatten(f, s);
    UnflattenCons(f, s);
    QuotientBelow(f, s[0], w[0]);
    if |w| > 1 {
      CompactTail(w, s);
      BackInBox(f % s[0], w[1..], s[1..]);
      assert forall d :: 1 <= d < |x| ==> x[d] == Unflatten(f % s[0], s[1..])[d - 1] && w[d] == w[1..][d - 1];
    }
  }

  /** ... and is hit again, up to the fastest stride. */
  lemma {:induction false} Reflattened(f: nat, w: seq<int>, s: seq<int>)
    requires Compact(w, s) && Positive(s)
    ensures Dot(Unflatten(f, s), s) == f - f % s[|s| - 1]
    decreases |w|
  {
    OffsetOfUnflattened(f, s);
    if |w| > 1 {
      CompactTail(w, s);
      Reflattened(f % s[0], w[1..], s[1..]);
      LastDivides(w, s, 0);
      RemainderKept(f, s[0], s[|s| - 1]);
    } else {
      assert Dot(Unflatten(f % s[0], s[1..]), s[1..]) == 0;
    }
  }

  lemma OffsetOfUnflattened(f: nat, s: seq<int>)
    requires Positive(s) && s != []
    ensures Dot(Unflatten(f, s), s) == f - f % s[0] + Dot(Unflatten(f % s[0], s[1..]), s[1..])
  {
    UnflattenCons(f, s);
    DotCons(Unflatten(f, s), s);
    assert Unflatten(f, s)[1..] == Unflatten(f % s[0], s[1..]);
  }

  lemma RemainderKept(f: nat, n: nat, l: nat)
    requires l > 0 && n / l > 0 && n == (n / l) * l
    ensures (f % n) % l == f % l
  {
    ModOfMultiple(f, l, n / l);
  }

  lemma QuotientBelow(f: nat, n: nat, w: int)
    requires f < n * w && n > 0
    ensures 0 <= f / n < w
  {
    var q := f / n;
    if q >= w {
      MulMono(w, q, n);
      assert false;
    }
  }

  lemma UnflattenCons(f: nat, s: seq<int>)
    requires Positive(s) && s != []
    ensures Unflatten(f, s) == [f / s[0]] + Unflatten(f % s[0], s[1..])
  {
    var n := s[0];
    TruncatingNat(f, n);
    assert f - (f / n) * n == f % n;
  }

  /** The fastest stride divides every stride of a compact layout. */
  lemma {:induction false} LastDivides(w: seq<int>, s: seq<int>, d: nat)
    requires Compact(w, s) && Positive(s) && d < |s|
    ensures s[d] % s[|s| - 1] == 0 && s[d] / s[|s| - 1] > 0
    ensures s[d] == (s[d] / s[|s| - 1]) * s[|s| - 1]
    decreases |s| - d
  {
    var l := s[|s| - 1];
    if d + 1 < |s| {
      LastDivides(w, s, d + 1);
      assert Tight(w, s, d);
      var q := s[d + 1] / l;
      MulAssoc(w[d + 1], q, l);
      DivUnique(s[d], l, w[d + 1] * q, 0);
    } else {
      DivUnique(s[d], l, 1, 0);
    }
  }

  // ---------- Order ----------

  /** `StackArray::operator<`: lexicographic. */
  function LexLess(a: seq<int>, b: seq<int>): bool
    requires |a| == |b|
  {
    if a == [] then false
    else if a[0] < b[0] then true
    else if a[0] > b[0] then false
    else LexLess(a[1..], b[1..])
  }

  /** In slow-to-fast order, comparing indices is comparing offsets. */
  lemma {:induction false} LexIsOffsetOrder(a: seq<int>, b: seq<int>, w: seq<int>, s: seq<int>)
    requires Nested(w, s) && InBox(a, w) && InBox(b, w)
    ensures LexLess(a, b) <==> Dot(a, s) < Dot(b, s)
    decreases |w|
  {
    DotCons(a, s);
    DotCons(b, s);
    NestedPositive(w, s);
    var (ra, rb) := (Dot(a[1..], s[1..]), Dot(b[1..], s[1..]));
    if |w| > 1 {
      NestedTail(w, s);
      OffsetInSpan(a[1..], w[1..], s[1..]);
      OffsetInSpan(b[1..], w[1..], s[1..]);
      LexIsOffsetOrder(a[1..], b[1..], w[1..], s[1..]);
    }
    DigitsOrder(a[0], b[0], ra, rb, s[0]);
  }

  lemma DigitsOrder(a: int, b: int, ra: nat, rb: nat, n: nat)
    requires ra < n && rb < n
    ensures a * n + ra < b * n + rb <==> a < b || (a == b && ra < rb)
  {
    if a < b {
      MulMono(a + 1, b, n);
    } else if a > b {
      MulMono(b + 1, a, n);
    }
  }
}
