/** Theorems about index mappings with any number of dimensions, any direction order and any padding. */
module IndexTheorems {
  import opened Arithmetic
  import opened Counting
  import opened Layouts
  import opened MDMappings

  /** The strides leave room for the faster directions, along the direction order. */
  ghost predicate Roomy(shape: seq<int>, strides: seq<int>, dirs: seq<int>) {
    && IsPermutation(dirs) && |shape| == |strides| == |dirs| > 0
    && Nested(Permuted(shape, dirs), Permuted(strides, dirs))
  }

  /** `ArrayBase::memorySize` */
  function MemorySize(shape: seq<int>, strides: seq<int>, dirs: seq<int>): int
    requires |shape| == |strides| == |dirs| > 0 && 0 <= dirs[0] < |shape|
  {
    strides[dirs[0]] * shape[dirs[0]]
  }

  lemma SumsCommute()
    ensures Commutes(Add) && Commutes(Mul)
  {
    forall x, y, z ensures Swaps(Add, x, y, z) && Swaps(Mul, x, y, z) {
      MulAssoc(x, y, z);
      MulAssoc(y, x, z);
    }
  }

  /** An offset can be summed along the direction order. */
  lemma DotPermuted(x: seq<int>, strides: seq<int>, dirs: seq<int>)
    requires IsPermutation(dirs) && |x| == |strides| == |dirs|
    ensures Dot(Permuted(x, dirs), Permuted(strides, dirs)) == Dot(x, strides)
  {
    SumsCommute();
    FoldPermuted(Add, 0, Terms(x, strides), dirs);
    assert Terms(Permuted(x, dirs), Permuted(strides, dirs)) == Permuted(Terms(x, strides), dirs);
  }

  lemma BoxPermuted(x: seq<int>, shape: seq<int>, dirs: seq<int>)
    requires IsPermutation(dirs) && |x| == |shape| == |dirs|
    ensures InBox(x, shape) <==> InBox(Permuted(x, dirs), Permuted(shape, dirs))
  {
    if InBox(Permuted(x, dirs), Permuted(shape, dirs)) {
      forall i | 0 <= i < |x| ensures 0 <= x[i] < shape[i] {
        Onto(dirs, i);
        var d :| 0 <= d < |dirs| && dirs[d] == i;
        assert Permuted(x, dirs)[d] == x[i] && Permuted(shape, dirs)[d] == shape[i];
      }
    }
  }

  lemma RoomyNonZero(shape: seq<int>, strides: seq<int>, dirs: seq<int>)
    requires Roomy(shape, strides, dirs)
    ensures forall d :: 0 <= d < |dirs| ==> strides[dirs[d]] > 0
  {
    NestedPositive(Permuted(shape, dirs), Permuted(strides, dirs));
    assert forall d :: 0 <= d < |dirs| ==> strides[dirs[d]] == Permuted(strides, dirs)[d];
  }

  /** `toMultiIndex(toFlatIndex(x)) == x` and every offset is inside the memory, padded or not. */
  lemma RoundTrip(x: seq<int>, shape: seq<int>, strides: seq<int>, dirs: seq<int>)
    requires Roomy(shape, strides, dirs) && InBox(x, shape)
    ensures forall d :: 0 <= d < |dirs| ==> strides[dirs[d]] != 0
    ensures MultiIndex(Dot(x, strides), strides, dirs) == x
    ensures 0 <= Dot(x, strides) < MemorySize(shape, strides, dirs)
  {
    var (px, pw, ps) := (Permuted(x, dirs), Permuted(shape, dirs), Permuted(strides, dirs));
    RoomyNonZero(shape, strides, dirs);
    BoxPermuted(x, shape, dirs);
    DotPermuted(x, strides, dirs);
    Recovered(px, pw, ps);
    OffsetInSpan(px, pw, ps);
    MultiIndexPermuted(Dot(x, strides), strides, dirs);
    PermutedInjective(MultiIndex(Dot(x, strides), strides, dirs), x, dirs);
  }

  /** Distinct in-bounds multi-indices never share an offset. */
  lemma OffsetsDistinct(x: seq<int>, y: seq<int>, shape: seq<int>, strides: seq<int>, dirs: seq<int>)
    requires Roomy(shape, strides, dirs) && InBox(x, shape) && InBox(y, shape) && x != y
    ensures Dot(x, strides) != Dot(y, strides)
  {
    RoundTrip(x, shape, strides, dirs);
    RoundTrip(y, shape, strides, dirs);
  }

  lemma DenseRoomy(shape: seq<int>, strides: seq<int>, dirs: seq<int>, fastest: int)
    requires Dense(shape, strides, dirs, fastest) && fastest > 0 && Positive(shape)
    ensures Roomy(shape, strides, dirs)
    ensures MemorySize(shape, strides, dirs) == fastest * Product(shape)
  {
    var (pw, ps) := (Permuted(shape, dirs), Permuted(strides, dirs));
    CompactNested(pw, ps);
    CompactSpan(pw, ps);
    SumsCommute();
    FoldPermuted(Mul, 1, shape, dirs);
  }

  /** The other direction, for the strides that `initializeShape` makes: an offset comes back exactly when the
      fastest stride divides it. */
  lemma FlatRoundTrip(f: nat, shape: seq<int>, strides: seq<int>, dirs: seq<int>, fastest: int)
    requires Dense(shape, strides, dirs, fastest) && fastest > 0 && Positive(shape)
    requires f < fastest * Product(shape)
    ensures forall d :: 0 <= d < |dirs| ==> strides[dirs[d]] != 0
    ensures InBox(MultiIndex(f, strides, dirs), shape)
    ensures Dot(MultiIndex(f, strides, dirs), strides) == f <==> f % fastest == 0
  {
    var (pw, ps) := (Permuted(shape, dirs), Permuted(strides, dirs));
    DenseRoomy(shape, strides, dirs, fastest);
    RoomyNonZero(shape, strides, dirs);
    NestedPositive(pw, ps);
    BackInBox(f, pw, ps);
    Reflattened(f, pw, ps);
    MultiIndexPermuted(f, strides, dirs);
    BoxPermuted(MultiIndex(f, strides, dirs), shape, dirs);
    DotPermuted(MultiIndex(f, strides, dirs), strides, dirs);
  }

  /** With fastest stride 1, `toFlatIndex` and `toMultiIndex` are inverse bijections between the index box and
      `[0, product of extents)`. */
  lemma Bijection(shape: seq<int>, strides: seq<int>, dirs: seq<int>)
    requires Dense(shape, strides, dirs, 1) && Positive(shape)
    ensures forall d :: 0 <= d < |dirs| ==> strides[dirs[d]] != 0
    ensures forall x :: InBox(x, shape) ==>
      0 <= Dot(x, strides) < Product(shape) && MultiIndex(Dot(x, strides), strides, dirs) == x
    ensures forall f :: 0 <= f < Product(shape) ==>
      InBox(MultiIndex(f, strides, dirs), shape) && Dot(MultiIndex(f, strides, dirs), strides) == f
  {
    DenseRoomy(shape, strides, dirs, 1);
    RoomyNonZero(shape, strides, dirs);
    forall x | InBox(x, shape)
      ensures 0 <= Dot(x, strides) < Product(shape) && MultiIndex(Dot(x, strides), strides, dirs) == x
    {
      RoundTrip(x, shape, strides, dirs);
    }
    forall f | 0 <= f < Product(shape)
      ensures InBox(MultiIndex(f, strides, dirs), shape) && Dot(MultiIndex(f, strides, dirs), strides) == f
    {
      FlatRoundTrip(f, shape, strides, dirs, 1);
    }
  }

  // ---------- Recovering the order from the strides ----------

  /** A permutation that sorts distinct strides is the only one that does. */
  lemma SortedUnique(strides: seq<int>, p: seq<int>, q: seq<int>)
    requires IsPermutation(p) && IsPermutation(q) && |p| == |q| == |strides|
    requires AllDistinct(strides) && Descending(strides, p) && Descending(strides, q)
    ensures p == q
  {
    forall k | 0 <= k < |p| ensures p[k] == q[k] {
      RankUnique(strides, p, q, k);
    }
  }

  /** By induction on the rank: the k-th largest stride sits in one direction. */
  lemma {:induction false} RankUnique(strides: seq<int>, p: seq<int>, q: seq<int>, k: nat)
    requires IsPermutation(p) && IsPermutation(q) && |p| == |q| == |strides| && k < |p|
    requires AllDistinct(strides) && Descending(strides, p) && Descending(strides, q)
    ensures forall i :: 0 <= i <= k ==> p[i] == q[i]
  {
    if k > 0 { RankUnique(strides, p, q, k - 1); }
    Onto(q, p[k]);
    Onto(p, q[k]);
    var (i, j) := (Position(q, p[k]), Position(p, q[k]));
    assert i >= k && j >= k;
    assert strides[p[k]] == strides[q[k]];
  }

  /** Strides made by `initializeShape` from extents of at least two are sorted by the direction order and
      distinct, so any sort of them gives the order back. */
  lemma OrderRecovered(shape: seq<int>, strides: seq<int>, dirs: seq<int>, fastest: int, sorted: seq<int>)
    requires Dense(shape, strides, dirs, fastest) && fastest > 0
    requires forall d :: 0 <= d < |shape| ==> shape[d] >= 2
    requires IsPermutation(sorted) && |sorted| == |strides| && Descending(strides, sorted)
    ensures sorted == dirs
  {
    var (pw, ps) := (Permuted(shape, dirs), Permuted(strides, dirs));
    CompactNested(pw, ps);
    NestedPositive(pw, ps);
    forall i, j | 0 <= i < j < |ps| ensures ps[i] > ps[j] {
      StrictlyFalling(pw, ps, i, j);
    }
    assert Descending(strides, dirs) by {
      assert forall d :: 0 <= d < |dirs| ==> strides[dirs[d]] == ps[d];
    }
    forall a, b | 0 <= a < b < |strides| ensures strides[a] != strides[b] {
      Onto(dirs, a);
      Onto(dirs, b);
      var (i, j) := (Position(dirs, a), Position(dirs, b));
      assert ps[i] == strides[a] && ps[j] == strides[b];
    }
    SortedUnique(strides, sorted, dirs);
  }

  lemma {:induction false} StrictlyFalling(w: seq<int>, s: seq<int>, i: nat, j: nat)
    requires Compact(w, s) && Positive(s) && (forall d :: 0 <= d < |w| ==> w[d] >= 2) && i < j < |s|
    ensures s[i] > s[j]
    decreases j - i
  {
    assert Tight(w, s, i);
    MulMono(2, w[i + 1], s[i + 1]);
    if i + 1 < j { StrictlyFalling(w, s, i + 1, j); }
  }

  /** Row- and column-major strides of any positive extents come already sorted, so that the sort started from
      the same preference leaves the order alone. */
  lemma PreferredSorted(shape: seq<int>, strides: seq<int>, order: StrideOrder, fastest: int)
    requires Dense(shape, strides, Preferred(|shape|, order), fastest) && fastest > 0 && Positive(shape)
    ensures Descending(strides, Preferred(|shape|, order))
  {
    var dirs := Preferred(|shape|, order);
    var (pw, ps) := (Permuted(shape, dirs), Permuted(strides, dirs));
    CompactNested(pw, ps);
    NestedPositive(pw, ps);
    forall i, j | 0 <= i < j < |dirs| ensures strides[dirs[i]] >= strides[dirs[j]] {
      Falling(pw, ps, i, j);
      assert strides[dirs[i]] == ps[i] && strides[dirs[j]] == ps[j];
    }
  }

  lemma {:induction false} Falling(w: seq<int>, s: seq<int>, i: nat, j: nat)
    requires Nested(w, s) && Positive(s) && i < j < |s|
    ensures s[i] >= s[j]
    decreases j - i
  {
    assert Spans(w, s, i);
    MulMono(1, w[i + 1], s[i + 1]);
    if i + 1 < j { Falling(w, s, i + 1, j); }
  }

  /** Both recoveries run: build strides, sort them, compare. */
  method Recover(shape: seq<int>, dirs: seq<int>, fastest: int) returns (again: seq<int>)
    requires |shape| == |dirs| > 0 && IsPermutation(dirs) && fastest > 0
    requires forall d :: 0 <= d < |shape| ==> shape[d] >= 2
    ensures again == dirs
  {
    var built := new MDMapping(|shape|);
    built.InitializeShapeDirs(shape, dirs, fastest);
    var sorted := new MDMapping(|shape|);
    sorted.InitializeStrides(built.strides, Row);
    OrderRecovered(shape, built.strides, dirs, fastest, sorted.dirs);
    again := sorted.dirs;
  }

  method RecoverPreferred(shape: seq<int>, order: StrideOrder, fastest: int) returns (again: seq<int>)
    requires |shape| > 0 && Positive(shape) && fastest > 0 && (order.Row? || order.Column?)
    ensures again == Preferred(|shape|, order)
  {
    var built := new MDMapping(|shape|);
    built.InitializeShape(shape, order, fastest);
    PreferredSorted(shape, built.strides, order, fastest);
    ExchangedKeeps(built.strides, Preferred(|shape|, order), 0, 0);
    var sorted := new MDMapping(|shape|);
    sorted.InitializeStrides(built.strides, order);
    again := sorted.dirs;
  }

  // ---------- Row-major order ----------

  /** Both conversions of a mapping in a row: an in-bounds index comes back, and its offset is inside the memory. */
  method ThereAndBack(m: MDMapping, shape: seq<int>, x: seq<int>) returns (flat: int, again: seq<int>)
    requires m.Valid() && Roomy(shape, m.strides, m.dirs) && InBox(x, shape)
    ensures again == x && 0 <= flat < MemorySize(shape, m.strides, m.dirs)
  {
    RoundTrip(x, shape, m.strides, m.dirs);
    RoomyNonZero(shape, m.strides, m.dirs);
    flat := m.ToFlatIndex(x);
    NonZeroEverywhere(m.strides, m.dirs);
    again := m.ToMultiIndex(flat);
  }

  lemma NonZeroEverywhere(strides: seq<int>, dirs: seq<int>)
    requires IsPermutation(dirs) && |dirs| == |strides| && forall d :: 0 <= d < |dirs| ==> strides[dirs[d]] > 0
    ensures forall d :: 0 <= d < |strides| ==> strides[d] != 0
  {
    forall d | 0 <= d < |strides| ensures strides[d] != 0 {
      Onto(dirs, d);
      var i :| 0 <= i < |dirs| && dirs[i] == d;
    }
  }

  /** For row-major mappings `StackArray::operator<` agrees with `<` on offsets. */
  lemma RowMajorLexicographic(a: seq<int>, b: seq<int>, shape: seq<int>, strides: seq<int>)
    requires Roomy(shape, strides, Preferred(|shape|, Row)) && InBox(a, shape) && InBox(b, shape)
    ensures LexLess(a, b) <==> Dot(a, strides) < Dot(b, strides)
  {
    var dirs := Preferred(|shape|, Row);
    assert Permuted(shape, dirs) == shape && Permuted(strides, dirs) == strides;
    LexIsOffsetOrder(a, b, shape, strides);
  }
}
