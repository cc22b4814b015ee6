/** The layout check of `ArrayBase` and what it guarantees, for any number of dimensions. */
module LayoutChecks {
  import opened Arithmetic
  import opened Counting
  import opened Layouts
  import opened MDMappings
  import opened IndexTheorems

  // ---------- validateShapeAndStride ----------

  /** Sorted by stride, equal strides by direction number: the order a stable sort leaves. */
  predicate Before(stride: seq<int>, a: int, b: int)
    requires 0 <= a < |stride| && 0 <= b < |stride|
  {
    stride[a] < stride[b] || (stride[a] == stride[b] && a < b)
  }

  ghost predicate StableSorted(stride: seq<int>, order: seq<int>) {
    && IsPermutation(order) && |order| == |stride|
    && forall p, q :: 0 <= p < q < |order| ==> Before(stride, order[p], order[q])
  }

  /** The two asserts for one pair of neighbours in that order. */
  predicate PairOk(shape: seq<int>, stride: seq<int>, minor: int, major: int)
    requires |shape| == |stride| && 0 <= minor < |stride| && 0 <= major < |stride| && stride[minor] != 0
  {
    stride[major] >= stride[minor] * shape[minor] && stride[major] - Truncating(stride[major], stride[minor]) * stride[minor] == 0
  }

  predicate NonZero(stride: seq<int>) {
    forall d :: 0 <= d < |stride| ==> stride[d] != 0
  }

  ghost predicate PairsOk(shape: seq<int>, stride: seq<int>, order: seq<int>)
    requires |shape| == |stride| && StableSorted(stride, order) && NonZero(stride)
  {
    forall k :: 0 <= k < |order| - 1 ==> PairOk(shape, stride, order[k], order[k + 1])
  }

  /** No direction comes between `a` and `b`. */
  predicate Neighbours(stride: seq<int>, a: int, b: int)
    requires 0 <= a < |stride| && 0 <= b < |stride|
  {
    Before(stride, a, b) && forall c :: 0 <= c < |stride| ==> !(Before(stride, a, c) && Before(stride, c, b))
  }

  /** The layout passes: both asserts hold for every two neighbouring directions. */
  predicate Passes(shape: seq<int>, stride: seq<int>)
    requires |shape| == |stride| && NonZero(stride)
  {
    forall a, b :: 0 <= a < |stride| && 0 <= b < |stride| && Neighbours(stride, a, b) ==> PairOk(shape, stride, a, b)
  }

  /** Neighbouring directions are neighbours in the sorted order, and the other way round. */
  lemma PassesIff(shape: seq<int>, stride: seq<int>, order: seq<int>)
    requires |shape| == |stride| && NonZero(stride) && StableSorted(stride, order)
    ensures PairsOk(shape, stride, order) <==> Passes(shape, stride)
  {
    forall k | 0 <= k < |order| - 1 ensures Neighbours(stride, order[k], order[k + 1]) {
      SortedNeighbours(stride, order, k);
    }
    if PairsOk(shape, stride, order) {
      forall a, b | 0 <= a < |stride| && 0 <= b < |stride| && Neighbours(stride, a, b) ensures PairOk(shape, stride, a, b) {
        var p := NeighboursSorted(stride, order, a, b);
      }
    }
  }

  lemma SortedNeighbours(stride: seq<int>, order: seq<int>, k: nat)
    requires StableSorted(stride, order) && k + 1 < |order|
    ensures Neighbours(stride, order[k], order[k + 1])
  {
    forall c | 0 <= c < |stride| ensures !(Before(stride, order[k], c) && Before(stride, c, order[k + 1])) {
      Onto(order, c);
      var r :| 0 <= r < |order| && order[r] == c;
    }
  }

  lemma NeighboursSorted(stride: seq<int>, order: seq<int>, a: int, b: int) returns (p: nat)
    requires StableSorted(stride, order) && 0 <= a < |stride| && 0 <= b < |stride| && Neighbours(stride, a, b)
    ensures p + 1 < |order| && order[p] == a && order[p + 1] == b
  {
    Onto(order, a);
    Onto(order, b);
    p :| p < |order| && order[p] == a;
    var q :| 0 <= q < |order| && order[q] == b;
    assert p < q;
    assert Before(stride, a, order[p + 1]);
  }

  /** Before the insertion sort places direction `i`: the directions below it are sorted, the others untouched. */
  ghost predicate SortedBelow(stride: seq<int>, order: seq<int>, i: nat) {
    && IsPermutation(order) && |order| == |stride| && i <= |order|
    && (forall k :: i <= k < |order| ==> order[k] == k)
    && (forall p :: 0 <= p < i ==> order[p] < i)
    && forall p, q :: 0 <= p < q < i ==> Before(stride, order[p], order[q])
  }

  /** `insertionSort` on the directions, by stride. */
  method SortByStride(stride: seq<int>) returns (order: seq<int>)
    ensures StableSorted(stride, order)
  {
    order := seq(|stride|, i => i);
    if stride == [] { return; }
    for i := 1 to |stride|
      invariant SortedBelow(stride, order, i)
    {
      order := Sink(stride, order, i);
    }
  }

  /** The inner loop: direction `i` moves down past every larger stride. */
  method Sink(stride: seq<int>, unsorted: seq<int>, i: nat) returns (order: seq<int>)
    requires SortedBelow(stride, unsorted, i) && i < |stride|
    ensures SortedBelow(stride, order, i + 1)
  {
    order := unsorted;
    var j := i;
    while j > 0 && stride[order[j]] < stride[order[j - 1]]
      invariant 0 <= j <= i && Sinking(stride, order, i, j)
    {
      SinkStep(stride, order, i, j);
      order := order[j := order[j - 1]][j - 1 := order[j]];
      j := j - 1;
    }
  }

  /** Direction `i` has sunk to position `j`: the other directions up to `i` are sorted, and those above it larger. */
  ghost predicate Sinking(stride: seq<int>, order: seq<int>, i: nat, j: nat) {
    && IsPermutation(order) && |order| == |stride| && j <= i < |order| && order[j] == i
    && (forall k :: i < k < |order| ==> order[k] == k)
    && (forall p :: 0 <= p <= i ==> order[p] <= i)
    && (forall p, q :: 0 <= p < q <= i && p != j && q != j ==> Before(stride, order[p], order[q]))
    && forall q :: j < q <= i ==> stride[i] < stride[order[q]]
  }

  lemma SinkStep(stride: seq<int>, order: seq<int>, i: nat, j: nat)
    requires Sinking(stride, order, i, j) && j > 0 && stride[order[j]] < stride[order[j - 1]]
    ensures Sinking(stride, order[j := order[j - 1]][j - 1 := order[j]], i, j - 1)
  {
    var next := order[j := order[j - 1]][j - 1 := order[j]];
    assert forall k :: 0 <= k < |order| ==> next[k] == order[if k == j then j - 1 else if k == j - 1 then j else k];
  }

  /** Along the sorted order each stride covers the block before it and is a multiple of the stride before it. */
  ghost predicate Stacked(shape: seq<int>, stride: seq<int>, order: seq<int>)
    requires |shape| == |stride| && StableSorted(stride, order) && NonZero(stride)
  {
    forall k :: 0 <= k < |order| - 1 ==>
      stride[order[k + 1]] >= stride[order[k]] * shape[order[k]] && stride[order[k + 1]] % stride[order[k]] == 0
  }

  /** The same of any two directions, neighbours or not. */
  ghost predicate AllStacked(shape: seq<int>, stride: seq<int>)
    requires |shape| == |stride| && NonZero(stride)
  {
    forall a, b :: 0 <= a < |stride| && 0 <= b < |stride| && Before(stride, a, b) ==>
      stride[b] >= stride[a] * shape[a] && stride[b] % stride[a] == 0
  }

  /** C++ leaves no remainder exactly when the Euclidean one is zero, whatever the signs. */
  lemma PairOkIff(shape: seq<int>, stride: seq<int>, minor: nat, major: nat)
    requires |shape| == |stride| && minor < |stride| && major < |stride| && stride[minor] != 0
    ensures PairOk(shape, stride, minor, major) <==>
      stride[major] >= stride[minor] * shape[minor] && stride[major] % stride[minor] == 0
  {
    NoRemainder(stride[major], stride[minor]);
  }

  lemma StackedIff(shape: seq<int>, stride: seq<int>, order: seq<int>)
    requires |shape| == |stride| && NonZero(stride) && StableSorted(stride, order)
    ensures Stacked(shape, stride, order) <==> Passes(shape, stride)
  {
    PassesIff(shape, stride, order);
    forall k | 0 <= k < |order| - 1
      ensures PairOk(shape, stride, order[k], order[k + 1]) <==>
        stride[order[k + 1]] >= stride[order[k]] * shape[order[k]] && stride[order[k + 1]] % stride[order[k]] == 0
    {
      PairOkIff(shape, stride, order[k], order[k + 1]);
    }
  }

  /** With positive extents and strides the check on neighbours is a check on all pairs: the smaller of two strides divides
      the larger, which covers its block. */
  lemma AllStackedIff(shape: seq<int>, stride: seq<int>)
    requires |shape| == |stride| && Positive(shape) && Positive(stride)
    ensures Passes(shape, stride) <==> AllStacked(shape, stride)
  {
    if Passes(shape, stride) {
      forall a, b | 0 <= a < |stride| && 0 <= b < |stride| && Before(stride, a, b)
        ensures stride[b] >= stride[a] * shape[a] && stride[b] % stride[a] == 0
      {
        PairStacked(shape, stride, a, b);
      }
    } else {
      var a, b :| 0 <= a < |stride| && 0 <= b < |stride| && Neighbours(stride, a, b) && !PairOk(shape, stride, a, b);
      PairOkIff(shape, stride, a, b);
    }
  }

  /** The directions strictly between two others. */
  ghost function Between(stride: seq<int>, a: nat, b: nat): set<int>
    requires a < |stride| && b < |stride|
  {
    set c | 0 <= c < |stride| && Before(stride, a, c) && Before(stride, c, b)
  }

  lemma {:induction false} PairStacked(shape: seq<int>, stride: seq<int>, a: nat, b: nat)
    requires |shape| == |stride| && Positive(shape) && Positive(stride) && Passes(shape, stride)
    requires a < |stride| && b < |stride| && Before(stride, a, b)
    ensures stride[b] >= stride[a] * shape[a] && stride[b] % stride[a] == 0
    decreases Between(stride, a, b)
  {
    var c := Successor(stride, a, b);
    assert PairOk(shape, stride, a, c);
    PairOkIff(shape, stride, a, c);
    if c != b {
      assert c in Between(stride, a, b) && c !in Between(stride, c, b);
      PairStacked(shape, stride, c, b);
      MultipleOfMultiple(stride[b], stride[c], stride[a]);
    }
  }

  /** A stride of seven over a row of stride two is refused: seven is no multiple of two. */
  lemma SevenOverTwoRefused()
    ensures !Passes([2, 3], [7, 2])
  {
    assert Before([7, 2], 1, 0) && [7, 2][0] % [7, 2][1] == 1;
    AllStackedIff([2, 3], [7, 2]);
  }

  method ValidateShapeAndStride(shape: seq<int>, stride: seq<int>) returns (ok: bool, ghost sorted: seq<int>)
    requires |shape| == |stride| > 0 && NonZero(stride)
    ensures StableSorted(stride, sorted)
    ensures ok <==> Passes(shape, stride)
    ensures ok <==> Stacked(shape, stride, sorted)
    ensures Positive(shape) && Positive(stride) ==> (ok <==> AllStacked(shape, stride))
  {
    var order := SortByStride(stride);
    sorted := order;
    ok := true;
    for k := 0 to |stride| - 1
      invariant ok <==> forall e :: 0 <= e < k ==> PairOk(shape, stride, order[e], order[e + 1])
    {
      ok := ok && PairOk(shape, stride, order[k], order[k + 1]);
    }
    PassesIff(shape, stride, order);
    StackedIff(shape, stride, order);
    if Positive(shape) && Positive(stride) { AllStackedIff(shape, stride); }
  }

  // ---------- What an accepted layout promises ----------

  /** A shape and strides that the check accepts. */
  ghost predicate Accepted(shape: seq<int>, stride: seq<int>) {
    |shape| == |stride| > 0 && Positive(shape) && Positive(stride) && Passes(shape, stride)
  }

  /** A direction order as the mapping keeps it: slowest first. */
  ghost predicate SlowestFirst(stride: seq<int>, dirs: seq<int>) {
    IsPermutation(dirs) && |dirs| == |stride| && Descending(stride, dirs)
  }

  /** The direction right after `a`, when some direction comes after it. */
  lemma Successor(stride: seq<int>, a: nat, b: nat) returns (c: nat)
    requires a < |stride| && b < |stride| && Before(stride, a, b)
    ensures c < |stride| && Neighbours(stride, a, c) && (c == b || Before(stride, c, b))
  {
    c := b;
    for i := 0 to |stride|
      invariant c < |stride| && Before(stride, a, c) && (c == b || Before(stride, c, b))
      invariant forall e :: 0 <= e < i ==> !(Before(stride, a, e) && Before(stride, e, c))
    {
      if Before(stride, a, i) && Before(stride, i, c) { c := i; }
    }
  }

  /** Of two directions with the same stride the one with the smaller number has extent one. */
  lemma TieShort(shape: seq<int>, stride: seq<int>, a: nat, b: nat)
    requires Accepted(shape, stride) && a < b < |stride| && stride[a] == stride[b]
    ensures shape[a] == 1
  {
    var c := Successor(stride, a, b);
    assert PairOk(shape, stride, a, c);
  }

  /** A larger stride spans the whole block of a smaller one. */
  lemma LargerSpans(shape: seq<int>, stride: seq<int>, a: nat, b: nat)
    requires Accepted(shape, stride) && a < |stride| && b < |stride| && stride[a] < stride[b]
    ensures stride[b] >= stride[a] * shape[a]
  {
    var c := Successor(stride, a, b);
    assert PairOk(shape, stride, a, c);
  }

  /** Place `d` of a direction order and the next one are tied, and the next one is longer than one. */
  predicate LongTie(shape: seq<int>, stride: seq<int>, dirs: seq<int>, d: nat)
    requires |shape| == |stride| && Pointing(dirs, |stride|) && d + 1 < |dirs|
  {
    stride[dirs[d]] == stride[dirs[d + 1]] && shape[dirs[d + 1]] != 1
  }

  ghost predicate NoLongTie(shape: seq<int>, stride: seq<int>, dirs: seq<int>)
    requires |shape| == |stride| && Pointing(dirs, |stride|)
  {
    forall d :: 0 <= d < |dirs| - 1 ==> !LongTie(shape, stride, dirs, d)
  }

  /** An accepted layout leaves room along the mapping's own direction order exactly when no tie in it puts a longer
      extent behind. */
  lemma RoomyIff(shape: seq<int>, stride: seq<int>, dirs: seq<int>)
    requires Accepted(shape, stride) && SlowestFirst(stride, dirs)
    ensures Roomy(shape, stride, dirs) <==> NoLongTie(shape, stride, dirs)
  {
    var (w, s) := (Permuted(shape, dirs), Permuted(stride, dirs));
    forall d | 0 <= d < |dirs| - 1 ensures Spans(w, s, d) <==> !LongTie(shape, stride, dirs, d) {
      var (a, b) := (dirs[d], dirs[d + 1]);
      if stride[a] > stride[b] {
        LargerSpans(shape, stride, b, a);
      } else if shape[b] >= 2 {
        MulMono(2, shape[b], stride[b]);
      }
    }
  }

  /** The order of the check, reversed, always has room: elements never share a place. */
  lemma RoomyAlongCheck(shape: seq<int>, stride: seq<int>, order: seq<int>)
    requires Accepted(shape, stride) && StableSorted(stride, order)
    ensures Roomy(shape, stride, Reversed(order))
  {
    var (n, dirs) := (|order|, Reversed(order));
    PassesIff(shape, stride, order);
    forall d | 0 <= d < n - 1 ensures Spans(Permuted(shape, dirs), Permuted(stride, dirs), d) {
      assert PairOk(shape, stride, order[n - 2 - d], order[n - 2 - d + 1]);
    }
  }

  function Reversed(order: seq<int>): seq<int> {
    seq(|order|, i requires 0 <= i < |order| => order[|order| - 1 - i])
  }

  /** Distinct elements of an accepted layout never share an offset, whatever the ties. */
  lemma AcceptedDistinct(shape: seq<int>, stride: seq<int>, order: seq<int>, x: seq<int>, y: seq<int>)
    requires Accepted(shape, stride) && StableSorted(stride, order) && InBox(x, shape) && InBox(y, shape) && x != y
    ensures Dot(x, stride) != Dot(y, stride)
  {
    RoomyAlongCheck(shape, stride, order);
    OffsetsDistinct(x, y, shape, stride, Reversed(order));
  }

  /** A direction tied with the slowest one is longer than one. */
  predicate SlowestTie(shape: seq<int>, stride: seq<int>, dirs: seq<int>, e: nat)
    requires |shape| == |stride| && Pointing(dirs, |stride|) && |dirs| > 0 && e < |stride|
  {
    e != dirs[0] && stride[e] == stride[dirs[0]] && shape[e] != 1
  }

  ghost predicate OffsetsFit(shape: seq<int>, stride: seq<int>, dirs: seq<int>)
    requires |shape| == |stride| == |dirs| > 0 && Pointing(dirs, |stride|)
  {
    forall x :: InBox(x, shape) ==> 0 <= Dot(x, stride) < MemorySize(shape, stride, dirs)
  }

  /** Every offset of an accepted layout is below `memorySize` exactly when no direction tied with the slowest is
      longer than one. */
  lemma OffsetsFitIff(shape: seq<int>, stride: seq<int>, order: seq<int>, dirs: seq<int>)
    requires Accepted(shape, stride) && StableSorted(stride, order) && SlowestFirst(stride, dirs)
    ensures OffsetsFit(shape, stride, dirs) <==> forall e :: 0 <= e < |stride| ==> !SlowestTie(shape, stride, dirs, e)
  {
    if e :| 0 <= e < |stride| && SlowestTie(shape, stride, dirs, e) {
      TieShort(shape, stride, if e < dirs[0] then e else dirs[0], if e < dirs[0] then dirs[0] else e);
      UnitOffset(stride, e);
      assert InBox(Unit(|shape|, e), shape);
    } else {
      var last := order[|order| - 1];
      RoomyAlongCheck(shape, stride, order);
      SlowestIsLargest(stride, order, dirs);
      MulMono(1, shape[dirs[0]], stride[dirs[0]]);
      assert !SlowestTie(shape, stride, dirs, last);
      forall x | InBox(x, shape) ensures 0 <= Dot(x, stride) < MemorySize(shape, stride, dirs) {
        RoundTrip(x, shape, stride, Reversed(order));
      }
    }
  }

  lemma SlowestIsLargest(stride: seq<int>, order: seq<int>, dirs: seq<int>)
    requires StableSorted(stride, order) && SlowestFirst(stride, dirs) && |stride| > 0
    ensures stride[order[|order| - 1]] == stride[dirs[0]]
  {
    Onto(dirs, order[|order| - 1]);
    Onto(order, dirs[0]);
    var (p, q) := (Position(dirs, order[|order| - 1]), Position(order, dirs[0]));
  }

  /** The multi-index that is one in direction `e` and zero elsewhere. */
  function Unit(n: nat, e: nat): seq<int>
    requires e < n
  {
    seq(n, i => if i == e then 1 else 0)
  }

  lemma {:induction false} UnitOffset(s: seq<int>, e: nat)
    requires e < |s|
    ensures Dot(Unit(|s|, e), s) == s[e]
  {
    DotCons(Unit(|s|, e), s);
    if e > 0 {
      assert Unit(|s|, e)[1..] == Unit(|s| - 1, e - 1);
      UnitOffset(s[1..], e - 1);
    } else {
      ZeroOffset(Unit(|s|, e)[1..], s[1..]);
    }
  }

  lemma {:induction false} ZeroOffset(x: seq<int>, s: seq<int>)
    requires |x| == |s| && forall i :: 0 <= i < |x| ==> x[i] == 0
    ensures Dot(x, s) == 0
  {
    if x != [] {
      DotCons(x, s);
      ZeroOffset(x[1..], s[1..]);
    }
  }

  ghost predicate AllRecovered(shape: seq<int>, stride: seq<int>, dirs: seq<int>)
    requires |shape| == |stride| == |dirs| && Positive(stride) && Pointing(dirs, |stride|)
  {
    forall x :: InBox(x, shape) ==> MultiIndex(Dot(x, stride), stride, dirs) == x
  }

  /** `toMultiIndex` undoes `toFlatIndex` on an accepted layout exactly when no tie puts a longer extent behind. */
  lemma RecoveredIff(shape: seq<int>, stride: seq<int>, dirs: seq<int>)
    requires Accepted(shape, stride) && SlowestFirst(stride, dirs)
    ensures AllRecovered(shape, stride, dirs) <==> NoLongTie(shape, stride, dirs)
  {
    RoomyIff(shape, stride, dirs);
    if d :| 0 <= d < |dirs| - 1 && LongTie(shape, stride, dirs, d) {
      NotRecovered(shape, stride, dirs, d);
    } else {
      forall x | InBox(x, shape) ensures MultiIndex(Dot(x, stride), stride, dirs) == x {
        RoundTrip(x, shape, stride, dirs);
      }
    }
  }

  lemma NotRecovered(shape: seq<int>, stride: seq<int>, dirs: seq<int>, d: nat)
    requires |shape| == |stride| && Positive(shape) && Positive(stride) && SlowestFirst(stride, dirs)
    requires d + 1 < |dirs| && LongTie(shape, stride, dirs, d)
    ensures var x := Unit(|shape|, dirs[d + 1]); InBox(x, shape) && MultiIndex(Dot(x, stride), stride, dirs) != x
  {
    var (t, s) := (dirs[d + 1], Permuted(stride, dirs));
    UnitOffset(stride, t);
    MultiIndexPermuted(stride[t], stride, dirs);
    FirstTieTakes(stride[t], s, d);
    assert Permuted(MultiIndex(stride[t], stride, dirs), dirs)[d + 1] == 0;
  }

  /** Peeling off quotients gives the whole of `v` to the first of the strides equal to `v`. */
  lemma {:induction false} FirstTieTakes(v: int, s: seq<int>, d: nat)
    requires Positive(s) && v > 0 && d + 1 < |s| && s[d] == v && forall i :: 0 <= i <= d ==> s[i] >= v
    ensures Unflatten(v, s)[d + 1] == 0
    decreases |s|
  {
    if s[0] == v {
      DivUnique(v, v, 1, 0);
      ZeroUnflattened(s[1..], d);
    } else {
      DivUnique(v, s[0], 0, v);
      FirstTieTakes(v, s[1..], d - 1);
    }
  }

  lemma {:induction false} ZeroUnflattened(s: seq<int>, d: nat)
    requires Positive(s) && d < |s|
    ensures Unflatten(0, s)[d] == 0
    decreases |s|
  {
    DivUnique(0, s[0], 0, 0);
    if d > 0 { ZeroUnflattened(s[1..], d - 1); }
  }

  /** The constructor of `ArrayBase` from a shape and strides: it sorts the directions with ROW preferred and then checks. */
  method FromStrides(shape: seq<int>, stride: seq<int>) returns (mapping: MDMapping, ok: bool)
    requires |shape| == |stride| > 0 && NonZero(stride)
    ensures fresh(mapping) && mapping.Valid() && mapping.strides == stride
    ensures mapping.dirs == Exchanged(stride, Preferred(|stride|, Row), 0, 0)
    ensures ok <==> Passes(shape, stride)
    ensures Positive(shape) && Positive(stride) ==> (ok <==> AllStacked(shape, stride))
    ensures ok && Positive(shape) && Positive(stride) ==>
      && (Roomy(shape, stride, mapping.dirs) <==> NoLongTie(shape, stride, mapping.dirs))
      && (AllRecovered(shape, stride, mapping.dirs) <==> NoLongTie(shape, stride, mapping.dirs))
      && (OffsetsFit(shape, stride, mapping.dirs) <==>
           forall e :: 0 <= e < |stride| ==> !SlowestTie(shape, stride, mapping.dirs, e))
  {
    mapping := new MDMapping(|stride|);
    mapping.InitializeStrides(stride, Row);
    ghost var order;
    ok, order := ValidateShapeAndStride(shape, stride);
    if ok && Positive(shape) && Positive(stride) {
      RoomyIff(shape, stride, mapping.dirs);
      RecoveredIff(shape, stride, mapping.dirs);
      OffsetsFitIff(shape, stride, order, mapping.dirs);
    }
  }

  /** An accepted layout that breaks both promises: a 1 by 5 array with strides 1 and 1. Its last element lies beyond
      `memorySize`, and its offset leads to another index. */
  lemma OneByFive()
    ensures Accepted([1, 5], [1, 1])
    ensures var dirs := Exchanged([1, 1], Preferred(2, Row), 0, 0);
      && dirs == [0, 1] && LongTie([1, 5], [1, 1], dirs, 0) && SlowestTie([1, 5], [1, 1], dirs, 1)
      && InBox([0, 4], [1, 5]) && Dot([0, 4], [1, 1]) == 4 && MemorySize([1, 5], [1, 1], dirs) == 1
      && MultiIndex(4, [1, 1], dirs) == [4, 0]
  {
  }

  // ---------- Dense row-major layouts ----------

  /** Every direction of extent one comes before every longer one. */
  predicate OnesFirst(shape: seq<int>) {
    forall d, e :: 0 <= d < e < |shape| && shape[e] == 1 ==> shape[d] == 1
  }

  /** The dense row-major strides of a shape pass the check exactly when extents of one come first. */
  lemma RowMajorPassesIff(shape: seq<int>, stride: seq<int>, fastest: int)
    requires Dense(shape, stride, Preferred(|shape|, Row), fastest) && fastest > 0 && Positive(shape)
    ensures Positive(stride) && (Passes(shape, stride) <==> OnesFirst(shape))
  {
    RowPermutes(shape);
    RowPermutes(stride);
    CompactNested(shape, stride);
    NestedPositive(shape, stride);
    if OnesFirst(shape) {
      forall a, b | 0 <= a < |stride| && 0 <= b < |stride| && Neighbours(stride, a, b) ensures PairOk(shape, stride, a, b) {
        NeighboursPass(shape, stride, a, b);
      }
    } else {
      var d, e :| 0 <= d < e < |shape| && shape[e] == 1 && shape[d] != 1;
      LongThenOne(shape, d, e);
      var a :| 0 <= a < |shape| - 1 && shape[a] >= 2 && shape[a + 1] == 1;
      LongThenOneRefused(shape, stride, a);
    }
  }

  /** The check refuses a 5 by 1 array. */
  lemma FiveByOneRefused()
    ensures Dense([5, 1], [1, 1], Preferred(2, Row), 1) && !Passes([5, 1], [1, 1])
  {
    assert Permuted([5, 1], Preferred(2, Row)) == [5, 1] && Permuted([1, 1], Preferred(2, Row)) == [1, 1];
    assert Tight([5, 1], [1, 1], 0);
    RowMajorPassesIff([5, 1], [1, 1], 1);
    assert [5, 1][1] == 1 && [5, 1][0] != 1;
  }

  lemma LongThenOneRefused(shape: seq<int>, stride: seq<int>, a: nat)
    requires Compact(shape, stride) && Positive(stride) && a + 1 < |shape| && shape[a] >= 2 && shape[a + 1] == 1
    ensures !Passes(shape, stride)
  {
    assert Tight(shape, stride, a);
    assert Neighbours(stride, a, a + 1);
    MulMono(2, shape[a], stride[a]);
    assert !PairOk(shape, stride, a, a + 1);
  }

  lemma {:induction false} LongThenOne(shape: seq<int>, d: nat, e: nat)
    requires Positive(shape) && d < e < |shape| && shape[e] == 1 && shape[d] != 1
    ensures exists a :: 0 <= a < |shape| - 1 && shape[a] >= 2 && shape[a + 1] == 1
    decreases e
  {
    if shape[e - 1] == 1 { LongThenOne(shape, d, e - 1); }
  }

  lemma NeighboursPass(shape: seq<int>, stride: seq<int>, a: nat, b: nat)
    requires Compact(shape, stride) && Nested(shape, stride) && Positive(stride) && OnesFirst(shape)
    requires a < |stride| && b < |stride| && Before(stride, a, b)
    ensures PairOk(shape, stride, a, b)
  {
    if stride[a] == stride[b] {
      TiedExtent(shape, stride, a, b);
      DivUnique(stride[b], stride[a], 1, 0);
    } else {
      if a < b { Falling(shape, stride, a, b); assert false; }
      Reaches(shape, stride, b, a);
    }
    TruncatingNat(stride[b], stride[a]);
  }

  /** Equal strides of a compact row-major layout: the later direction has extent one. */
  lemma TiedExtent(w: seq<int>, s: seq<int>, a: nat, b: nat)
    requires Nested(w, s) && Positive(s) && a < b < |s| && s[a] == s[b]
    ensures w[b] == 1
  {
    if a < b - 1 { Falling(w, s, a, b - 1); }
    assert Spans(w, s, b - 1);
    if w[b] >= 2 { MulMono(2, w[b], s[b]); assert false; }
  }

  /** A slower stride is a multiple of every faster block. */
  lemma {:induction false} Reaches(w: seq<int>, s: seq<int>, b: nat, a: nat)
    requires Compact(w, s) && Positive(s) && Positive(w) && b < a < |s|
    ensures s[b] >= s[a] * w[a] && s[b] % s[a] == 0
    decreases a - b
  {
    assert Tight(w, s, b);
    if b + 1 < a {
      Reaches(w, s, b + 1, a);
      var q := s[b + 1] / s[a];
      MulMono(1, w[b + 1], s[b + 1]);
      MulAssoc(w[b + 1], q, s[a]);
      DivUnique(s[b], s[a], w[b + 1] * q, 0);
    } else {
      DivUnique(s[b], s[a], w[a], 0);
    }
  }
}
