/** Slices, subspans and the layout check of `ArrayBase` and `ArrayView`, for any number of dimensions. */
module ArrayViews {
  import opened Arithmetic
  import opened Counting
  import opened Layouts
  import opened MDMappings
  import opened IndexTheorems
  import opened LayoutChecks
  import opened Wrappers

  // ---------- Slices of slices ----------

  /** An `ArrayView`: where its data starts in the underlying memory, its extents and its mapping. */
  datatype View = View(start: int, shape: seq<int>, strides: seq<int>, dirs: seq<int>, size: int)

  ghost predicate ViewOk(v: View) {
    |v.shape| == |v.strides| == |v.dirs| > 0 && NonZero(v.strides) && Pointing(v.dirs, |v.shape|)
  }

  function ElementAt(v: View, x: seq<int>): int
    requires |x| == |v.strides|
  {
    v.start + Dot(x, v.strides)
  }

  /** What indexing gives: a slice, which is the indices so far into the base array, a place in memory, or an abort. */
  datatype Outcome = Sub(indices: seq<int>) | Element(place: int) | Abort

  /** The constructor of `ArraySubslice`: the extents and strides of the remaining directions go through the layout
      check, which a slice of one direction does not have. */
  predicate SliceExists(v: View, n: nat)
    requires |v.shape| == |v.strides| && NonZero(v.strides) && n < |v.shape|
  {
    n + 1 == |v.shape| || Passes(v.shape[n..], v.strides[n..])
  }

  /** Indexing the base array or a slice with `more` indices. A slice of two or more directions appends them to its own
      and indexes the base array. A slice of one direction, or a one-dimensional view, is indexed by itself. */
  function Indexed(v: View, indices: seq<int>, more: seq<int>): Outcome
    requires ViewOk(v) && more != [] && |indices| + |more| <= |v.shape|
  {
    if |indices| + |more| < |v.shape| then
      if SliceExists(v, |indices + more|) then Sub(indices + more) else Abort
    else if |more| == 1 then OnLine(v, indices, more[0])
    else Reached(v, indices + more)
  }

  /** A full set of indices is checked against `memorySize`. */
  function Reached(v: View, x: seq<int>): Outcome
    requires ViewOk(v) && |x| == |v.shape|
  {
    if 0 <= Dot(x, v.strides) < MemorySize(v.shape, v.strides, v.dirs) then Element(ElementAt(v, x)) else Abort
  }

  /** `data()` of the slice with these indices. */
  function SliceStart(v: View, indices: seq<int>): int
    requires |indices| <= |v.strides|
  {
    v.start + Dot(indices, v.strides[..|indices|])
  }

  /** `operator[]` of a one-dimensional array: the index is compared with the memory size before it is multiplied by
      the stride. */
  function OnLine(v: View, indices: seq<int>, i: int): Outcome
    requires ViewOk(v) && |indices| + 1 == |v.shape|
  {
    var (stride, extent) := (v.strides[|indices|], v.shape[|indices|]);
    if 0 <= i < stride * extent then Element(SliceStart(v, indices) + i * stride) else Abort
  }

  function Concat(groups: seq<seq<int>>): seq<int> {
    if groups == [] then [] else groups[0] + Concat(groups[1..])
  }

  /** The indices are given in groups, each with at least one. */
  ghost predicate Splits(n: nat, done: nat, groups: seq<seq<int>>) {
    groups != [] && (forall i :: 0 <= i < |groups| ==> groups[i] != []) && done + |Concat(groups)| == n
  }

  /** Indexing group after group, starting from a slice. */
  function Staged(v: View, indices: seq<int>, groups: seq<seq<int>>): Outcome
    requires ViewOk(v) && Splits(|v.shape|, |indices|, groups)
    decreases |groups|
  {
    if |groups| == 1 then
      assert groups[0] + Concat(groups[1..]) == groups[0];
      Indexed(v, indices, groups[0])
    else
      LastLeft(groups);
      var slice := Indexed(v, indices, groups[0]);
      if slice.Abort? then Abort else Staged(v, indices + groups[0], groups[1..])
  }

  lemma {:induction false} LastLeft(groups: seq<seq<int>>)
    requires groups != [] && forall i :: 0 <= i < |groups| ==> groups[i] != []
    ensures |Concat(groups)| > 0
    ensures |groups| > 1 ==> |Concat(groups[1..])| > 0 && |groups[0]| < |Concat(groups)|
    decreases |groups|
  {
    if |groups| > 1 { LastLeft(groups[1..]); }
  }

  /** Every slice on the way exists. */
  ghost predicate StagesExist(v: View, done: nat, groups: seq<seq<int>>)
    requires ViewOk(v) && Splits(|v.shape|, done, groups)
    decreases |groups|
  {
    if |groups| == 1 then true
    else
      LastLeft(groups);
      SliceExists(v, done + |groups[0]|) && StagesExist(v, done + |groups[0]|, groups[1..])
  }

  /** The bounds check of the last stage: a single last index is compared, unscaled, with stride times extent of the
      last direction; otherwise the whole offset is compared with `memorySize`. */
  predicate LastPasses(v: View, x: seq<int>, last: nat)
    requires ViewOk(v) && |x| == |v.shape|
  {
    var d := |x| - 1;
    if last == 1 then 0 <= x[d] < v.strides[d] * v.shape[d]
    else 0 <= Dot(x, v.strides) < MemorySize(v.shape, v.strides, v.dirs)
  }

  /** For any view and any way of splitting the indices over nested slices: indexing succeeds exactly when every slice
      on the way exists and the last stage passes its check, and then it reaches the element of the full multi-index. */
  lemma {:induction false} StagedIs(v: View, indices: seq<int>, groups: seq<seq<int>>)
    requires ViewOk(v) && Splits(|v.shape|, |indices|, groups)
    ensures var x := indices + Concat(groups);
      Staged(v, indices, groups) ==
        if StagesExist(v, |indices|, groups) && LastPasses(v, x, |groups[|groups| - 1]|) then Element(ElementAt(v, x)) else Abort
    decreases |groups|
  {
    if |groups| == 1 {
      assert Concat(groups) == groups[0] + Concat(groups[1..]) == groups[0];
      LastStage(v, indices, groups[0]);
    } else {
      LastLeft(groups);
      StagedIs(v, indices + groups[0], groups[1..]);
      assert indices + Concat(groups) == indices + groups[0] + Concat(groups[1..]);
    }
  }

  lemma LastStage(v: View, indices: seq<int>, last: seq<int>)
    requires ViewOk(v) && last != [] && |indices| + |last| == |v.shape|
    ensures var x := indices + last;
      Indexed(v, indices, last) == if LastPasses(v, x, |last|) then Element(ElementAt(v, x)) else Abort
  {
    SliceData(v, indices, last);
    if |last| == 1 { SingleOffset(last, v.strides[|indices|..]); }
  }

  lemma SingleOffset(x: seq<int>, s: seq<int>)
    requires |x| == |s| == 1
    ensures Dot(x, s) == x[0] * s[0]
  {
    DotCons(x, s);
  }

  /** The element of a full multi-index is found from the data of any slice on the way, with the slice's own strides. */
  lemma SliceData(v: View, indices: seq<int>, rest: seq<int>)
    requires ViewOk(v) && |indices| + |rest| == |v.shape|
    ensures ElementAt(v, indices + rest) == SliceStart(v, indices) + Dot(rest, v.strides[|indices|..])
  {
    DotSplit(indices, rest, v.strides);
  }

  // ---------- The unscaled bounds check ----------

  /** An index that passes against `memory` before it is multiplied by `stride` stays below `memory` afterwards. */
  ghost predicate StaysInside(memory: int, stride: int) {
    forall i :: 0 <= i < memory ==> InsideAt(memory, stride, i)
  }

  predicate InsideAt(memory: int, stride: int, i: int) {
    0 <= i * stride < memory
  }

  lemma StaysInsideIff(memory: int, stride: int)
    requires memory >= stride > 0
    ensures StaysInside(memory, stride) <==> stride == 1
  {
    if stride == 1 {
      assert forall i :: 0 <= i < memory ==> InsideAt(memory, stride, i);
    } else {
      MulMono(2, stride, memory - 1);
      assert !InsideAt(memory, stride, memory - 1);
    }
  }

  /** The check of a one-direction slice keeps every access inside the slice, and lets only its own indices pass, exactly
      when the stride of its direction is one. */
  lemma LineCheckIff(v: View, indices: seq<int>)
    requires ViewOk(v) && |indices| + 1 == |v.shape| && Positive(v.shape) && Positive(v.strides)
    ensures var (stride, extent) := (v.strides[|indices|], v.shape[|indices|]);
      && (StaysInside(stride * extent, stride) <==> stride == 1)
      && ((forall i :: OnLine(v, indices, i).Element? <==> 0 <= i < extent) <==> stride == 1)
  {
    var (stride, extent) := (v.strides[|indices|], v.shape[|indices|]);
    MulMono(1, extent, stride);
    StaysInsideIff(stride * extent, stride);
    if stride > 1 {
      MulMono(2, stride, extent);
      assert OnLine(v, indices, extent).Element?;
    }
  }

  /** `flatIndex` makes the same comparison with `memorySize` and the smallest stride. */
  lemma FlatIndexCheckIff(shape: seq<int>, strides: seq<int>, dirs: seq<int>)
    requires Roomy(shape, strides, dirs) && Descending(strides, dirs)
    ensures var smallest := strides[dirs[|dirs| - 1]];
      StaysInside(MemorySize(shape, strides, dirs), smallest) <==> smallest == 1
  {
    RoomyNonZero(shape, strides, dirs);
    assert shape[dirs[0]] == Permuted(shape, dirs)[0] > 0;
    MulMono(1, shape[dirs[0]], strides[dirs[0]]);
    assert |dirs| > 1 ==> strides[dirs[0]] >= strides[dirs[|dirs| - 1]];
    StaysInsideIff(MemorySize(shape, strides, dirs), strides[dirs[|dirs| - 1]]);
  }

  /** All indices at once on a dense layout, in any direction order: the element is reached exactly when its offset lies in
      the memory of the array. Single indices are not checked. */
  lemma WholeCheckIff(v: View, x: seq<int>, fastest: int)
    requires ViewOk(v) && Dense(v.shape, v.strides, v.dirs, fastest) && fastest > 0 && Positive(v.shape) && |x| == |v.shape| > 1
    ensures Splits(|v.shape|, 0, [x])
    ensures Staged(v, [], [x]) ==
      if 0 <= Dot(x, v.strides) < fastest * Product(v.shape) then Element(v.start + Dot(x, v.strides)) else Abort
  {
    DenseRoomy(v.shape, v.strides, v.dirs, fastest);
    assert Concat([x]) == x + Concat([x][1..]) == x;
    assert [] + x == x;
  }

  /** A 2 by 3 array with strides 6 and 2 has twelve places. Index 5 of its second row passes and reads place 16. */
  lemma RowOfStrideTwo()
    ensures var v := View(0, [2, 3], [6, 2], [0, 1], 6);
      && ViewOk(v) && Roomy(v.shape, v.strides, v.dirs) && MemorySize(v.shape, v.strides, v.dirs) == 12
      && Staged(v, [], [[1], [5]]) == Element(16)
  {
    var v := View(0, [2, 3], [6, 2], [0, 1], 6);
    assert Permuted(v.shape, v.dirs) == v.shape && Permuted(v.strides, v.dirs) == v.strides && Spans(v.shape, v.strides, 0);
    TwoStages(v, 1, 5);
  }

  /** In the 1 by 5 array with strides 1 and 1 the last element is reached in two stages, and not in one. */
  lemma OneByFiveInStages()
    ensures var v := View(0, [1, 5], [1, 1], [0, 1], 5);
      ViewOk(v) && Staged(v, [], [[0], [4]]) == Element(4) && Staged(v, [], [[0, 4]]) == Abort
  {
    var v := View(0, [1, 5], [1, 1], [0, 1], 5);
    TwoStages(v, 0, 4);
    assert Concat([[0, 4]]) == [0, 4] + Concat([[0, 4]][1..]) == [0, 4];
    StagedIs(v, [], [[0, 4]]);
    assert [] + [0, 4] == [0, 4];
    OffsetOfTwo([0, 4], v.strides);
  }

  /** Two single indices into a two-dimensional array. */
  lemma TwoStages(v: View, i: int, j: int)
    requires ViewOk(v) && |v.shape| == 2
    ensures Splits(2, 0, [[i], [j]])
    ensures Staged(v, [], [[i], [j]]) ==
      if 0 <= j < v.strides[1] * v.shape[1] then Element(v.start + i * v.strides[0] + j * v.strides[1]) else Abort
  {
    var groups := [[i], [j]];
    assert groups[1..] == [[j]] && groups[1..][1..] == [];
    assert Concat(groups[1..]) == [j] + Concat(groups[1..][1..]) == [j];
    assert Concat(groups) == [i] + [j] == [i, j];
    StagedIs(v, [], groups);
    assert [] + Concat(groups) == [i, j];
    OffsetOfTwo([i, j], v.strides);
  }

  lemma OffsetOfTwo(x: seq<int>, s: seq<int>)
    requires |x| == |s| == 2
    ensures Dot(x, s) == x[0] * s[0] + x[1] * s[1]
  {
    DotCons(x, s);
    SingleOffset(x[1..], s[1..]);
  }

  // ---------- Dense row-major arrays ----------

  /** Wherever a stage leaves two directions or more, their extents of one come first. */
  ghost predicate StagesOnesFirst(shape: seq<int>, done: nat, groups: seq<seq<int>>)
    requires Splits(|shape|, done, groups)
    decreases |groups|
  {
    if |groups| == 1 then true
    else
      LastLeft(groups);
      var n := done + |groups[0]|;
      (n + 1 < |shape| ==> OnesFirst(shape[n..])) && StagesOnesFirst(shape, n, groups[1..])
  }

  /** On a dense row-major array every in-bounds index, however it is split, reaches its element exactly when extents
      of one come first in every slice of two or more directions. */
  lemma DenseStagedIff(v: View, groups: seq<seq<int>>, fastest: int)
    requires Dense(v.shape, v.strides, v.dirs, fastest) && fastest > 0 && Positive(v.shape) && v.dirs == Preferred(|v.shape|, Row)
    requires Splits(|v.shape|, 0, groups) && InBox(Concat(groups), v.shape)
    ensures ViewOk(v)
    ensures Staged(v, [], groups) ==
      if StagesOnesFirst(v.shape, 0, groups) then Element(ElementAt(v, Concat(groups))) else Abort
  {
    DensePasses(v, Concat(groups), |groups[|groups| - 1]|, fastest);
    StagedIs(v, [], groups);
    assert [] + Concat(groups) == Concat(groups);
    DenseStages(v, 0, groups, fastest);
  }

  lemma DensePasses(v: View, x: seq<int>, last: nat, fastest: int)
    requires Dense(v.shape, v.strides, v.dirs, fastest) && fastest > 0 && Positive(v.shape) && v.dirs == Preferred(|v.shape|, Row)
    requires InBox(x, v.shape)
    ensures ViewOk(v) && LastPasses(v, x, last)
  {
    RowMajorPassesIff(v.shape, v.strides, fastest);
    DenseRoomy(v.shape, v.strides, v.dirs, fastest);
    RoundTrip(x, v.shape, v.strides, v.dirs);
    var d := |x| - 1;
    MulMono(1, v.strides[d], v.shape[d]);
  }

  lemma {:induction false} DenseStages(v: View, done: nat, groups: seq<seq<int>>, fastest: int)
    requires Dense(v.shape, v.strides, v.dirs, fastest) && fastest > 0 && Positive(v.shape) && v.dirs == Preferred(|v.shape|, Row)
    requires ViewOk(v) && Splits(|v.shape|, done, groups)
    ensures StagesExist(v, done, groups) <==> StagesOnesFirst(v.shape, done, groups)
    decreases |groups|
  {
    if |groups| > 1 {
      LastLeft(groups);
      var n := done + |groups[0]|;
      DenseTail(v.shape, v.strides, n, fastest);
      RowMajorPassesIff(v.shape[n..], v.strides[n..], fastest);
      DenseStages(v, n, groups[1..], fastest);
    }
  }

  /** The last directions of a dense row-major layout are one themselves. */
  lemma DenseTail(shape: seq<int>, strides: seq<int>, n: nat, fastest: int)
    requires Dense(shape, strides, Preferred(|shape|, Row), fastest) && n < |shape|
    ensures Dense(shape[n..], strides[n..], Preferred(|shape| - n, Row), fastest)
  {
    var (w, s) := (shape[n..], strides[n..]);
    RowPermutes(shape);
    RowPermutes(strides);
    RowPermutes(w);
    RowPermutes(s);
    PreferredIsPermutation(|w|, Row);
    forall d | 0 <= d < |s| - 1 ensures Tight(w, s, d) {
      assert Tight(shape, strides, n + d);
    }
  }

  /** One index into a dense 2 by 5 by 1 array already aborts: the 5 by 1 slice is refused. */
  lemma SliceOfTwoFiveOne(v: View, i: int)
    requires v.shape == [2, 5, 1] && v.strides == [5, 1, 1] && v.dirs == [0, 1, 2]
    ensures ViewOk(v) && Indexed(v, [], [i]) == Abort
  {
    assert v.shape[1..] == [5, 1] && v.strides[1..] == [1, 1];
    FiveByOneRefused();
  }

  lemma {:induction false} DotSplit(a: seq<int>, b: seq<int>, s: seq<int>)
    requires |a| + |b| == |s|
    ensures Dot(a + b, s) == Dot(a, s[..|a|]) + Dot(b, s[|a|..])
  {
    if a == [] {
      assert a + b == b && s[|a|..] == s;
    } else {
      DotCons(a + b, s);
      DotCons(a, s[..|a|]);
      assert (a + b)[1..] == a[1..] + b && s[..|a|][1..] == s[1..][..|a| - 1] && s[|a|..] == s[1..][|a| - 1..];
      DotSplit(a[1..], b, s[1..]);
    }
  }

  // ---------- Subspans ----------

  function Shifted(x: seq<int>, o: seq<int>): (r: seq<int>)
    requires |x| == |o|
    ensures |r| == |x|
  {
    seq(|x|, i requires 0 <= i < |x| => o[i] + x[i])
  }

  /** What `subspan` asks of its offsets and counts; a negative count means up to the end. */
  predicate Fits(v: View, offsets: seq<int>, counts: seq<int>) {
    && |offsets| == |counts| == |v.shape|
    && forall d :: 0 <= d < |v.shape| ==>
         0 <= offsets[d] < v.shape[d] && (counts[d] >= 0 ==> offsets[d] + counts[d] <= v.shape[d])
  }

  /** `x` is one of the `counts` indices asked for, and names an element of the parent. A negative count asks for all. */
  ghost predicate AskedFor(shape: seq<int>, offsets: seq<int>, counts: seq<int>, x: seq<int>) {
    && |x| == |shape| == |offsets| == |counts|
    && forall d :: 0 <= d < |x| ==> 0 <= x[d] < shape[d] - offsets[d] && (counts[d] >= 0 ==> x[d] < counts[d])
  }

  lemma SubShapeIs(v: View, offsets: seq<int>, counts: seq<int>, x: seq<int>)
    requires Fits(v, offsets, counts)
    ensures InBox(x, SubShape(v.shape, offsets, counts)) <==> AskedFor(v.shape, offsets, counts, x)
  {
    var w := SubShape(v.shape, offsets, counts);
    if |x| == |w| {
      forall d | 0 <= d < |w|
        ensures 0 <= x[d] < w[d] <==> 0 <= x[d] < v.shape[d] - offsets[d] && (counts[d] >= 0 ==> x[d] < counts[d])
      {
      }
    }
  }

  /** Element `x` of `r` is element `offsets + x` of `v`, for every index of `r`. */
  ghost predicate IsSubspan(v: View, r: View, offsets: seq<int>) {
    && |r.shape| == |v.shape| == |offsets| == |v.strides| && r.strides == v.strides
    && forall x :: InBox(x, r.shape) ==>
         InBox(Shifted(x, offsets), v.shape) && ElementAt(r, x) == ElementAt(v, Shifted(x, offsets))
  }

  /** The extents of a subspan. */
  function SubShape(shape: seq<int>, offsets: seq<int>, counts: seq<int>): (r: seq<int>)
    requires |shape| == |offsets| == |counts|
    ensures |r| == |shape|
  {
    seq(|shape|, d requires 0 <= d < |shape| => if counts[d] < 0 then shape[d] - offsets[d] else counts[d])
  }

  /** The re-derived mapping of a subspan refuses strides that repeat, and with the debug checks on (`checked`) the
      layout has to pass as well: the source aborts. */
  method Subspan(v: View, offsets: seq<int>, counts: seq<int>, checked: bool) returns (r: Option<View>)
    requires |v.shape| == |v.strides| > 0 && Fits(v, offsets, counts) && (checked ==> NonZero(v.strides))
    ensures r.Some? <==> AllDistinct(v.strides) && (checked ==> Passes(SubShape(v.shape, offsets, counts), v.strides))
    ensures r.Some? ==>
      && IsSubspan(v, r.value, offsets)
      && (forall x :: InBox(x, r.value.shape) <==> AskedFor(v.shape, offsets, counts, x))
      && r.value.shape == SubShape(v.shape, offsets, counts) && r.value.size == Product(r.value.shape)
      && IsPermutation(r.value.dirs) && |r.value.dirs| == |v.strides| && Descending(v.strides, r.value.dirs)
  {
    var n := |v.shape|;
    var newShape := seq(n, i => 0);
    for d := 0 to n
      invariant |newShape| == n && newShape[..d] == SubShape(v.shape, offsets, counts)[..d]
    {
      newShape := newShape[d := if counts[d] < 0 then v.shape[d] - offsets[d] else counts[d]];
    }
    assert newShape == SubShape(v.shape, offsets, counts);
    if checked {
      var passes, _ := ValidateShapeAndStride(newShape, v.strides);
      if !passes { return None; }
    }
    var mapping := new MDMapping(n);
    var ok := mapping.InitializeUniqueStrides(v.strides);
    if !ok {
      return None;
    }
    var slice := View(v.start + Dot(offsets, v.strides), newShape, v.strides, mapping.dirs, Product(newShape));
    forall x | InBox(x, newShape)
      ensures InBox(Shifted(x, offsets), v.shape) && ElementAt(slice, x) == ElementAt(v, Shifted(x, offsets))
    {
      DotShifted(x, offsets, v.strides);
    }
    forall x ensures InBox(x, newShape) <==> AskedFor(v.shape, offsets, counts, x) {
      SubShapeIs(v, offsets, counts, x);
    }
    return Some(slice);
  }

  /** The debug check never refuses a subspan of a layout that passes. */
  lemma SubspanPasses(v: View, offsets: seq<int>, counts: seq<int>)
    requires |v.shape| == |v.strides| && Positive(v.strides) && Fits(v, offsets, counts) && Passes(v.shape, v.strides)
    ensures Passes(SubShape(v.shape, offsets, counts), v.strides)
  {
    var w := SubShape(v.shape, offsets, counts);
    forall a, b | 0 <= a < |w| && 0 <= b < |w| && Neighbours(v.strides, a, b) ensures PairOk(w, v.strides, a, b) {
      assert PairOk(v.shape, v.strides, a, b);
      MulMono(w[a], v.shape[a], v.strides[a]);
    }
  }

  /** Even the whole of a dense 5 by 1 array is refused as a subspan of itself: its strides repeat. */
  method SubspanOfFiveByOne() returns (r: Option<View>)
    ensures r.None?
  {
    var v := View(0, [5, 1], [1, 1], [0, 1], 5);
    r := Subspan(v, [0, 0], [5, 1], false);
    assert v.strides[0] == v.strides[1];
  }

  lemma {:induction false} DotShifted(x: seq<int>, o: seq<int>, s: seq<int>)
    requires |x| == |o| == |s|
    ensures Dot(Shifted(x, o), s) == Dot(o, s) + Dot(x, s)
  {
    if x != [] {
      DotCons(x, s);
      DotCons(o, s);
      DotCons(Shifted(x, o), s);
      assert Shifted(x, o)[1..] == Shifted(x[1..], o[1..]);
      DotShifted(x[1..], o[1..], s[1..]);
    }
  }

  /** A subspan never leaves the memory of its parent, and distinct indices of it reach distinct elements. */
  lemma SubspanInside(v: View, r: View, offsets: seq<int>, x: seq<int>, y: seq<int>)
    requires Roomy(v.shape, v.strides, v.dirs) && IsSubspan(v, r, offsets)
    requires InBox(x, r.shape) && InBox(y, r.shape)
    ensures v.start <= ElementAt(r, x) < v.start + MemorySize(v.shape, v.strides, v.dirs)
    ensures ElementAt(r, x) == ElementAt(r, y) ==> x == y
  {
    RoundTrip(Shifted(x, offsets), v.shape, v.strides, v.dirs);
    if ElementAt(r, x) == ElementAt(r, y) {
      RoundTrip(Shifted(y, offsets), v.shape, v.strides, v.dirs);
      forall i | 0 <= i < |x| ensures x[i] == y[i] {
        assert Shifted(x, offsets)[i] == Shifted(y, offsets)[i];
      }
    }
  }
}
