/** What appending a row-major view means for multi-indices. */
module AppendTheorems {
  import opened Arithmetic
  import opened Counting
  import opened GrowArrays
  import opened IndexTheorems
  import opened LayoutChecks
  import opened Layouts
  import opened MDMappings

  /** The dense row-major strides of a shape. */
  function RowMajor(shape: seq<int>): (s: seq<int>)
    ensures |s| == |shape|
  {
    if shape == [] then [] else [Product(shape[1..])] + RowMajor(shape[1..])
  }

  function Flat(shape: seq<int>, x: seq<int>): int
    requires |x| == |shape|
  {
    Dot(x, RowMajor(shape))
  }

  lemma {:induction false} RowMajorChained(shape: seq<int>)
    requires |shape| > 0
    ensures Chained(shape, RowMajor(shape)) && RowMajor(shape)[|shape| - 1] == 1
  {
    var s := RowMajor(shape);
    if |shape| > 1 {
      var (rest, t) := (shape[1..], RowMajor(shape[1..]));
      RowMajorChained(rest);
      assert s[1..] == t;
      assert s[0] == Product(rest) == rest[0] * Product(rest[1..]) && t[0] == Product(rest[1..]);
      forall d | 0 <= d < |shape| - 1 ensures Tight(shape, s, d) {
        if d > 0 { assert Tight(rest, t, d - 1); }
      }
    } else {
      assert shape[1..] == [];
    }
  }

  /** They are the strides that `initializeShape` makes. */
  lemma RowMajorDense(shape: seq<int>)
    requires |shape| > 0
    ensures Dense(shape, RowMajor(shape), Preferred(|shape|, Row), 1)
  {
    RowPermutes(shape);
    RowPermutes(RowMajor(shape));
    PreferredIsPermutation(|shape|, Row);
    RowMajorChained(shape);
  }

  lemma FlatCons(shape: seq<int>, x: seq<int>)
    requires |x| == |shape| > 0
    ensures Flat(shape, x) == x[0] * Product(shape[1..]) + Flat(shape[1..], x[1..])
  {
    DotCons(x, RowMajor(shape));
    assert RowMajor(shape)[1..] == RowMajor(shape[1..]);
  }

  lemma FlatInside(shape: seq<int>, x: seq<int>)
    requires |shape| > 0 && InBox(x, shape)
    ensures 0 <= Flat(shape, x) < Product(shape)
  {
    RowMajorDense(shape);
    Bijection(shape, RowMajor(shape), Preferred(|shape|, Row));
  }

  /** Shifting the leading index by the old leading extent skips exactly the old elements. */
  lemma FlatShifted(shape: seq<int>, view: seq<int>, x: seq<int>)
    requires |x| == |shape| == |view| > 0 && shape[1..] == view[1..]
    ensures Flat(shape, x) == shape[0] * Product(shape[1..]) + Flat(view, x[0 := x[0] - shape[0]])
  {
    var y := x[0 := x[0] - shape[0]];
    FlatCons(shape, x);
    FlatCons(view, y);
    assert y[1..] == x[1..];
    var b := Product(shape[1..]);
    assert x[0] * b == shape[0] * b + (x[0] - shape[0]) * b;
  }

  /** Appending is concatenation along the leading direction: old elements keep their multi-index, new ones are
      shifted by the old leading extent. */
  lemma AppendConcatenates<T>(c: seq<T>, v: seq<T>, shape: seq<int>, view: seq<int>, x: seq<int>)
    requires |shape| == |view| > 0 && shape[1..] == view[1..] && shape[0] >= 0 && view[0] >= 0
    requires |c| == Product(shape) && |v| == Product(view)
    requires InBox(x, [shape[0] + view[0]] + shape[1..])
    ensures var grown := [shape[0] + view[0]] + shape[1..];
            && 0 <= Flat(grown, x) < |c| + |v|
            && (x[0] < shape[0] ==> 0 <= Flat(shape, x) < |c| && (c + v)[Flat(grown, x)] == c[Flat(shape, x)])
            && (x[0] >= shape[0] ==>
                 var y := x[0 := x[0] - shape[0]];
                 InBox(y, view) && 0 <= Flat(view, y) < |v| && (c + v)[Flat(grown, x)] == v[Flat(view, y)])
  {
    var grown := [shape[0] + view[0]] + shape[1..];
    assert grown[1..] == shape[1..];
    FlatCons(grown, x);
    FlatCons(shape, x);
    assert Flat(grown, x) == Flat(shape, x);
    assert forall d :: 1 <= d < |x| ==> shape[d] == grown[d] && view[d] == view[1..][d - 1] == grown[d];
    if x[0] < shape[0] {
      FlatInside(shape, x);
    } else {
      FlatInside(view, x[0 := x[0] - shape[0]]);
      FlatShifted(shape, view, x);
    }
  }

  /** The shape of an array. */
  function Shape<T(0)>(a: Array<T>): seq<int>
    reads a
  {
    [a.leading] + a.trailing
  }

  /** Multi-index `x` of contents `c` and multi-index `y` of contents `d` have the same element. */
  ghost predicate SameElement<T>(c: seq<T>, shape: seq<int>, x: seq<int>, d: seq<T>, other: seq<int>, y: seq<int>) {
    && |x| == |shape| && |y| == |other|
    && 0 <= Flat(shape, x) < |c| && 0 <= Flat(other, y) < |d|
    && c[Flat(shape, x)] == d[Flat(other, y)]
  }

  /** Every multi-index of the grown array below the old leading extent has its old element, and every other one has
      the element of the view at the index shifted back. */
  ghost predicate Joined<T>(r: seq<T>, grown: seq<int>, c: seq<T>, shape: seq<int>, v: seq<T>, view: seq<int>)
    requires |shape| > 0
  {
    forall x :: InBox(x, grown) && |x| == |shape| ==>
      if x[0] < shape[0] then SameElement(r, grown, x, c, shape, x)
      else SameElement(r, grown, x, v, view, x[0 := x[0] - shape[0]])
  }

  lemma Joins<T>(c: seq<T>, v: seq<T>, shape: seq<int>, view: seq<int>, rest: seq<int>)
    requires |shape| == |view| > 0 && shape[1..] == view[1..] == rest && shape[0] >= 0 && view[0] >= 0
    requires |c| == Product(shape) && |v| == Product(view)
    ensures Joined(c + v, [shape[0] + view[0]] + rest, c, shape, v, view)
  {
    var grown := [shape[0] + view[0]] + rest;
    forall x | InBox(x, grown)
      ensures if x[0] < shape[0] then SameElement(c + v, grown, x, c, shape, x)
              else SameElement(c + v, grown, x, v, view, x[0 := x[0] - shape[0]])
    {
      AppendConcatenates(c, v, shape, view, x);
    }
  }

  /** The same, for contents `c` of `n` blocks of shape `rest`. */
  lemma JoinsBlocks<T>(r: seq<T>, grown: seq<int>, c: seq<T>, shape: seq<int>, v: seq<T>, view: seq<int>, n: int, rest: seq<int>)
    requires n >= 0 && |c| == n * Product(rest) && |v| == Product(view) && |view| > 0 && view[0] >= 0 && view[1..] == rest
    requires r == c + v && shape == [n] + rest && grown == [n + view[0]] + rest
    ensures Joined(r, grown, c, shape, v, view)
  {
    assert shape[1..] == rest;
    Joins(c, v, shape, view, rest);
  }

  /** `append` on the object is concatenation along the leading direction. */
  method AppendView<T(0)>(a: Array<T>, viewShape: seq<int>, values: seq<T>)
    requires a.Valid() && a.leading >= 0 && NonNegative(a.trailing) && a.num == a.leading * a.BlockSize()
    requires NonNegative(viewShape) && |viewShape| > 0 && viewShape[1..] == a.trailing && |values| == Product(viewShape)
    modifies a, a.data
    ensures a.Valid() && Shape(a) == [old(a.leading) + viewShape[0]] + old(a.trailing)
    ensures Joined(a.Contents(), Shape(a), old(a.Contents()), old(Shape(a)), values, viewShape)
  {
    ghost var (c, shape, rest, n) := (a.Contents(), Shape(a), a.trailing, a.leading);
    assert |c| == n * Product(rest);
    a.Append(viewShape, values);
    assert a.leading == n + viewShape[0] && a.trailing == rest;
    assert Shape(a) == [old(a.leading) + viewShape[0]] + old(a.trailing);
    ghost var (r, grown) := (a.Contents(), Shape(a));
    JoinsBlocks(r, grown, c, shape, values, viewShape, n, rest);
  }

  // ---------- Any direction order ----------

  /** After an append of `n` along the leading direction: the strides of the directions up to the leading one stay, and
      those of the slower directions grow unless nothing was added. */
  lemma {:induction false} StridesAfterAppend(shape: seq<int>, s: seq<int>, t: seq<int>, dirs: seq<int>, n: nat, p: nat, i: nat)
    requires |shape| > 0 && Positive(shape) && Dense(shape, s, dirs, 1) && Dense(shape[0 := shape[0] + n], t, dirs, 1)
    requires p < |dirs| && dirs[p] == 0 && i < |dirs|
    ensures s[dirs[i]] > 0
    ensures if i >= p || n == 0 then t[dirs[i]] == s[dirs[i]] else t[dirs[i]] > s[dirs[i]]
    decreases |dirs| - i
  {
    if i + 1 < |dirs| {
      StridesAfterAppend(shape, s, t, dirs, n, p, i + 1);
      var (w, grown) := (shape[dirs[i + 1]], shape[0 := shape[0] + n]);
      assert Tight(Permuted(shape, dirs), Permuted(s, dirs), i) && Tight(Permuted(grown, dirs), Permuted(t, dirs), i);
      assert s[dirs[i]] == s[dirs[i + 1]] * w && t[dirs[i]] == t[dirs[i + 1]] * grown[dirs[i + 1]];
      MulMono(1, w, s[dirs[i + 1]]);
      if i + 1 == p {
        Larger(s[0], s[0], w, w + n);
      } else {
        Larger(s[dirs[i + 1]], t[dirs[i + 1]], w, w);
      }
    }
  }

  lemma Larger(a: int, b: int, w: int, v: int)
    requires 0 < a <= b && 0 < w <= v
    ensures a * w <= b * v && (a < b || w < v ==> a * w < b * v)
  {
    MulMono(a, b, w);
    MulMono(w, v, b);
    assert (b - a) * w == b * w - a * w && (v - w) * b == v * b - w * b;
    if a < b { MulMono(1, b - a, w); }
    if w < v { MulMono(1, v - w, b); }
  }

  /** Every element of the old array is still at its multi-index. */
  ghost predicate OldKept(shape: seq<int>, s: seq<int>, t: seq<int>)
    requires |shape| == |s| == |t|
  {
    forall x :: InBox(x, shape) ==> Dot(x, s) == Dot(x, t)
  }

  /** Every direction slower than the leading one has extent one. */
  predicate LeadingSlowest(shape: seq<int>, dirs: seq<int>, p: nat)
    requires p <= |dirs| && Pointing(dirs, |shape|)
  {
    forall i :: 0 <= i < p ==> shape[dirs[i]] == 1
  }

  /** For any direction order, appending leaves every old element at its multi-index exactly when nothing is added or no
      slower direction than the leading one is longer than one. */
  lemma AppendKeepsIff(shape: seq<int>, s: seq<int>, t: seq<int>, dirs: seq<int>, n: nat, p: nat)
    requires |shape| > 0 && Positive(shape) && Dense(shape, s, dirs, 1) && Dense(shape[0 := shape[0] + n], t, dirs, 1)
    requires p < |dirs| && dirs[p] == 0
    ensures OldKept(shape, s, t) <==> n == 0 || LeadingSlowest(shape, dirs, p)
  {
    if n == 0 || LeadingSlowest(shape, dirs, p) {
      forall x | InBox(x, shape) ensures Dot(x, s) == Dot(x, t) {
        forall d | 0 <= d < |x| ensures x[d] == 0 || s[d] == t[d] {
          Onto(dirs, d);
          var i :| 0 <= i < |dirs| && dirs[i] == d;
          StridesAfterAppend(shape, s, t, dirs, n, p, i);
        }
        DotSame(x, s, t);
      }
    } else {
      var i :| 0 <= i < p && shape[dirs[i]] != 1;
      StridesAfterAppend(shape, s, t, dirs, n, p, i);
      UnitOffset(s, dirs[i]);
      UnitOffset(t, dirs[i]);
      assert InBox(Unit(|shape|, dirs[i]), shape);
    }
  }

  lemma {:induction false} DotSame(x: seq<int>, s: seq<int>, t: seq<int>)
    requires |x| == |s| == |t| && forall d :: 0 <= d < |x| ==> x[d] == 0 || s[d] == t[d]
    ensures Dot(x, s) == Dot(x, t)
  {
    if x != [] {
      DotCons(x, s);
      DotCons(x, t);
      DotSame(x[1..], s[1..], t[1..]);
    }
  }

  /** Appending one row to a column-major 2 by 2 array moves the old element at (0, 1). */
  lemma ColumnMajorMoves()
    ensures Dense([2, 2], [1, 2], [1, 0], 1) && Dense([3, 2], [1, 3], [1, 0], 1) && InBox([0, 1], [2, 2])
    ensures Dot([0, 1], [1, 2]) == 2 && Dot([0, 1], [1, 3]) == 3
  {
    assert Permuted([2, 2], [1, 0]) == [2, 2] && Permuted([1, 2], [1, 0]) == [2, 1] && Tight([2, 2], [2, 1], 0);
    assert Permuted([3, 2], [1, 0]) == [2, 3] && Permuted([1, 3], [1, 0]) == [3, 1] && Tight([2, 3], [3, 1], 0);
    assert Unit(2, 1) == [0, 1];
    UnitOffset([1, 2], 1);
    UnitOffset([1, 3], 1);
  }
}
