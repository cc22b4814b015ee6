/** `MDMapping`: strides and direction order for any number of dimensions. */
module MDMappings {
  import opened Arithmetic
  import opened Counting
  import opened Layouts

  datatype StrideOrder = Arbitrary | Row | Column | Both

  predicate Pointing(dirs: seq<int>, n: nat) {
    forall d :: 0 <= d < |dirs| ==> 0 <= dirs[d] < n
  }

  /** The directions from slowest to fastest for row- or column-major order. */
  function Preferred(n: nat, order: StrideOrder): (dirs: seq<int>)
    ensures |dirs| == n && Pointing(dirs, n)
  {
    seq(n, d => if order.Column? then n - 1 - d else d)
  }

  /** A layout without padding whose fastest stride is `fastest`. */
  ghost predicate Dense(shape: seq<int>, strides: seq<int>, dirs: seq<int>, fastest: int) {
    && IsPermutation(dirs) && |shape| == |strides| == |dirs| > 0
    && Chained(Permuted(shape, dirs), Permuted(strides, dirs))
    && strides[dirs[|dirs| - 1]] == fastest
  }

  predicate Descending(strides: seq<int>, dirs: seq<int>)
    requires Pointing(dirs, |strides|)
  {
    forall i, j :: 0 <= i < j < |dirs| ==> strides[dirs[i]] >= strides[dirs[j]]
  }

  lemma PreferredIsPermutation(n: nat, order: StrideOrder)
    ensures IsPermutation(Preferred(n, order))
  {
  }

  lemma RowPermutes(xs: seq<int>)
    ensures Permuted(xs, Preferred(|xs|, Row)) == xs
  {
  }

  function Position(dirs: seq<int>, i: int): (p: nat)
    ensures p <= |dirs|
    ensures p < |dirs| ==> dirs[p] == i
    ensures p == |dirs| ==> i !in dirs
  {
    if dirs == [] || dirs[0] == i then 0 else 1 + Position(dirs[1..], i)
  }

  /** The multi-index that `toMultiIndex` computes, in natural direction order. */
  function MultiIndex(f: int, strides: seq<int>, dirs: seq<int>): (x: seq<int>)
    requires forall d :: 0 <= d < |dirs| ==> 0 <= dirs[d] < |strides| && strides[dirs[d]] != 0
    ensures |x| == |dirs|
  {
    var u := Unflatten(f, Permuted(strides, dirs));
    seq(|dirs|, i => var p := Position(dirs, i); if p < |dirs| then u[p] else 0)
  }

  lemma MultiIndexPermuted(f: int, strides: seq<int>, dirs: seq<int>)
    requires IsPermutation(dirs) && |strides| == |dirs|
    requires forall d :: 0 <= d < |dirs| ==> strides[dirs[d]] != 0
    ensures Permuted(MultiIndex(f, strides, dirs), dirs) == Unflatten(f, Permuted(strides, dirs))
  {
    forall d | 0 <= d < |dirs| ensures Position(dirs, dirs[d]) == d {
    }
  }

  /** The exchange sort as a function: stage `s`, comparing with position `d` next. */
  function Exchanged(strides: seq<int>, dirs: seq<int>, s: nat, d: nat): seq<int>
    requires s <= d <= |dirs| && Pointing(dirs, |strides|)
    decreases |dirs| - s, |dirs| - d
  {
    if s == |dirs| then dirs
    else if d == |dirs| then Exchanged(strides, dirs, s + 1, s + 1)
    else if strides[dirs[s]] < strides[dirs[d]] then Exchanged(strides, dirs[s := dirs[d]][d := dirs[s]], s, d + 1)
    else Exchanged(strides, dirs, s, d + 1)
  }

  /** Before stage `s` compares with position `d`: the first `s` places are final, and place `s` holds the
      largest stride among positions `s` to `d`. */
  ghost predicate PartlySorted(strides: seq<int>, dirs: seq<int>, s: nat, d: nat)
    requires Pointing(dirs, |strides|) && s <= d <= |dirs|
  {
    && (forall i, j :: 0 <= i < s && i < j < |dirs| ==> strides[dirs[i]] >= strides[dirs[j]])
    && (forall j :: s <= j < d ==> strides[dirs[s]] >= strides[dirs[j]])
  }

  lemma SwapSorts(strides: seq<int>, dirs: seq<int>, s: nat, d: nat)
    requires IsPermutation(dirs) && |dirs| == |strides| && s <= d < |dirs| && PartlySorted(strides, dirs, s, d)
    requires strides[dirs[s]] < strides[dirs[d]]
    ensures var swapped := dirs[s := dirs[d]][d := dirs[s]];
            IsPermutation(swapped) && PartlySorted(strides, swapped, s, d + 1)
  {
    var swapped := dirs[s := dirs[d]][d := dirs[s]];
    assert forall i :: 0 <= i < |dirs| ==> swapped[i] == dirs[if i == s then d else if i == d then s else i];
  }

  lemma {:induction false} ExchangedSorts(strides: seq<int>, dirs: seq<int>, s: nat, d: nat)
    requires IsPermutation(dirs) && |dirs| == |strides| && s <= d <= |dirs| && PartlySorted(strides, dirs, s, d)
    ensures var r := Exchanged(strides, dirs, s, d);
            IsPermutation(r) && |r| == |dirs| && Descending(strides, r)
    decreases |dirs| - s, |dirs| - d
  {
    if s == |dirs| {
    } else if d == |dirs| {
      ExchangedSorts(strides, dirs, s + 1, s + 1);
    } else if strides[dirs[s]] < strides[dirs[d]] {
      SwapSorts(strides, dirs, s, d);
      ExchangedSorts(strides, dirs[s := dirs[d]][d := dirs[s]], s, d + 1);
    } else {
      ExchangedSorts(strides, dirs, s, d + 1);
    }
  }

  /** An order that is already sorted is left alone, ties included. */
  lemma {:induction false} ExchangedKeeps(strides: seq<int>, dirs: seq<int>, s: nat, d: nat)
    requires Pointing(dirs, |strides|) && s <= d <= |dirs| && Descending(strides, dirs)
    ensures Exchanged(strides, dirs, s, d) == dirs
    decreases |dirs| - s, |dirs| - d
  {
    if s == |dirs| {
    } else if d == |dirs| {
      ExchangedKeeps(strides, dirs, s + 1, s + 1);
    } else {
      assert s < d ==> strides[dirs[s]] >= strides[dirs[d]];
      ExchangedKeeps(strides, dirs, s, d + 1);
    }
  }

  /** The exchange sort is not stable: with ROW preferred, equal strides can end in reverse order. */
  lemma TiesCanSwap()
    ensures Exchanged([1, 1, 5], Preferred(3, Row), 0, 0) == [2, 1, 0]
  {
    var s := [1, 1, 5];
    assert Preferred(3, Row) == [0, 1, 2];
    assert Exchanged(s, [0, 1, 2], 0, 0) == Exchanged(s, [0, 1, 2], 0, 1) == Exchanged(s, [0, 1, 2], 0, 2);
    assert [0, 1, 2][0 := 2][2 := 0] == [2, 1, 0];
    assert Exchanged(s, [0, 1, 2], 0, 2) == Exchanged(s, [2, 1, 0], 0, 3) == Exchanged(s, [2, 1, 0], 1, 1);
    assert Exchanged(s, [2, 1, 0], 1, 1) == Exchanged(s, [2, 1, 0], 1, 2) == Exchanged(s, [2, 1, 0], 1, 3);
    assert Exchanged(s, [2, 1, 0], 2, 2) == Exchanged(s, [2, 1, 0], 2, 3) == Exchanged(s, [2, 1, 0], 3, 3);
  }

  /** While stage `s` has compared up to position `d`, nothing can carry the later of two tied directions past the
      earlier one: no larger stride comes after them, and what stage `s` holds after passing the earlier is no smaller. */
  ghost predicate TieSafe(strides: seq<int>, dirs: seq<int>, s: nat, d: nat, p: nat, q: nat)
    requires Pointing(dirs, |strides|) && s <= d <= |dirs| && p < q < |dirs|
  {
    && strides[dirs[p]] == strides[dirs[q]]
    && (s <= p ==> forall r :: q < r < |dirs| ==> strides[dirs[r]] <= strides[dirs[q]])
    && (s < p < d ==> strides[dirs[s]] >= strides[dirs[p]])
  }

  /** Two directions with equal strides keep their preferred order when no direction after them has a larger stride. */
  lemma {:induction false} TieKept(strides: seq<int>, dirs: seq<int>, s: nat, d: nat, p: nat, q: nat) returns (a: nat, b: nat)
    requires Pointing(dirs, |strides|) && s <= d <= |dirs| && p < q < |dirs| && TieSafe(strides, dirs, s, d, p, q)
    ensures var r := Exchanged(strides, dirs, s, d);
            |r| == |dirs| && a < b < |r| && r[a] == dirs[p] && r[b] == dirs[q]
    decreases |dirs| - s, |dirs| - d
  {
    if s == |dirs| {
      a, b := p, q;
    } else if d == |dirs| {
      a, b := TieKept(strides, dirs, s + 1, s + 1, p, q);
    } else if strides[dirs[s]] < strides[dirs[d]] {
      a, b := TieKept(strides, dirs[s := dirs[d]][d := dirs[s]], s, d + 1, Moved(s, d, p), Moved(s, d, q));
    } else {
      a, b := TieKept(strides, dirs, s, d + 1, p, q);
    }
  }

  /** Where a swap of positions `s` and `d` takes position `p`. */
  function Moved(s: nat, d: nat, p: nat): nat {
    if p == s then d else if p == d then s else p
  }

  /** `initializeStrides` honours the preference for a tie when no direction after it has a larger stride. */
  lemma PreferenceKept(strides: seq<int>, order: StrideOrder, p: nat, q: nat)
    requires p < q < |strides|
    requires var dirs := Preferred(|strides|, order);
             && strides[dirs[p]] == strides[dirs[q]]
             && forall r :: q < r < |strides| ==> strides[dirs[r]] <= strides[dirs[q]]
    ensures var dirs := Preferred(|strides|, order);
            var sorted := Exchanged(strides, dirs, 0, 0);
            Position(sorted, dirs[p]) < Position(sorted, dirs[q]) < |sorted|
  {
    var dirs := Preferred(|strides|, order);
    PreferredIsPermutation(|strides|, order);
    ExchangedSorts(strides, dirs, 0, 0);
    var a, b := TieKept(strides, dirs, 0, 0, p, q);
  }

  /** The condition is not necessary: a larger stride after a tie can leave the tie in order. */
  lemma TiesCanStay()
    ensures Exchanged([1, 1, 5, 3], Preferred(4, Row), 0, 0) == [2, 3, 0, 1]
  {
    var s := [1, 1, 5, 3];
    assert Preferred(4, Row) == [0, 1, 2, 3];
    assert Exchanged(s, [0, 1, 2, 3], 0, 0) == Exchanged(s, [0, 1, 2, 3], 0, 1) == Exchanged(s, [0, 1, 2, 3], 0, 2);
    assert [0, 1, 2, 3][0 := 2][2 := 0] == [2, 1, 0, 3];
    assert Exchanged(s, [0, 1, 2, 3], 0, 2) == Exchanged(s, [2, 1, 0, 3], 0, 3) == Exchanged(s, [2, 1, 0, 3], 0, 4);
    assert Exchanged(s, [2, 1, 0, 3], 1, 1) == Exchanged(s, [2, 1, 0, 3], 1, 2) == Exchanged(s, [2, 1, 0, 3], 1, 3);
    assert [2, 1, 0, 3][1 := 3][3 := 1] == [2, 3, 0, 1];
    assert Exchanged(s, [2, 1, 0, 3], 1, 3) == Exchanged(s, [2, 3, 0, 1], 1, 4) == Exchanged(s, [2, 3, 0, 1], 2, 2);
    assert Exchanged(s, [2, 3, 0, 1], 2, 2) == Exchanged(s, [2, 3, 0, 1], 2, 3) == Exchanged(s, [2, 3, 0, 1], 2, 4);
    assert Exchanged(s, [2, 3, 0, 1], 3, 3) == Exchanged(s, [2, 3, 0, 1], 3, 4) == Exchanged(s, [2, 3, 0, 1], 4, 4);
  }

  /** The only increasing permutation is the identity, the only decreasing one its reverse. */
  lemma MonotoneOrders(dirs: seq<int>)
    requires IsPermutation(dirs) && |dirs| > 0
    ensures dirs == Preferred(|dirs|, Row) <==> forall e :: 0 <= e < |dirs| - 1 ==> dirs[e] < dirs[e + 1]
    ensures dirs == Preferred(|dirs|, Column) <==> forall e :: 0 <= e < |dirs| - 1 ==> dirs[e] >= dirs[e + 1]
  {
    if forall e :: 0 <= e < |dirs| - 1 ==> dirs[e] < dirs[e + 1] {
      Counts(dirs);
    }
    if forall e :: 0 <= e < |dirs| - 1 ==> dirs[e] >= dirs[e + 1] {
      CountsDown(dirs);
    }
  }

  lemma CountsDown(dirs: seq<int>)
    requires IsPermutation(dirs) && forall e :: 0 <= e < |dirs| - 1 ==> dirs[e] >= dirs[e + 1]
    ensures dirs == Preferred(|dirs|, Column)
  {
    var n := |dirs|;
    var up := seq(n, i requires 0 <= i < n => n - 1 - dirs[i]);
    assert forall e :: 0 <= e < n - 1 ==> up[e] < up[e + 1];
    Counts(up);
    assert forall d :: 0 <= d < n ==> dirs[d] == n - 1 - up[d];
  }

  lemma Counts(xs: seq<int>)
    requires forall e :: 0 <= e < |xs| - 1 ==> xs[e] < xs[e + 1]
    requires forall e :: 0 <= e < |xs| ==> 0 <= xs[e] < |xs|
    ensures forall d :: 0 <= d < |xs| ==> xs[d] == d
  {
    forall d | 0 <= d < |xs| ensures xs[d] == d {
      Climbs(xs, 0, d);
      Climbs(xs, d, |xs| - 1);
    }
  }

  lemma {:induction false} Climbs(xs: seq<int>, i: nat, j: nat)
    requires i <= j < |xs| && forall e :: 0 <= e < |xs| - 1 ==> xs[e] < xs[e + 1]
    ensures xs[j] - xs[i] >= j - i
    decreases j - i
  {
    if i < j { Climbs(xs, i, j - 1); }
  }

  class MDMapping {
    const dim: nat
    var strides: seq<int>
    var dirs: seq<int>

    ghost predicate Valid()
      reads this
    {
      |strides| == |dirs| == dim > 0 && IsPermutation(dirs)
    }

    constructor (dim: nat)
      requires dim > 0
      ensures this.dim == dim
    {
      this.dim := dim;
      strides, dirs := [], [];
    }

    method ColumnStrides(shape: seq<int>, fastest: int)
      requires dim > 0 && |shape| == dim
      modifies this
      ensures Valid() && dirs == Preferred(dim, Column) && Dense(shape, strides, dirs, fastest)
    {
      var n := dim;
      strides, dirs := seq(n, i => 0), seq(n, i => 0);
      for d := 0 to n
        invariant |dirs| == |strides| == n && forall e :: 0 <= e < d ==> dirs[e] == n - 1 - e
      {
        dirs := dirs[d := n - 1 - d];
      }
      assert dirs == Preferred(n, Column);
      strides := strides[0 := fastest];
      for d := 1 to n
        invariant |strides| == n && dirs == Preferred(n, Column) && strides[0] == fastest
        invariant forall e :: 1 <= e < d ==> strides[e] == strides[e - 1] * shape[e - 1]
      {
        strides := strides[d := strides[d - 1] * shape[d - 1]];
      }
      PreferredIsPermutation(n, Column);
      forall d | 0 <= d < n - 1 ensures Tight(Permuted(shape, dirs), Permuted(strides, dirs), d) {
        assert strides[n - 1 - d] == strides[n - 2 - d] * shape[n - 2 - d];
      }
    }

    method RowStrides(shape: seq<int>, fastest: int)
      requires dim > 0 && |shape| == dim
      modifies this
      ensures Valid() && dirs == Preferred(dim, Row) && Dense(shape, strides, dirs, fastest)
    {
      var n: int := dim;
      strides, dirs := seq(n, i => 0), seq(n, i => 0);
      for d := 0 to n
        invariant |dirs| == |strides| == n && forall e :: 0 <= e < d ==> dirs[e] == e
      {
        dirs := dirs[d := d];
      }
      assert dirs == Preferred(n, Row);
      strides := strides[n - 1 := fastest];
      var d: int := n - 2;
      while d >= 0
        invariant -1 <= d <= n - 2
        invariant |strides| == n && dirs == Preferred(n, Row) && strides[n - 1] == fastest
        invariant forall e :: d < e < n - 1 ==> strides[e] == strides[e + 1] * shape[e + 1]
      {
        strides := strides[d := strides[d + 1] * shape[d + 1]];
        d := d - 1;
      }
      PreferredIsPermutation(n, Row);
      forall d | 0 <= d < n - 1 ensures Tight(Permuted(shape, dirs), Permuted(strides, dirs), d) {
        assert strides[d] == strides[d + 1] * shape[d + 1];
      }
    }

    /** Row- or column-major strides. */
    method InitializeShape(shape: seq<int>, order: StrideOrder, fastest: int)
      requires dim > 0 && |shape| == dim && fastest > 0
      requires order.Column? || order.Row? || (dim == 1 && order.Both?)
      modifies this
      ensures Valid() && dirs == Preferred(dim, order) && Dense(shape, strides, dirs, fastest)
    {
      if order.Column? {
        ColumnStrides(shape, fastest);
      } else {
        RowStrides(shape, fastest);
        assert Preferred(dim, order) == Preferred(dim, Row);
      }
    }

    /** Strides for any permutation of the directions. */
    method InitializeShapeDirs(shape: seq<int>, slowestDirs: seq<int>, fastest: int)
      requires dim > 0 && |shape| == |slowestDirs| == dim && IsPermutation(slowestDirs)
      modifies this
      ensures Valid() && dirs == slowestDirs && Dense(shape, strides, dirs, fastest)
    {
      dirs := slowestDirs;
      var n := dim;
      strides := seq(n, i => 0);
      strides := strides[dirs[n - 1] := fastest];
      var d: int := n - 2;
      while d >= 0
        invariant -1 <= d <= n - 2
        invariant |strides| == n && dirs == slowestDirs && strides[dirs[n - 1]] == fastest
        invariant forall e :: d < e < n - 1 ==> Tight(Permuted(shape, dirs), Permuted(strides, dirs), e)
      {
        var dir, faster := dirs[d], dirs[d + 1];
        ghost var before := Permuted(strides, dirs);
        strides := strides[dir := strides[faster] * shape[faster]];
        ghost var after := Permuted(strides, dirs);
        assert after == before[d := after[d]];
        forall e | d <= e < n - 1 ensures Tight(Permuted(shape, dirs), after, e) {
          assert e > d ==> Tight(Permuted(shape, dirs), before, e);
        }
        d := d - 1;
      }
    }

    /** The exchange sort of `initializeStrides`. */
    method InitializeStrides(given: seq<int>, order: StrideOrder)
      requires dim > 0 && |given| == dim && (order.Row? || order.Column?)
      modifies this
      ensures Valid() && strides == given && Descending(strides, dirs)
      ensures dirs == Exchanged(given, Preferred(dim, order), 0, 0)
    {
      strides := given;
      var n := dim;
      dirs := Preferred(n, order);
      for s := 0 to n
        invariant strides == given && |dirs| == n && Pointing(dirs, n)
        invariant Exchanged(given, dirs, s, s) == Exchanged(given, Preferred(n, order), 0, 0)
      {
        for d := s to n
          invariant strides == given && |dirs| == n && Pointing(dirs, n)
          invariant Exchanged(given, dirs, s, d) == Exchanged(given, Preferred(n, order), 0, 0)
        {
          if strides[dirs[s]] < strides[dirs[d]] {
            dirs := dirs[s := dirs[d]][d := dirs[s]];
          }
        }
      }
      PreferredIsPermutation(n, order);
      ExchangedSorts(given, Preferred(n, order), 0, 0);
    }

    static method StridesAreUnique(strides: seq<int>) returns (unique: bool)
      requires |strides| > 0
      ensures unique <==> AllDistinct(strides)
    {
      var repeats := false;
      for d := 1 to |strides|
        invariant repeats <==> exists i, j :: 0 <= i < j < d && strides[i] == strides[j]
      {
        ghost var before := repeats;
        for e := 0 to d
          invariant repeats <==> before || exists i :: 0 <= i < e && strides[i] == strides[d]
        {
          repeats := repeats || strides[d] == strides[e];
        }
      }
      unique := !repeats;
    }

    /** `initializeStrides` without a preference: it aborts (`ok` is false) when strides repeat. */
    method InitializeUniqueStrides(given: seq<int>) returns (ok: bool)
      requires dim > 0 && |given| == dim
      modifies this
      ensures ok <==> AllDistinct(given)
      ensures ok ==> Valid() && strides == given && Descending(strides, dirs)
      ensures !ok ==> unchanged(this)
    {
      ok := StridesAreUnique(given);
      if ok {
        InitializeStrides(given, Row);
      }
    }

    static method IsPermutationOf(v: seq<int>) returns (yes: bool)
      ensures yes <==> IsPermutation(v)
    {
      var n := |v|;
      var found := seq(n, i => false);
      for d := 0 to n
        invariant |found| == n
        invariant forall e :: 0 <= e < d ==> 0 <= v[e] < n && found[v[e]]
        invariant forall x :: 0 <= x < n && found[x] ==> exists e :: 0 <= e < d && v[e] == x
        invariant AllDistinct(v[..d])
      {
        if v[d] < 0 || v[d] >= n {
          return false;
        }
        if found[v[d]] {
          return false;
        }
        found := found[v[d] := true];
      }
      assert v[..n] == v;
      return true;
    }

    /** `getStrideOrder`, with the bits ROW = 1 and COLUMN = 2. */
    method GetStrideOrder() returns (order: StrideOrder)
      requires Valid()
      ensures order.Both? <==> dim == 1
      ensures dim >= 2 ==> (order.Row? <==> dirs == Preferred(dim, Row))
      ensures dim >= 2 ==> (order.Column? <==> dirs == Preferred(dim, Column))
    {
      var ord: bv2 := 3;
      for d := 0 to dim - 1
        invariant (ord & 1 == 1) <==> (forall e :: 0 <= e < d ==> dirs[e] < dirs[e + 1])
        invariant (ord & 2 == 2) <==> (forall e :: 0 <= e < d ==> dirs[e] >= dirs[e + 1])
      {
        ord := ord & (if dirs[d] < dirs[d + 1] then 1 else 2);
      }
      MonotoneOrders(dirs);
      if dim >= 2 {
        assert dirs[0] < dirs[0 + 1] || dirs[0] >= dirs[0 + 1];
        assert ord == 1 <==> (ord & 1 == 1) && !(ord & 2 == 2);
        assert ord == 2 <==> !(ord & 1 == 1) && (ord & 2 == 2);
        assert ord == 3 <==> (ord & 1 == 1) && (ord & 2 == 2);
      }
      order := if ord == 0 then Arbitrary else if ord == 1 then Row else if ord == 2 then Column else Both;
    }

    function ToFlatIndex(index: seq<int>): int
      requires |index| == |strides|
      reads this
    {
      Dot(index, strides)
    }

    method ToMultiIndex(flat: int) returns (index: seq<int>)
      requires Valid() && forall d :: 0 <= d < dim ==> strides[d] != 0
      ensures index == MultiIndex(flat, strides, dirs)
    {
      index := seq(dim, i => 0);
      var rest := flat;
      ghost var s := Permuted(strides, dirs);
      ghost var u := Unflatten(flat, s);
      assert s[0..] == s && u[0..] == u;
      for d := 0 to dim
        invariant |index| == dim
        invariant Unflatten(rest, s[d..]) == u[d..]
        invariant forall e :: 0 <= e < d ==> index[dirs[e]] == u[e]
      {
        var dir := dirs[d];
        assert s[d..][0] == strides[dir] && s[d..][1..] == s[d + 1..] && u[d..][1..] == u[d + 1..] && u[d..][0] == u[d];
        index := index[dir := Truncating(rest, strides[dir])];
        rest := rest - index[dir] * strides[dir];
      }
      assert Permuted(index, dirs) == u;
      MultiIndexPermuted(flat, strides, dirs);
      PermutedInjective(index, MultiIndex(flat, strides, dirs), dirs);
    }
  }
}
