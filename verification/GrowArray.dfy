/** `Array` as a growable buffer, on the host path: the operations refine those of a sequence. */
module GrowArrays {
  import opened Arithmetic
  import opened Layouts

  function Max(a: int, b: int): int {
    if a > b then a else b
  }

  /** The capacity `dynamicRealloc` asks for: grow by the ratio, hold the new elements, fill whole blocks. */
  function GrownCapacity(capacity: nat, ratio: real, needed: nat, block: nat): int
    requires block > 0
  {
    var grown := (capacity as real * ratio + 0.5).Floor;
    Rounded(Max(grown, needed), block)
  }

  function Rounded(wanted: int, block: nat): int
    requires block > 0
  {
    var remainder := wanted % block;
    if remainder != 0 then wanted + (block - remainder) else wanted
  }

  /** The new capacity holds the new elements, never shrinks and is a whole number of blocks. It is the least such number
      that is at least the grown capacity, rounded to the nearest. */
  lemma GrownCapacityFits(capacity: nat, ratio: real, needed: nat, block: nat)
    requires ratio >= 1.0 && block > 0
    ensures var c := GrownCapacity(capacity, ratio, needed, block);
            && c >= needed && c >= capacity && c % block == 0
            && forall m: int :: m % block == 0 ==> (c <= m <==> m >= needed && m as real > capacity as real * ratio - 0.5)
  {
    RatioGrows(capacity, ratio);
    var wanted := Max((capacity as real * ratio + 0.5).Floor, needed);
    RoundUp(wanted, block);
    forall m: int | m % block == 0
      ensures Rounded(wanted, block) <= m <==> m >= needed && m as real > capacity as real * ratio - 0.5
    {
      LeastMultiple(wanted, block, m);
      NearestBelow(capacity as real * ratio, m);
    }
  }

  lemma NearestBelow(x: real, m: int)
    ensures (x + 0.5).Floor <= m <==> m as real > x - 0.5
  {
  }

  lemma LeastMultiple(wanted: nat, block: nat, m: int)
    requires block > 0 && m % block == 0
    ensures Rounded(wanted, block) <= m <==> wanted <= m
  {
    RoundUp(wanted, block);
    var (q, r, k) := (wanted / block, wanted % block, m / block);
    assert wanted == q * block + r && m == k * block;
    if wanted <= m && r != 0 {
      if k <= q { MulMono(k, q, block); assert false; }
      MulMono(q + 1, k, block);
    }
  }

  /** The storage for `needed` elements: left alone if it suffices, and otherwise grown once, moving all `num` elements. */
  ghost predicate Provided(was: (nat, nat, nat), needed: nat, ratio: real, block: int, capacity: nat, relocated: nat) {
    var (oldCapacity, oldRelocated, num) := was;
    if needed <= oldCapacity then capacity == oldCapacity && relocated == oldRelocated
    else block > 0 && capacity == GrownCapacity(oldCapacity, ratio, needed, block) && relocated == oldRelocated + num
  }

  lemma RatioGrows(capacity: nat, ratio: real)
    requires ratio >= 1.0
    ensures (capacity as real * ratio + 0.5).Floor >= capacity
  {
    var x := capacity as real;
    assert x * ratio >= x by { ScaledUp(x, ratio); }
  }

  lemma ScaledUp(x: real, ratio: real)
    requires x >= 0.0 && ratio >= 1.0
    ensures x * ratio >= x
  {
    assert x * ratio - x == x * (ratio - 1.0);
  }

  lemma RoundUp(wanted: nat, block: nat)
    requires block > 0
    ensures Rounded(wanted, block) >= wanted && Rounded(wanted, block) % block == 0
  {
    var (q, r) := (wanted / block, wanted % block);
    if r != 0 {
      DivUnique(wanted + (block - r), block, q + 1, 0);
    }
  }

  lemma Doubles(capacity: nat, needed: nat)
    ensures Product([]) == 1
    ensures GrownCapacity(capacity, 2.0, needed, 1) == Max(2 * capacity, needed)
  {
    assert (capacity as real * 2.0 + 0.5).Floor == 2 * capacity;
  }

  /** The operations of a run, and what each does to a sequence. */
  datatype Op<T> =
    | InsertAt(pos: nat, v: T)
    | InsertMany(pos: nat, vs: seq<T>)
    | InsertCopies(pos: nat, n: nat, v: T)
    | Push(v: T)
    | EraseAt(pos: nat)
    | EraseFrom(first: nat, last: nat)
    | ResizeTo(n: nat, v: T)
    | ReserveAtLeast(n: nat)
    | ShrinkToFit
    | ClearAll

  predicate Applicable<T>(s: seq<T>, op: Op<T>) {
    match op
    case InsertAt(pos, _) => pos <= |s|
    case InsertMany(pos, _) => pos <= |s|
    case InsertCopies(pos, _, _) => pos <= |s|
    case EraseAt(pos) => pos < |s|
    case EraseFrom(first, last) => first < |s| && first <= last <= |s|
    case _ => true
  }

  function Applied<T>(s: seq<T>, op: Op<T>): seq<T>
    requires Applicable(s, op)
  {
    match op
    case InsertAt(pos, v) => s[..pos] + [v] + s[pos..]
    case InsertMany(pos, vs) => s[..pos] + vs + s[pos..]
    case InsertCopies(pos, n, v) => s[..pos] + seq(n, i => v) + s[pos..]
    case Push(v) => s + [v]
    case EraseAt(pos) => s[..pos] + s[pos + 1..]
    case EraseFrom(first, last) => s[..first] + s[last..]
    case ResizeTo(n, v) => if n <= |s| then s[..n] else s + seq(n - |s|, i => v)
    case ReserveAtLeast(_) => s
    case ShrinkToFit => s
    case ClearAll => []
  }

  predicate Runs<T>(s: seq<T>, ops: seq<Op<T>>)
    decreases |ops|
  {
    ops == [] || (Applicable(s, ops[0]) && Runs(Applied(s, ops[0]), ops[1..]))
  }

  function Outcome<T>(s: seq<T>, ops: seq<Op<T>>): seq<T>
    requires Runs(s, ops)
    decreases |ops|
  {
    if ops == [] then s else Outcome(Applied(s, ops[0]), ops[1..])
  }

  predicate NonNegative(shape: seq<int>) {
    forall d :: 0 <= d < |shape| ==> shape[d] >= 0
  }

  lemma {:induction false} ProductNonNegative(shape: seq<int>)
    requires NonNegative(shape)
    ensures Product(shape) >= 0
  {
    if shape != [] {
      ProductNonNegative(shape[1..]);
      MulMono(0, shape[0], Product(shape[1..]));
    }
  }

  /** A non-empty view has a non-zero block: the rounding in a reallocation never divides by zero. */
  lemma NonEmptyBlock(shape: seq<int>)
    requires |shape| > 0 && NonNegative(shape)
    ensures Product(shape) == shape[0] * Product(shape[1..])
    ensures Product(shape) != 0 ==> Product(shape[1..]) > 0
  {
    ProductNonNegative(shape[1..]);
  }

  lemma BlocksAdd(n: int, m: int, block: int)
    ensures (n + m) * block == n * block + m * block
  {
  }

  class Array<T(0)> {
    var data: array<T>
    var num: nat
    var capacity: nat
    var ratio: real
    /** Extents of the directions after the first, and the leading extent; a 1D array has no trailing ones. */
    var trailing: seq<int>
    var leading: int
    /** Elements moved by reallocations so far. */
    ghost var relocated: nat

    ghost predicate Valid()
      reads this
    {
      data.Length == capacity && num <= capacity && ratio >= 1.0
    }

    ghost function Contents(): seq<T>
      requires Valid()
      reads this, data
    {
      data[..num]
    }

    function BlockSize(): int
      reads `trailing
    {
      Product(trailing)
    }

    /** The default constructor: nothing allocated, resize ratio 2. */
    constructor ()
      ensures Valid() && Contents() == [] && capacity == 0 && ratio == 2.0 && relocated == 0
      ensures trailing == [] && BlockSize() == 1 && fresh(data)
    {
      data := new T[0];
      num, capacity, ratio, trailing, leading, relocated := 0, 0, 2.0, [], 0, 0;
    }

    /** A multidimensional array of default elements, with room for at least 32. */
    constructor Shaped(shape: seq<int>, value: T)
      requires |shape| > 0 && NonNegative(shape)
      ensures Valid() && leading == shape[0] && trailing == shape[1..] && num == leading * BlockSize()
      ensures Contents() == seq(num, i => value) && capacity == Max(num, 32) && ratio == 2.0 && relocated == 0 && fresh(data)
    {
      NonEmptyBlock(shape);
      ProductNonNegative(shape);
      var n := Product(shape);
      data := new T[Max(n, 32)](_ => value);
      num, capacity, ratio, trailing, leading, relocated := n, Max(n, 32), 2.0, shape[1..], shape[0], 0;
      new;
      assert data[..num] == seq(num, i => value);
    }

    /** `ArrayOpsBase::move`: copies backwards when the range moves up, forwards when it moves down, so that an
        overlapping range arrives whole. */
    static method Move(a: array<T>, srcBegin: int, srcEnd: int, dst: int)
      requires 0 <= srcBegin <= srcEnd <= a.Length && 0 <= dst && dst + srcEnd - srcBegin <= a.Length
      modifies a
      ensures forall k :: dst <= k < dst + srcEnd - srcBegin ==> a[k] == old(a[srcBegin + k - dst])
      ensures forall k :: 0 <= k < a.Length && !(dst <= k < dst + srcEnd - srcBegin) ==> a[k] == old(a[k])
    {
      var n := srcEnd - srcBegin;
      if srcBegin < dst {
        var i := n;
        while i > 0
          invariant 0 <= i <= n
          invariant forall k :: dst + i <= k < dst + n ==> a[k] == old(a[srcBegin + k - dst])
          invariant forall k :: 0 <= k < a.Length && !(dst + i <= k < dst + n) ==> a[k] == old(a[k])
        {
          i := i - 1;
          a[dst + i] := a[srcBegin + i];
        }
      } else if srcBegin > dst {
        for i := 0 to n
          invariant forall k :: dst <= k < dst + i ==> a[k] == old(a[srcBegin + k - dst])
          invariant forall k :: 0 <= k < a.Length && !(dst <= k < dst + i) ==> a[k] == old(a[k])
        {
          a[dst + i] := a[srcBegin + i];
        }
      }
    }

    /** `setCapacity`: a smaller capacity drops the elements beyond it. */
    method SetCapacity(newCapacity: nat)
      requires Valid()
      modifies this`data, this`num, this`capacity, this`relocated
      ensures Valid() && fresh(data) && capacity == newCapacity
      ensures num == if newCapacity < old(num) then newCapacity else old(num)
      ensures Contents() == old(Contents())[..num]
      ensures relocated == old(relocated) + num
    {
      if newCapacity < num {
        num := newCapacity;
      }
      var newData := new T[newCapacity];
      for i := 0 to num
        invariant Valid() && num <= newCapacity && data == old(data) && relocated == old(relocated)
        invariant num == if newCapacity < old(num) then newCapacity else old(num)
        invariant newData[..i] == data[..i]
      {
        newData[i] := data[i];
      }
      relocated := relocated + num;
      data, capacity := newData, newCapacity;
    }

    method DynamicRealloc(needed: nat)
      requires Valid() && BlockSize() > 0
      modifies this`data, this`num, this`capacity, this`relocated
      ensures Valid() && fresh(data) && capacity == GrownCapacity(old(capacity), ratio, needed, BlockSize())
      ensures num == old(num) && Contents() == old(Contents()) && relocated == old(relocated) + num
    {
      GrownCapacityFits(capacity, ratio, needed, BlockSize());
      SetCapacity(GrownCapacity(capacity, ratio, needed, BlockSize()));
      assert old(Contents())[..num] == old(Contents());
    }

    /** Opens a gap of `n` places at `pos`. */
    method ReserveForInsert(n: nat, pos: nat)
      requires Valid() && pos <= num && (n > 0 ==> BlockSize() > 0)
      modifies this`data, this`num, this`capacity, this`relocated, data
      ensures Valid() && num == old(num) + n && (data == old(data) || fresh(data))
      ensures data[..pos] == old(Contents())[..pos] && data[pos + n..num] == old(Contents())[pos..]
      ensures old(num) + n <= old(capacity) ==> capacity == old(capacity) && relocated == old(relocated)
      ensures old(num) + n > old(capacity) ==>
        capacity == GrownCapacity(old(capacity), ratio, num, BlockSize()) && relocated == old(relocated) + old(num)
    {
      ghost var before := Contents();
      if n == 0 {
        return;
      }
      var newSize := num + n;
      if newSize > capacity {
        DynamicRealloc(newSize);
      }
      assert data[..num] == before;
      label Reserved:
      Move(data, pos, num, pos + n);
      forall k | pos + n <= k < newSize ensures data[k] == before[k - n] {
        assert data[k] == old@Reserved(data[k - n]);
      }
      num := newSize;
    }

    /** `fill_range`: the values are copied in, and nothing else changes. */
    static method FillRange(data: array<T>, pos: nat, values: seq<T>)
      requires pos + |values| <= data.Length
      modifies data
      ensures forall k :: 0 <= k < data.Length ==>
        data[k] == if pos <= k < pos + |values| then values[k - pos] else old(data[k])
    {
      for i := 0 to |values|
        invariant forall k :: 0 <= k < data.Length ==>
          data[k] == if pos <= k < pos + i then values[k - pos] else old(data[k])
      {
        data[pos + i] := values[i];
      }
    }

    /** `fill`: likewise with copies of one value. */
    static method Fill(data: array<T>, pos: nat, n: nat, value: T)
      requires pos + n <= data.Length
      modifies data
      ensures forall k :: 0 <= k < data.Length ==> data[k] == if pos <= k < pos + n then value else old(data[k])
    {
      for i := 0 to n
        invariant forall k :: 0 <= k < data.Length ==> data[k] == if pos <= k < pos + i then value else old(data[k])
      {
        data[pos + i] := value;
      }
    }

    static lemma Spliced(data: array<T>, pos: nat, values: seq<T>, num: nat, before: seq<T>)
      requires pos <= |before| && num == |before| + |values| <= data.Length
      requires forall k :: pos <= k < pos + |values| ==> data[k] == values[k - pos]
      requires data[..pos] == before[..pos] && data[pos + |values|..num] == before[pos..]
      ensures data[..num] == before[..pos] + values + before[pos..]
    {
      assert data[pos..pos + |values|] == values;
      assert data[..num] == data[..pos] + data[pos..pos + |values|] + data[pos + |values|..num];
    }

    // ---------- 1D operations ----------

    method Insert(pos: nat, value: T)
      requires Valid() && pos <= num && BlockSize() > 0
      modifies this`data, this`num, this`capacity, this`relocated, data
      ensures Valid() && (data == old(data) || fresh(data))
      ensures Contents() == old(Contents())[..pos] + [value] + old(Contents())[pos..]
      ensures old(num) < old(capacity) ==> capacity == old(capacity) && relocated == old(relocated)
      ensures old(num) == old(capacity) ==>
        capacity == GrownCapacity(old(capacity), ratio, num, BlockSize()) && relocated == old(relocated) + old(num)
    {
      ReserveForInsert(1, pos);
      data[pos] := value;
    }

    method InsertRange(pos: nat, values: seq<T>)
      requires Valid() && pos <= num && (values != [] ==> BlockSize() > 0)
      modifies this`data, this`num, this`capacity, this`relocated, data
      ensures Valid() && (data == old(data) || fresh(data))
      ensures Contents() == old(Contents())[..pos] + values + old(Contents())[pos..]
      ensures Provided(old((capacity, relocated, num)), num, ratio, BlockSize(), capacity, relocated)
    {
      ghost var before := Contents();
      ReserveForInsert(|values|, pos);
      ghost var gap := data[..];
      FillRange(data, pos, values);
      assert data[..pos] == gap[..pos] && data[pos + |values|..num] == gap[pos + |values|..num];
      Spliced(data, pos, values, num, before);
    }

    method InsertN(pos: nat, n: nat, value: T)
      requires Valid() && pos <= num && (n > 0 ==> BlockSize() > 0)
      modifies this`data, this`num, this`capacity, this`relocated, data
      ensures Valid() && (data == old(data) || fresh(data))
      ensures Contents() == old(Contents())[..pos] + seq(n, i => value) + old(Contents())[pos..]
      ensures Provided(old((capacity, relocated, num)), num, ratio, BlockSize(), capacity, relocated)
    {
      ghost var before := Contents();
      ghost var copies := seq(n, i => value);
      ReserveForInsert(n, pos);
      ghost var gap := data[..];
      Fill(data, pos, n, value);
      assert data[..pos] == gap[..pos] && data[pos + n..num] == gap[pos + n..num];
      assert forall k :: pos <= k < pos + n ==> data[k] == copies[k - pos];
      Spliced(data, pos, copies, num, before);
    }

    method PushBack(value: T)
      requires Valid() && BlockSize() > 0
      modifies this`data, this`num, this`capacity, this`relocated, data
      ensures Valid() && (data == old(data) || fresh(data))
      ensures Contents() == old(Contents()) + [value]
      ensures old(num) < old(capacity) ==> capacity == old(capacity) && relocated == old(relocated)
      ensures old(num) == old(capacity) ==>
        capacity == GrownCapacity(old(capacity), ratio, num, BlockSize()) && relocated == old(relocated) + old(num)
    {
      Insert(num, value);
    }

    /** Erases `[first, last)`; the source asks for `first` before the end. */
    method EraseRange(first: nat, last: nat)
      requires Valid() && first < num && first <= last <= num
      modifies this`num, data
      ensures Valid()
      ensures Contents() == old(Contents())[..first] + old(Contents())[last..]
    {
      if first == last {
        return;
      }
      Move(data, last, num, first);
      num := num - (last - first);
    }

    method Erase(pos: nat)
      requires Valid() && pos < num
      modifies this`num, data
      ensures Valid()
      ensures Contents() == old(Contents())[..pos] + old(Contents())[pos + 1..]
    {
      Move(data, pos + 1, num, pos);
      num := num - 1;
    }

    /** Grows with copies of `value`, or cuts. */
    method Resize(size: nat, value: T)
      requires Valid() && BlockSize() > 0
      modifies this`data, this`num, this`capacity, this`relocated, data
      ensures Valid() && num == size && (data == old(data) || fresh(data))
      ensures Contents() == if size <= old(num) then old(Contents())[..size]
                            else old(Contents()) + seq(size - old(num), i => value)
      ensures Provided(old((capacity, relocated, num)), size, ratio, BlockSize(), capacity, relocated)
    {
      ghost var before := Contents();
      var prev := num;
      if size > capacity {
        DynamicRealloc(size);
      }
      assert data[..prev] == before;
      if prev < size {
        Fill(data, prev, size - prev, value);
        assert data[..prev] == before && data[prev..size] == seq(size - prev, i => value);
      }
      num := size;
      assert prev < size ==> data[..size] == data[..prev] + data[prev..size];
    }

    method Reserve(wanted: nat)
      requires Valid()
      modifies this`data, this`num, this`capacity, this`relocated
      ensures Valid() && capacity == Max(old(capacity), wanted) && (data == old(data) || fresh(data))
      ensures Contents() == old(Contents())
    {
      if wanted > capacity {
        SetCapacity(wanted);
        assert old(Contents())[..num] == old(Contents());
      }
    }

    method Shrink()
      requires Valid()
      modifies this`data, this`num, this`capacity, this`relocated
      ensures Valid() && capacity == num && fresh(data)
      ensures Contents() == old(Contents())
    {
      SetCapacity(num);
      assert old(Contents())[..num] == old(Contents());
    }

    method Clear()
      requires Valid()
      modifies this`num
      ensures Valid() && Contents() == [] && capacity == old(capacity)
    {
      if num > 0 {
        num := 0;
      }
    }

    // ---------- Whole runs ----------

    /** Any run of 1D operations does to the array what it does to a sequence, with size never above capacity. */
    method Run(ops: seq<Op<T>>)
      requires Valid() && BlockSize() > 0 && Runs(Contents(), ops)
      modifies this`data, this`num, this`capacity, this`relocated, data
      ensures Valid() && Contents() == Outcome(old(Contents()), ops)
      ensures data == old(data) || fresh(data)
      decreases |ops|
    {
      if ops == [] {
        return;
      }
      match ops[0] {
        case InsertAt(pos, v) => Insert(pos, v);
        case InsertMany(pos, vs) => InsertRange(pos, vs);
        case InsertCopies(pos, n, v) => InsertN(pos, n, v);
        case Push(v) => PushBack(v);
        case EraseAt(pos) => Erase(pos);
        case EraseFrom(first, last) => EraseRange(first, last);
        case ResizeTo(n, v) => Resize(n, v);
        case ReserveAtLeast(n) => Reserve(n);
        case ShrinkToFit => Shrink();
        case ClearAll => Clear();
      }
      assert Contents() == Applied(old(Contents()), ops[0]);
      Run(ops[1..]);
    }

    /** Amortised growth: any `n >= 1` insertions at the end of a default-constructed array relocate fewer than
        `2 n` elements in all. */
    static method PushAll(values: seq<T>) returns (a: Array<T>)
      requires |values| >= 1
      ensures fresh(a) && a.Valid() && a.Contents() == values
      ensures a.relocated < 2 * |values|
    {
      a := new Array();
      for i := 0 to |values|
        invariant fresh(a) && fresh(a.data) && a.Valid() && a.Contents() == values[..i] && a.ratio == 2.0 && a.trailing == []
        invariant i == 0 ==> a.capacity == 0 && a.relocated == 0
        invariant i > 0 ==> a.relocated == a.capacity - 1 && a.capacity <= 2 * i - 1
      {
        Doubles(a.capacity, i + 1);
        a.PushBack(values[i]);
      }
      assert values[..|values|] == values;
    }

    // ---------- Appending along the leading direction ----------

    /** A multidimensional `append`: the shape grows first, then the data goes in at the end. */
    method Append(viewShape: seq<int>, values: seq<T>)
      requires Valid() && num == leading * BlockSize() && NonNegative(viewShape)
      requires |viewShape| == |trailing| + 1 && viewShape[1..] == trailing && |values| == Product(viewShape)
      modifies this`leading, this`data, this`num, this`capacity, this`relocated, data
      ensures Valid() && num == leading * BlockSize() && leading == old(leading) + viewShape[0]
      ensures Contents() == old(Contents()) + values
      ensures Provided(old((capacity, relocated, num)), num, ratio, BlockSize(), capacity, relocated)
    {
      ghost var (before, n, m, block) := (Contents(), leading, viewShape[0], BlockSize());
      NonEmptyBlock(viewShape);
      BlocksAdd(n, m, block);
      leading := leading + viewShape[0];
      InsertRange(num, values);
      assert before[..|before|] == before && before[|before|..] == [];
      assert Contents() == before + values;
    }
  }
}
