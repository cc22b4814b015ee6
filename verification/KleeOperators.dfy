/** Klee's geometry operators: what they start from, what they end in, and what they do to a point. */
module KleeOperators {
  import opened KleeUnits

  datatype Dims = Two | Three

  function Count(d: Dims): int {
    if d.Two? then 2 else 3
  }

  datatype Props = Props(dims: Dims, units: Unit)

  datatype Point = Point(x: real, y: real, z: real)

  function Dot(a: Point, b: Point): real {
    a.x * b.x + a.y * b.y + a.z * b.z
  }

  function Times(p: Point, s: real): Point {
    Point(p.x * s, p.y * s, p.z * s)
  }

  function Over(p: Point, s: real): Point
    requires s != 0.0
  {
    Point(p.x / s, p.y / s, p.z / s)
  }

  /** The upper three rows of an operator's matrix: three rows and an offset. */
  datatype Affine = Affine(row0: Point, row1: Point, row2: Point, offset: Point)

  function Image(a: Affine, p: Point): Point {
    Point(Dot(a.row0, p) + a.offset.x, Dot(a.row1, p) + a.offset.y, Dot(a.row2, p) + a.offset.z)
  }

  function Scaling(x: real, y: real, z: real): Affine {
    Affine(Point(x, 0.0, 0.0), Point(0.0, y, 0.0), Point(0.0, 0.0, z), Point(0.0, 0.0, 0.0))
  }

  function Translating(v: Point): Affine {
    Affine(Point(1.0, 0.0, 0.0), Point(0.0, 1.0, 0.0), Point(0.0, 0.0, 1.0), v)
  }

  /** Translations, rotations and scalings are all `Transform`s: they keep dimensions and units. */
  datatype Op =
    | Transform(start: Props, matrix: Affine)
    | Convert(start: Props, endUnits: Unit)
    | Slice(start: Props, matrix: Affine)
    | Composite(start: Props, parts: seq<Op>)

  function End(op: Op): Props {
    match op
    case Transform(start, _) => start
    case Convert(start, endUnits) => Props(start.dims, endUnits)
    case Slice(start, _) => Props(Two, start.units)
    case Composite(start, parts) => if parts == [] then start else End(parts[|parts| - 1])
  }

  /** Every unit a converter uses is known, so no matrix fails to be built. */
  predicate Computable(op: Op) {
    match op
    case Transform(_, _) => true
    case Convert(start, endUnits) => !start.units.Unspecified? && !endUnits.Unspecified?
    case Slice(_, _) => true
    case Composite(_, parts) => forall i :: 0 <= i < |parts| ==> Computable(parts[i])
  }

  function Apply(t: map<Unit, real>, op: Op, p: Point): Point
    requires Sizes(t) && Computable(op)
    decreases op, 0
  {
    match op
    case Transform(_, matrix) => Image(matrix, p)
    case Convert(start, endUnits) =>
      var f := ConversionFactor(t, start.units, endUnits).value;
      Image(Scaling(f, f, f), p)
    case Slice(_, matrix) => Image(matrix, p)
    case Composite(_, parts) => ApplyAll(t, parts, p)
  }

  function ApplyAll(t: map<Unit, real>, ops: seq<Op>, p: Point): Point
    requires Sizes(t) && forall i :: 0 <= i < |ops| ==> Computable(ops[i])
    decreases ops, 1
  {
    if ops == [] then p else ApplyAll(t, ops[1..], Apply(t, ops[0], p))
  }

  // ---------- Well-typed operators ----------

  /** The operators lead from one set of properties to another, each starting where the previous one ends. */
  ghost predicate Linked(start: Props, ops: seq<Op>, end: Props)
    decreases ops
  {
    if ops == [] then start == end else ops[0].start == start && Linked(End(ops[0]), ops[1..], end)
  }

  ghost predicate WellTyped(op: Op)
    decreases op
  {
    && !op.start.units.Unspecified?
    && match op
       case Transform(_, _) => true
       case Convert(_, endUnits) => !endUnits.Unspecified?
       case Slice(start, _) => start.dims.Three?
       case Composite(start, parts) =>
         && Linked(start, parts, End(op))
         && forall i :: 0 <= i < |parts| ==> WellTyped(parts[i])
  }

  ghost predicate AllWellTyped(ops: seq<Op>) {
    forall i :: 0 <= i < |ops| ==> WellTyped(ops[i])
  }

  lemma {:induction false} LinkedConcat(a: Props, xs: seq<Op>, b: Props, ys: seq<Op>, c: Props)
    requires Linked(a, xs, b) && Linked(b, ys, c)
    ensures Linked(a, xs + ys, c)
    decreases xs
  {
    if xs == [] {
      assert xs + ys == ys;
    } else {
      LinkedConcat(End(xs[0]), xs[1..], b, ys, c);
      assert (xs + ys)[1..] == xs[1..] + ys;
    }
  }

  /** A chain ends where its last operator ends. */
  lemma {:induction false} LinkedEnd(start: Props, ops: seq<Op>, end: Props)
    requires Linked(start, ops, end)
    ensures end == End(Composite(start, ops))
    decreases ops
  {
    if |ops| > 0 {
      LinkedEnd(End(ops[0]), ops[1..], end);
    }
  }

  lemma {:induction false} WellTypedMeans(op: Op)
    requires WellTyped(op)
    ensures Computable(op) && !End(op).units.Unspecified?
    decreases op
  {
    if op.Composite? {
      forall i | 0 <= i < |op.parts| ensures Computable(op.parts[i]) {
        WellTypedMeans(op.parts[i]);
      }
      if op.parts != [] { WellTypedMeans(op.parts[|op.parts| - 1]); }
    }
  }

  // ---------- Flattening ----------

  /** The basic operators of an operator, in the order they act. */
  function Flatten(op: Op): seq<Op>
    decreases op, 0
  {
    if op.Composite? then FlattenAll(op.parts) else [op]
  }

  function FlattenAll(ops: seq<Op>): seq<Op>
    decreases ops, 1
  {
    if ops == [] then [] else Flatten(ops[0]) + FlattenAll(ops[1..])
  }

  ghost predicate Basic(ops: seq<Op>) {
    forall i :: 0 <= i < |ops| ==> !ops[i].Composite?
  }

  function Slices(ops: seq<Op>): nat {
    if ops == [] then 0 else (if ops[0].Slice? then 1 else 0) + Slices(ops[1..])
  }

  /** A well-typed operator flattens, however deeply nested, to a chain of well-typed basic operators. */
  lemma {:induction false} FlattenLinked(op: Op)
    requires WellTyped(op)
    ensures Linked(op.start, Flatten(op), End(op)) && Basic(Flatten(op)) && AllWellTyped(Flatten(op))
    decreases op, 0
  {
    if op.Composite? {
      FlattenAllLinked(op.start, op.parts, End(op));
    } else {
      assert Linked(End(op), Flatten(op)[1..], End(op));
    }
  }

  lemma {:induction false} FlattenAllLinked(start: Props, ops: seq<Op>, end: Props)
    requires Linked(start, ops, end) && AllWellTyped(ops)
    ensures Linked(start, FlattenAll(ops), end) && Basic(FlattenAll(ops)) && AllWellTyped(FlattenAll(ops))
    decreases ops, 1
  {
    if ops != [] {
      FlattenLinked(ops[0]);
      FlattenAllLinked(End(ops[0]), ops[1..], end);
      LinkedConcat(start, Flatten(ops[0]), End(ops[0]), FlattenAll(ops[1..]), end);
    }
  }

  /** Each slice drops one dimension and nothing else changes the dimensions. */
  lemma {:induction false} SlicesDropDimensions(start: Props, ops: seq<Op>, end: Props)
    requires Linked(start, ops, end) && Basic(ops) && AllWellTyped(ops)
    ensures Slices(ops) == Count(start.dims) - Count(end.dims)
    decreases ops
  {
    if ops != [] {
      SlicesDropDimensions(End(ops[0]), ops[1..], end);
    }
  }

  ghost predicate AllComputable(ops: seq<Op>) {
    forall i :: 0 <= i < |ops| ==> Computable(ops[i])
  }

  lemma {:induction false} ApplyConcat(t: map<Unit, real>, xs: seq<Op>, ys: seq<Op>, p: Point)
    requires Sizes(t) && AllComputable(xs) && AllComputable(ys)
    ensures ApplyAll(t, xs + ys, p) == ApplyAll(t, ys, ApplyAll(t, xs, p))
  {
    if xs == [] {
      assert xs + ys == ys;
    } else {
      ApplyConcat(t, xs[1..], ys, Apply(t, xs[0], p));
      assert (xs + ys)[1..] == xs[1..] + ys;
    }
  }

  /** Flattening preserves the action on points. */
  lemma {:induction false} FlattenMeaning(t: map<Unit, real>, op: Op, p: Point)
    requires Sizes(t) && Computable(op)
    ensures AllComputable(Flatten(op)) && ApplyAll(t, Flatten(op), p) == Apply(t, op, p)
    decreases op, 0
  {
    if op.Composite? {
      FlattenAllMeaning(t, op.parts, p);
    } else {
      assert ApplyAll(t, [op][1..], Apply(t, op, p)) == Apply(t, op, p);
    }
  }

  lemma {:induction false} FlattenAllMeaning(t: map<Unit, real>, ops: seq<Op>, p: Point)
    requires Sizes(t) && AllComputable(ops)
    ensures AllComputable(FlattenAll(ops)) && ApplyAll(t, FlattenAll(ops), p) == ApplyAll(t, ops, p)
    decreases ops, 1
  {
    if ops != [] {
      FlattenMeaning(t, ops[0], p);
      FlattenAllMeaning(t, ops[1..], Apply(t, ops[0], p));
      ApplyConcat(t, Flatten(ops[0]), FlattenAll(ops[1..]), p);
    }
  }

  // ---------- Physical action ----------

  /** What an operator does to a place given in centimetres. */
  function Physical(t: map<Unit, real>, op: Op, q: Point): Point
    requires Sizes(t) && WellTyped(op)
  {
    WellTypedMeans(op);
    Times(Apply(t, op, Over(q, t[op.start.units])), t[End(op).units])
  }

  function PhysicalAll(t: map<Unit, real>, ops: seq<Op>, q: Point): Point
    requires Sizes(t) && AllWellTyped(ops)
  {
    if ops == [] then q else PhysicalAll(t, ops[1..], Physical(t, ops[0], q))
  }

  lemma OverTimes(p: Point, s: real)
    requires s > 0.0
    ensures Over(Times(p, s), s) == p && Times(Over(p, s), s) == p
  {
    OverTimesReal(p.x, s);
    OverTimesReal(p.y, s);
    OverTimesReal(p.z, s);
  }

  lemma OverTimesReal(x: real, s: real)
    requires s > 0.0
    ensures x * s / s == x && x / s * s == x
  {
  }

  /** Along a chain the units in between cancel. */
  lemma {:induction false} ChainPhysical(t: map<Unit, real>, start: Props, ops: seq<Op>, end: Props, q: Point)
    requires Sizes(t) && AllWellTyped(ops) && Linked(start, ops, end) && !start.units.Unspecified? && !end.units.Unspecified?
    ensures AllComputable(ops)
    ensures Times(ApplyAll(t, ops, Over(q, t[start.units])), t[end.units]) == PhysicalAll(t, ops, q)
    decreases ops
  {
    forall i | 0 <= i < |ops| ensures Computable(ops[i]) { WellTypedMeans(ops[i]); }
    if ops == [] {
      OverTimes(q, t[start.units]);
    } else {
      var p := Apply(t, ops[0], Over(q, t[start.units]));
      WellTypedMeans(ops[0]);
      OverTimes(p, t[End(ops[0]).units]);
      ChainPhysical(t, End(ops[0]), ops[1..], end, Physical(t, ops[0], q));
    }
  }

  lemma ConvertReal(x: real, a: real, b: real)
    requires a > 0.0 && b > 0.0
    ensures x / a * (a / b) * b == x
  {
    var (r, f) := (x / a, a / b);
    assert r * a == x && f * b == a;
    assert r * f * b == r * (f * b);
  }

  /** A unit conversion does not move anything. */
  lemma ConvertIsIdentity(t: map<Unit, real>, op: Op, q: Point)
    requires Sizes(t) && WellTyped(op) && op.Convert?
    ensures Physical(t, op, q) == q
  {
    var (a, b) := (t[op.start.units], t[op.endUnits]);
    FactorIsRatio(t, op.start.units, op.endUnits);
    ScalingIs(a / b, Over(q, a));
    ConvertReal(q.x, a, b);
    ConvertReal(q.y, a, b);
    ConvertReal(q.z, a, b);
  }

  lemma ScalingIs(f: real, p: Point)
    ensures Image(Scaling(f, f, f), p) == Times(p, f)
  {
  }

  function WithoutConverters(ops: seq<Op>): seq<Op> {
    if ops == [] then [] else (if ops[0].Convert? then [] else [ops[0]]) + WithoutConverters(ops[1..])
  }

  lemma {:induction false} ConvertersVanish(t: map<Unit, real>, ops: seq<Op>, q: Point)
    requires Sizes(t) && AllWellTyped(ops)
    ensures AllWellTyped(WithoutConverters(ops)) && PhysicalAll(t, WithoutConverters(ops), q) == PhysicalAll(t, ops, q)
  {
    if ops != [] {
      ConvertersVanish(t, ops[1..], Physical(t, ops[0], q));
      if ops[0].Convert? {
        ConvertIsIdentity(t, ops[0], q);
        assert WithoutConverters(ops) == WithoutConverters(ops[1..]);
      } else {
        assert WithoutConverters(ops)[1..] == WithoutConverters(ops[1..]);
      }
    }
  }

  /** Physically, an operator is the composition of its transforms and slices: nesting and units do not matter. */
  lemma PhysicalMeaning(t: map<Unit, real>, op: Op, q: Point)
    requires Sizes(t) && WellTyped(op)
    ensures AllWellTyped(WithoutConverters(Flatten(op)))
    ensures Physical(t, op, q) == PhysicalAll(t, WithoutConverters(Flatten(op)), q)
  {
    WellTypedMeans(op);
    FlattenLinked(op);
    FlattenMeaning(t, op, Over(q, t[op.start.units]));
    ChainPhysical(t, op.start, Flatten(op), End(op), q);
    ConvertersVanish(t, Flatten(op), q);
  }
}
