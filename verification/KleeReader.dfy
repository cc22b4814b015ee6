/** Klee's reading of operator lists, step by step: a composite grows by one operator at a time. */
module KleeReader {
  import opened KleeUnits
  import opened KleeOperators
  import opened KleeIO
  import opened KleeMeaning
  import opened KleeTheorems
  import opened Wrappers

  /** The composite under construction, whose parts are appended one by one. */
  class CompositeOperator {
    const start: Props
    var operators: seq<Op>

    /** The parts lead from the start properties to the end properties, each starting where the previous one ends. */
    ghost predicate Valid()
      reads this
    {
      Linked(start, operators, End(Value()))
    }

    constructor (start: Props)
      ensures Valid() && this.start == start && operators == []
    {
      this.start := start;
      operators := [];
    }

    /** The one set of properties that the parts lead to. */
    function EndProperties(): (p: Props)
      requires Valid()
      reads this
      ensures Linked(start, operators, p) && forall q :: Linked(start, operators, q) ==> q == p
    {
      LinkedEndsOnce(start, operators);
      if operators == [] then start else End(operators[|operators| - 1])
    }

    /** The operator built so far. */
    function Value(): Op
      reads this
    {
      Composite(start, operators)
    }

    /** Appends an operator, and throws when it does not start where the composite ends. */
    method AddOperator(op: Op) returns (ok: bool)
      requires Valid()
      modifies this
      ensures Valid()
      ensures ok == (op.start == old(EndProperties()))
      ensures operators == if ok then old(operators) + [op] else old(operators)
      ensures ok ==> EndProperties() == End(op)
    {
      if EndProperties() != op.start { return false; }
      SingleLinked(op.start, op);
      LinkedConcat(start, operators, op.start, [op], End(op));
      operators := operators + [op];
      ok := true;
    }
  }

  lemma LinkedEndsOnce(start: Props, ops: seq<Op>)
    ensures forall q :: Linked(start, ops, q) ==> q == End(Composite(start, ops))
  {
    forall q | Linked(start, ops, q) ensures q == End(Composite(start, ops)) {
      LinkedEnd(start, ops, q);
    }
  }

  /** A reference is refused exactly when the name is unknown, or conversions are needed and the dimensions differ. An
      accepted one returns to the caller's units. */
  method ParseRef(name: string, start: Props, named: Named) returns (r: Result<Op>)
    ensures r == Referenced(name, start, named)
    ensures r.Err? <==>
      || name !in named
      || (named[name].start.dims != start.dims && !(start.units == named[name].start.units == End(named[name]).units))
    ensures NamedOk(named) && !start.units.Unspecified? && r.Ok? ==> WellTyped(r.value) && End(r.value).units == start.units
  {
    if NamedOk(named) && !start.units.Unspecified? && Referenced(name, start, named).Ok? {
      RefWellTyped(name, start, named);
    }
    if name !in named { return Err(NoSuchOperator); }
    var op := named[name];
    var startUnitsMatch := start.units == op.start.units;
    var endUnitsMatch := start.units == End(op).units;
    if startUnitsMatch && endUnitsMatch { return Ok(op); }
    var composite := new CompositeOperator(start);
    var ok;
    if !startUnitsMatch {
      ok := composite.AddOperator(Convert(start, op.start.units));
    }
    ok := composite.AddOperator(op);
    if !ok { return Err(Mismatch); }
    if !endUnitsMatch {
      ok := composite.AddOperator(Convert(End(op), start.units));
    }
    assert composite.operators == (if startUnitsMatch then [] else [Convert(start, op.start.units)]) + [op]
      + (if endUnitsMatch then [] else [Convert(End(op), start.units)]);
    r := Ok(composite.Value());
  }

  /** An accepted entry is well typed, ends in the units it asks for, and does to every point what it says. */
  ghost predicate Honoured(entry: Entry, start: Props, named: Named, op: Op)
    requires NamedOk(named)
  {
    && WellTyped(op) && Computable(op)
    && End(op).units == UnitsAfter(start.units, entry)
    && (!entry.Ref? ==> op.start == start && End(op).dims == if entry.SliceBy? then Two else start.dims)
    && forall t, p :: Sizes(t) ==> Apply(t, op, p) == Acts(t, named, entry, start.units, p)
  }

  lemma ConvertedHonoured(entry: Entry, start: Props, named: Named)
    requires NamedOk(named) && !start.units.Unspecified? && Converted(entry, start, named).Ok?
    ensures Honoured(entry, start, named, Converted(entry, start, named).value)
  {
    var op := Converted(entry, start, named).value;
    ConvertedWellTyped(entry, start, named);
    WellTypedMeans(op);
    forall t, p | Sizes(t) ensures Apply(t, op, p) == Acts(t, named, entry, start.units, p) {
      ConvertedActs(t, entry, start, named, p);
    }
  }

  /** One entry of a list: it gives an operator that starts here exactly when it fits. */
  method ConvertOperator(entry: Entry, start: Props, named: Named) returns (r: Result<Op>)
    ensures r == Converted(entry, start, named)
    ensures NamedOk(named) && !start.units.Unspecified? && r.Ok? ==> Honoured(entry, start, named, r.value)
    ensures r.Ok? && r.value.start == start <==> Fits(named, entry, start.dims)
  {
    if NamedOk(named) && !start.units.Unspecified? && Converted(entry, start, named).Ok? {
      ConvertedHonoured(entry, start, named);
    }
    ConvertedIff(entry, start, named);
    match entry {
      case Translate(offset) => r := ParseTranslate(offset, start);
      case Rotate(matrix) => r := ParseRotate(matrix, start);
      case SliceBy(matrix) => r := ParseSlice(matrix, start);
      case ScaleBy(factors) => r := ParseScale(factors, start);
      case ConvertUnitsTo(name) => r := ParseConvertUnits(name, start);
      case Ref(name) => r := ParseRef(name, start, named);
      case Unknown => r := Err(InvalidTransformation);
    }
  }

  /** An empty list makes no operator at all. Any other one is accepted exactly when its units are known and its entries fit,
      and then makes an operator that does what they say. */
  method MakeOperator(start: Props, entries: seq<Entry>, named: Named) returns (r: Result<Option<Op>>)
    ensures r == Made(start, entries, named)
    ensures entries == [] ==> r == Ok(None)
    ensures NamedOk(named) && entries != [] ==>
      && (r.Ok? <==> !start.units.Unspecified? && FitsAll(named, entries, start.dims))
      && (r.Ok? ==> r.value.Some? && DoesWhatItSays(start, entries, named, r.value.value))
  {
    if NamedOk(named) && entries != [] {
      MadeIff(start, entries, named);
      if Made(start, entries, named).Ok? { MadeActs(start, entries, named); }
    }
    if entries == [] { return Ok(None); }
    if start.units.Unspecified? { return Err(UnspecifiedUnits); }
    var composite := new CompositeOperator(start);
    var i := 0;
    while i < |entries|
      invariant 0 <= i <= |entries| && composite.Valid() && fresh(composite) && composite.start == start
      invariant Assembled(start, [], entries, named) == Assembled(start, composite.operators, entries[i..], named)
    {
      assert entries[i..][1..] == entries[i + 1..];
      var op := ConvertOperator(entries[i], composite.EndProperties(), named);
      if op.Err? { return Err(op.error); }
      var ok := composite.AddOperator(op.value);
      if !ok { return Err(Mismatch); }
      i := i + 1;
    }
    r := Ok(Some(composite.Value()));
  }

  method MakeNamedOperatorMap(entries: seq<NamedEntry>, file: Dims) returns (r: Result<Named>)
    ensures r == DefinedAll(map[], entries, file)
    ensures r.Ok? ==> NamedOk(r.value) && HoldsDefinitions(r.value, entries, file)
  {
    var named: Named := map[];
    var i := 0;
    while i < |entries|
      invariant 0 <= i <= |entries|
      invariant DefinedAll(map[], entries, file) == DefinedAll(named, entries[i..], file)
    {
      assert entries[i..][1..] == entries[i + 1..];
      var op := MakeOperator(StartOf(entries[i], file), entries[i].value, named);
      if op.Err? { return Err(op.error); }
      if op.value.None? { return Err(NullOperator); }
      if End(op.value.value).units != entries[i].endUnits { return Err(EndUnitsMismatch); }
      named := Inserted(named, entries[i].name, op.value.value);
      i := i + 1;
    }
    r := Ok(named);
    DefinedAllWellTyped(map[], entries, file);
    AllNamesAre(entries, file);
  }

  /** What holds of every accepted geometry: it ends in the dimensions of the file, its operator is a linked chain of
      basic operators with exactly one slice per lost dimension, and its units are those of its last conversion. */
  ghost predicate Sound(data: GeometryData, file: Dims, g: Geometry) {
    && StartsAs(g.start, data.startDims, data.startUnits, file)
    && GeometryEnd(g) == Props(file, EndUnits(data.startUnits, data.operators))
    && (g.operator.None? <==> data.operators == [])
    && (g.operator.Some? ==>
      && WellTyped(g.operator.value)
      && Linked(g.start, Flatten(g.operator.value), GeometryEnd(g)) && Basic(Flatten(g.operator.value))
      && Slices(Flatten(g.operator.value)) == Count(g.start.dims) - Count(file))
    && !(g.start.dims.Two? && file.Three?)
  }

  lemma AcceptedSound(data: GeometryData, file: Dims, named: Named)
    requires NamedOk(named) && GeometryOf(data, file, named).Ok?
    ensures Sound(data, file, GeometryOf(data, file, named).value)
  {
    var g := GeometryOf(data, file, named).value;
    NotNull(g.start, data.operators, named);
    AcceptedChain(data, file, named);
    if g.operator.Some? { MadeWellTyped(g.start, data.operators, named); }
  }

  method ConvertGeometry(data: GeometryData, file: Dims, named: Named) returns (r: Result<Geometry>)
    ensures r == GeometryOf(data, file, named)
    ensures NamedOk(named) && r.Ok? ==> Sound(data, file, r.value)
    ensures NamedOk(named) && r.Ok? && r.value.operator.Some? ==>
      DoesWhatItSays(GeometryStart(data, file), data.operators, named, r.value.operator.value)
  {
    if NamedOk(named) && GeometryOf(data, file, named).Ok? { AcceptedSound(data, file, named); }
    var start := Props(if data.startDims.Some? then data.startDims.value else file, data.startUnits);
    var op := MakeOperator(start, data.operators, named);
    if op.Err? { return Err(op.error); }
    var g := Geometry(start, op.value);
    r := if GeometryEnd(g).dims != file then Err(WrongDimensions) else Ok(g);
  }

  /** A geometry does to every point what the text of the file says, references replaced by their definitions. */
  ghost predicate ActsAsText(defs: seq<NamedEntry>, data: GeometryData, g: Geometry) {
    g.operator.Some? ==>
      && Computable(g.operator.value)
      && forall t, p :: Sizes(t) ==> Apply(t, g.operator.value, p) == TextActs(t, defs, data.operators, data.startUnits, p)
  }

  lemma SaysText(defs: seq<NamedEntry>, data: GeometryData, file: Dims, named: Named, g: Geometry)
    requires DefinedAll(map[], defs, file) == Ok(named) && NamedOk(named)
    requires g.operator.Some? ==> DoesWhatItSays(GeometryStart(data, file), data.operators, named, g.operator.value)
    ensures ActsAsText(defs, data, g)
  {
    if g.operator.Some? {
      forall t, p | Sizes(t)
        ensures Apply(t, g.operator.value, p) == TextActs(t, defs, data.operators, data.startUnits, p)
      {
        TextMeaning(t, defs, file, data.operators, data.startUnits, p);
      }
    }
  }

  /** All that is promised of one geometry of a file. */
  ghost predicate Faithful(defs: seq<NamedEntry>, data: GeometryData, file: Dims, g: Geometry) {
    Sound(data, file, g) && ActsAsText(defs, data, g)
  }

  /** One geometry of a file. */
  method ReadGeometry(data: GeometryData, file: Dims, named: Named, ghost defs: seq<NamedEntry>) returns (r: Result<Geometry>)
    requires DefinedAll(map[], defs, file) == Ok(named) && NamedOk(named)
    ensures r.Ok? <==> GeometryOf(data, file, named).Ok?
    ensures r.Ok? ==> Faithful(defs, data, file, r.value)
  {
    r := ConvertGeometry(data, file, named);
    if r.Ok? { SaysText(defs, data, file, named, r.value); }
  }

  /** The geometries read so far: all accepted, and all that is promised of them. */
  ghost predicate AllRead(defs: seq<NamedEntry>, datas: seq<GeometryData>, file: Dims, named: Named, gs: seq<Geometry>) {
    |gs| <= |datas| && forall i :: 0 <= i < |gs| ==>
      GeometryOf(datas[i], file, named).Ok? && Faithful(defs, datas[i], file, gs[i])
  }

  lemma OneMoreRead(defs: seq<NamedEntry>, datas: seq<GeometryData>, file: Dims, named: Named, gs: seq<Geometry>, g: Geometry)
    requires AllRead(defs, datas, file, named, gs) && |gs| < |datas|
    requires GeometryOf(datas[|gs|], file, named).Ok? && Faithful(defs, datas[|gs|], file, g)
    ensures AllRead(defs, datas, file, named, gs + [g])
  {
  }

  ghost predicate AllAccepted(datas: seq<GeometryData>, file: Dims, named: Named) {
    forall i :: 0 <= i < |datas| ==> GeometryOf(datas[i], file, named).Ok?
  }

  /** A whole file: the named operators first, then every geometry in order. All that it accepts is sound and does what the
      text says. */
  method ReadGeometries(entries: seq<NamedEntry>, datas: seq<GeometryData>, file: Dims) returns (r: Result<seq<Geometry>>)
    ensures r.Ok? <==>
      var named := DefinedAll(map[], entries, file); named.Ok? && AllAccepted(datas, file, named.value)
    ensures r.Ok? ==>
      |r.value| == |datas| && AllRead(entries, datas, file, DefinedAll(map[], entries, file).value, r.value)
  {
    var named := MakeNamedOperatorMap(entries, file);
    if named.Err? { return Err(named.error); }
    var converted := [];
    for i := 0 to |datas|
      invariant i == |converted| && AllRead(entries, datas, file, named.value, converted)
    {
      var g := ReadGeometry(datas[i], file, named.value, entries);
      if g.Err? { return Err(g.error); }
      OneMoreRead(entries, datas, file, named.value, converted, g.value);
      converted := converted + [g.value];
    }
    r := Ok(converted);
  }
}
