/** Klee's operator lists: single operators, references to named operators, and the operator of a geometry. */
module KleeIO {
  import opened KleeUnits
  import opened KleeOperators
  import opened Wrappers

  type Named = map<string, Op>

  /** One entry of an operator list, with the fields it carries. `None` stands for fields that do not form the operator. */
  datatype Entry =
    | Translate(offset: seq<real>)
    | Rotate(matrix: Option<Affine>)
    | SliceBy(matrix: Option<Affine>)
    | ScaleBy(factors: seq<real>)
    | ConvertUnitsTo(name: string)
    | Ref(name: string)
    | Unknown

  function ParseTranslate(offset: seq<real>, start: Props): (r: Result<Op>) {
    if |offset| != Count(start.dims) then Err(BadField)
    else Ok(Transform(start, Translating(Point(offset[0], offset[1], if start.dims.Two? then 0.0 else offset[2]))))
  }

  function ParseRotate(matrix: Option<Affine>, start: Props): (r: Result<Op>) {
    if matrix.None? then Err(BadField) else Ok(Transform(start, matrix.value))
  }

  function ParseSlice(matrix: Option<Affine>, start: Props): (r: Result<Op>) {
    if !start.dims.Three? then Err(SliceFromTwo)
    else if matrix.None? then Err(BadField)
    else Ok(Slice(start, matrix.value))
  }

  /** One factor scales every axis; otherwise there is one per dimension, and a plane keeps its third axis. */
  function ParseScale(factors: seq<real>, start: Props): (r: Result<Op>) {
    if |factors| == 1 then Ok(Transform(start, Scaling(factors[0], factors[0], factors[0])))
    else if |factors| != Count(start.dims) then Err(BadField)
    else Ok(Transform(start, Scaling(factors[0], factors[1], if start.dims.Two? then 1.0 else factors[2])))
  }

  function ParseConvertUnits(name: string, start: Props): (r: Result<Op>) {
    var units := ParseLengthUnits(name);
    if units.Err? then Err(units.error) else Ok(Convert(start, units.value))
  }

  // ---------- References ----------

  /** What a reference stands for: the named operator between conversions from and to the caller's units. */
  function Referenced(name: string, start: Props, named: Named): Result<Op> {
    if name !in named then Err(NoSuchOperator)
    else
      var op := named[name];
      var starts, ends := start.units == op.start.units, start.units == End(op).units;
      if starts && ends then Ok(op)
      else if op.start.dims != start.dims then Err(Mismatch)
      else
        Ok(Composite(start,
          (if starts then [] else [Convert(start, op.start.units)])
          + [op]
          + (if ends then [] else [Convert(End(op), start.units)])))
  }

  // ---------- Operator lists ----------

  function Converted(entry: Entry, start: Props, named: Named): Result<Op> {
    match entry
    case Translate(offset) => ParseTranslate(offset, start)
    case Rotate(matrix) => ParseRotate(matrix, start)
    case SliceBy(matrix) => ParseSlice(matrix, start)
    case ScaleBy(factors) => ParseScale(factors, start)
    case ConvertUnitsTo(name) => ParseConvertUnits(name, start)
    case Ref(name) => Referenced(name, start, named)
    case Unknown => Err(InvalidTransformation)
  }

  /** The parts that `entries` add to a composite that already has `parts`. */
  function Assembled(start: Props, parts: seq<Op>, entries: seq<Entry>, named: Named): Result<seq<Op>>
    decreases |entries|
  {
    if entries == [] then Ok(parts)
    else
      var here := End(Composite(start, parts));
      var op := Converted(entries[0], here, named);
      if op.Err? then Err(op.error)
      else if op.value.start != here then Err(Mismatch)
      else Assembled(start, parts + [op.value], entries[1..], named)
  }

  function Made(start: Props, entries: seq<Entry>, named: Named): Result<Option<Op>> {
    if entries == [] then Ok(None)
    else if start.units.Unspecified? then Err(UnspecifiedUnits)
    else
      var parts := Assembled(start, [], entries, named);
      if parts.Err? then Err(parts.error) else Ok(Some(Composite(start, parts.value)))
  }

  // ---------- Named operators ----------

  datatype NamedEntry = NamedEntry(name: string, startDims: Option<Dims>, startUnits: Unit, endUnits: Unit, value: seq<Entry>)

  function StartOf(entry: NamedEntry, file: Dims): Props {
    Props(if entry.startDims.Some? then entry.startDims.value else file, entry.startUnits)
  }

  /** The operator one named entry defines. Its end properties are read even when there is no operator. */
  function Defined(entry: NamedEntry, file: Dims, named: Named): Result<Op> {
    var op := Made(StartOf(entry, file), entry.value, named);
    if op.Err? then Err(op.error)
    else if op.value.None? then Err(NullOperator)
    else if End(op.value.value).units != entry.endUnits then Err(EndUnitsMismatch)
    else Ok(op.value.value)
  }

  /** Inserting a name that is taken changes nothing. */
  function Inserted(named: Named, name: string, op: Op): Named {
    if name in named then named else named[name := op]
  }

  function DefinedAll(named: Named, entries: seq<NamedEntry>, file: Dims): Result<Named>
    decreases |entries|
  {
    if entries == [] then Ok(named)
    else
      var op := Defined(entries[0], file, named);
      if op.Err? then Err(op.error) else DefinedAll(Inserted(named, entries[0].name, op.value), entries[1..], file)
  }

  // ---------- Geometries ----------

  datatype GeometryData = GeometryData(startDims: Option<Dims>, startUnits: Unit, endUnits: Unit, operators: seq<Entry>)

  datatype Geometry = Geometry(start: Props, operator: Option<Op>)

  function GeometryEnd(g: Geometry): Props {
    if g.operator.Some? then End(g.operator.value) else g.start
  }

  function GeometryStart(data: GeometryData, file: Dims): Props {
    Props(if data.startDims.Some? then data.startDims.value else file, data.startUnits)
  }

  function GeometryOf(data: GeometryData, file: Dims, named: Named): Result<Geometry> {
    var start := GeometryStart(data, file);
    var op := Made(start, data.operators, named);
    if op.Err? then Err(op.error)
    else
      var g := Geometry(start, op.value);
      if GeometryEnd(g).dims != file then Err(WrongDimensions) else Ok(g)
  }
}
