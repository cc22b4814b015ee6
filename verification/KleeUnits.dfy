/** Klee's length units and conversion factors. */
module KleeUnits {

  datatype Error =
    | UnrecognizedUnits | UnspecifiedUnits | BadField | InvalidTransformation | NoSuchOperator
    | SliceFromTwo | Mismatch | EndUnitsMismatch | NullOperator | WrongDimensions

  datatype Result<T> = Ok(value: T) | Err(error: Error)

  datatype Unit = Km | M | Dm | Cm | Mm | Um | Nm | Angstrom | Miles | Feet | Inches | Mils | Unspecified

  /** The length of each unit in centimetres. */
  const CONVERSION_TO_CM: map<Unit, real> := map[
    Km := 100000.0, M := 100.0, Dm := 10.0, Cm := 1.0, Mm := 0.1, Um := 0.0001, Nm := 0.0000001, Angstrom := 0.00000001,
    Miles := 2.54 * 12.0 * 5280.0, Feet := 2.54 * 12.0, Inches := 2.54, Mils := 0.00254]

  /** A table with a positive size for every unit, measured in centimetres. */
  ghost predicate Sizes(t: map<Unit, real>) {
    && (forall u: Unit :: !u.Unspecified? ==> u in t && t[u] > 0.0)
    && t[Cm] == 1.0
  }

  /** The sizes stand in the ratios by which the units are defined. */
  ghost predicate Proportioned(t: map<Unit, real>)
    requires Sizes(t)
  {
    && t[Km] == 1000.0 * t[M] && t[M] == 10.0 * t[Dm] && t[Dm] == 10.0 * t[Cm] && t[Cm] == 10.0 * t[Mm]
    && t[Mm] == 1000.0 * t[Um] && t[Um] == 1000.0 * t[Nm] && t[Nm] == 10.0 * t[Angstrom]
    && t[Miles] == 5280.0 * t[Feet] && t[Feet] == 12.0 * t[Inches] && t[Inches] == 1000.0 * t[Mils]
    && t[Inches] == 2.54 * t[Cm]
  }

  lemma TableIsSizes()
    ensures Sizes(CONVERSION_TO_CM) && Proportioned(CONVERSION_TO_CM)
  {
  }

  const UNITS_BY_NAME: map<string, Unit> := map[
    "km" := Km, "m" := M, "dm" := Dm, "cm" := Cm, "mm" := Mm, "um" := Um, "nm" := Nm, "A" := Angstrom,
    "miles" := Miles, "ft" := Feet, "feet" := Feet, "in" := Inches, "inches" := Inches, "mils" := Mils]

  function ParseLengthUnits(name: string): (r: Result<Unit>)
    ensures r.Ok? ==> !r.value.Unspecified?
    ensures r.Err? ==> r.error.UnrecognizedUnits?
  {
    if name in UNITS_BY_NAME then Ok(UNITS_BY_NAME[name]) else Err(UnrecognizedUnits)
  }

  /** How a unit may be written. */
  function Spellings(u: Unit): set<string> {
    match u
    case Km => {"km"} case M => {"m"} case Dm => {"dm"} case Cm => {"cm"} case Mm => {"mm"} case Um => {"um"}
    case Nm => {"nm"} case Angstrom => {"A"} case Miles => {"miles"} case Feet => {"ft", "feet"}
    case Inches => {"in", "inches"} case Mils => {"mils"} case Unspecified => {}
  }

  /** A name is read as a unit exactly when it is one of the unit's spellings, so no name has two readings. */
  lemma ParsedIff(name: string, u: Unit)
    ensures ParseLengthUnits(name) == Ok(u) <==> name in Spellings(u)
  {
  }

  function ConversionFactor(t: map<Unit, real>, source: Unit, target: Unit): (r: Result<real>)
    requires Sizes(t)
    ensures r.Err? <==> source.Unspecified? || target.Unspecified?
  {
    if source.Unspecified? || target.Unspecified? then Err(UnspecifiedUnits)
    else if source == target then Ok(1.0)
    else if target.Cm? then Ok(t[source])
    else Ok(t[source] / t[target])
  }

  /** Every branch of the conversion gives the ratio of the two sizes. */
  lemma FactorIsRatio(t: map<Unit, real>, source: Unit, target: Unit)
    requires Sizes(t) && !source.Unspecified? && !target.Unspecified?
    ensures ConversionFactor(t, source, target) == Ok(t[source] / t[target])
  {
    RatioToSelf(t[source]);
  }

  lemma RatioToSelf(a: real)
    requires a > 0.0
    ensures a / a == 1.0
  {
  }
}
