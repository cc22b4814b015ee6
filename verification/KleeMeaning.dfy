/** What the text of an operator list says, and that the operator made from it does just that. */
module KleeMeaning {
  import opened KleeUnits
  import opened KleeOperators
  import opened KleeIO
  import opened KleeTheorems
  import opened Wrappers

  // ---------- Which entries fit ----------

  /** An entry can follow a shape of these dimensions. */
  predicate Fits(named: Named, entry: Entry, dims: Dims) {
    match entry
    case Translate(v) => |v| == Count(dims)
    case Rotate(m) => m.Some?
    case SliceBy(m) => dims.Three? && m.Some?
    case ScaleBy(f) => |f| == 1 || |f| == Count(dims)
    case ConvertUnitsTo(name) => exists u :: name in Spellings(u)
    case Ref(name) => name in named && named[name].start.dims == dims
    case Unknown => false
  }

  /** The dimensions after an entry. */
  function DimsAfter(named: Named, entry: Entry, dims: Dims): Dims {
    if entry.SliceBy? then Two
    else if entry.Ref? && entry.name in named then End(named[entry.name]).dims
    else dims
  }

  predicate FitsAll(named: Named, entries: seq<Entry>, dims: Dims) {
    entries == [] || (Fits(named, entries[0], dims) && FitsAll(named, entries[1..], DimsAfter(named, entries[0], dims)))
  }

  function DimsAfterAll(named: Named, entries: seq<Entry>, dims: Dims): Dims {
    if entries == [] then dims else DimsAfterAll(named, entries[1..], DimsAfter(named, entries[0], dims))
  }

  // ---------- What entries do to a point ----------

  /** The same place in other units. */
  function Rescaled(t: map<Unit, real>, source: Unit, target: Unit, p: Point): Point
    requires Sizes(t)
  {
    if source.Unspecified? || target.Unspecified? then p
    else var f := t[source] / t[target]; Point(p.x * f, p.y * f, p.z * f)
  }

  /** A matrix times a point. */
  function Multiplied(m: Affine, p: Point): Point {
    Point(m.row0.x * p.x + m.row0.y * p.y + m.row0.z * p.z + m.offset.x,
          m.row1.x * p.x + m.row1.y * p.y + m.row1.z * p.z + m.offset.y,
          m.row2.x * p.x + m.row2.y * p.y + m.row2.z * p.z + m.offset.z)
  }

  function Component(v: seq<real>, i: nat, default: real): real {
    if i < |v| then v[i] else default
  }

  /** What an entry says happens to a point given in units `u`. A plane keeps its third coordinate, unless a single
      factor scales every axis. A reference acts in the units of the operator it names. */
  function Acts(t: map<Unit, real>, named: Named, entry: Entry, u: Unit, p: Point): Point
    requires Sizes(t) && NamedOk(named)
  {
    match entry
    case Translate(v) => Point(p.x + Component(v, 0, 0.0), p.y + Component(v, 1, 0.0), p.z + Component(v, 2, 0.0))
    case Rotate(m) => if m.Some? then Multiplied(m.value, p) else p
    case SliceBy(m) => if m.Some? then Multiplied(m.value, p) else p
    case ScaleBy(f) =>
      if |f| == 1 then Point(p.x * f[0], p.y * f[0], p.z * f[0])
      else Point(p.x * Component(f, 0, 1.0), p.y * Component(f, 1, 1.0), p.z * Component(f, 2, 1.0))
    case ConvertUnitsTo(_) => Rescaled(t, u, UnitsAfter(u, entry), p)
    case Ref(name) =>
      if name !in named then p
      else
        var op := named[name];
        WellTypedMeans(op);
        Rescaled(t, End(op).units, u, Apply(t, op, Rescaled(t, u, op.start.units, p)))
    case Unknown => p
  }

  /** One entry after the other, each in the units the ones before it lead to. */
  function ActsAll(t: map<Unit, real>, named: Named, entries: seq<Entry>, u: Unit, p: Point): Point
    requires Sizes(t) && NamedOk(named)
  {
    if entries == [] then p
    else ActsAll(t, named, entries[1..], UnitsAfter(u, entries[0]), Acts(t, named, entries[0], u, p))
  }

  // ---------- Single operators ----------

  /** The entry is converted to an operator that starts here exactly when it fits. */
  lemma ConvertedIff(entry: Entry, here: Props, named: Named)
    ensures (var r := Converted(entry, here, named); r.Ok? && r.value.start == here) <==> Fits(named, entry, here.dims)
  {
    match entry {
      case ConvertUnitsTo(name) => NameKnown(name);
      case _ =>
    }
  }

  lemma NameKnown(name: string)
    ensures ParseLengthUnits(name).Ok? <==> exists u :: name in Spellings(u)
  {
    if ParseLengthUnits(name).Ok? {
      ParsedIff(name, ParseLengthUnits(name).value);
    } else {
      forall u ensures name !in Spellings(u) { ParsedIff(name, u); }
    }
  }

  lemma ConvertActs(t: map<Unit, real>, start: Props, u: Unit, p: Point)
    requires Sizes(t) && !start.units.Unspecified? && !u.Unspecified?
    ensures Apply(t, Convert(start, u), p) == Rescaled(t, start.units, u, p)
  {
    FactorIsRatio(t, start.units, u);
    ScalingIs(t[start.units] / t[u], p);
  }

  lemma RescaledToSelf(t: map<Unit, real>, u: Unit, p: Point)
    requires Sizes(t)
    ensures Rescaled(t, u, u, p) == p
  {
    if !u.Unspecified? { RatioToSelf(t[u]); }
  }

  lemma ApplyOne(t: map<Unit, real>, op: Op, p: Point)
    requires Sizes(t) && Computable(op)
    ensures AllComputable([op]) && ApplyAll(t, [op], p) == Apply(t, op, p)
  {
    assert ApplyAll(t, [op][1..], Apply(t, op, p)) == Apply(t, op, p);
  }

  /** A reference acts as the operator it names, in that operator's units. */
  lemma RefActs(t: map<Unit, real>, name: string, start: Props, named: Named, p: Point)
    requires Sizes(t) && NamedOk(named) && !start.units.Unspecified? && Referenced(name, start, named).Ok?
    ensures var r := Referenced(name, start, named).value;
      Computable(r) && Apply(t, r, p) == Acts(t, named, Ref(name), start.units, p)
  {
    var (op, r) := (named[name], Referenced(name, start, named).value);
    WellTypedMeans(op);
    RescaledToSelf(t, start.units, p);
    var q := Rescaled(t, start.units, op.start.units, p);
    RescaledToSelf(t, start.units, Apply(t, op, q));
    if r != op {
      var before := if start.units == op.start.units then [] else [Convert(start, op.start.units)];
      var after := if start.units == End(op).units then [] else [Convert(End(op), start.units)];
      assert r == Composite(start, before + [op] + after);
      if before != [] {
        ApplyOne(t, before[0], p);
        ConvertActs(t, start, op.start.units, p);
      }
      ApplyOne(t, op, q);
      if after != [] {
        ApplyOne(t, after[0], Apply(t, op, q));
        ConvertActs(t, End(op), start.units, Apply(t, op, q));
      }
      ApplyConcat(t, before, [op], p);
      ApplyConcat(t, before + [op], after, p);
    }
  }

  lemma TranslateActs(t: map<Unit, real>, v: seq<real>, here: Props, named: Named, u: Unit, p: Point)
    requires Sizes(t) && NamedOk(named) && ParseTranslate(v, here).Ok?
    ensures Apply(t, ParseTranslate(v, here).value, p) == Acts(t, named, Translate(v), u, p)
  {
    TranslatingIs(Point(v[0], v[1], if here.dims.Two? then 0.0 else v[2]), p);
  }

  lemma TranslatingIs(v: Point, p: Point)
    ensures Image(Translating(v), p) == Point(p.x + v.x, p.y + v.y, p.z + v.z)
  {
  }

  lemma ScaleActs(t: map<Unit, real>, f: seq<real>, here: Props, named: Named, u: Unit, p: Point)
    requires Sizes(t) && NamedOk(named) && ParseScale(f, here).Ok?
    ensures Apply(t, ParseScale(f, here).value, p) == Acts(t, named, ScaleBy(f), u, p)
  {
    if |f| == 1 {
      ScalingAxes(Point(f[0], f[0], f[0]), p);
    } else {
      ScalingAxes(Point(f[0], f[1], Component(f, 2, 1.0)), p);
    }
  }

  lemma ScalingAxes(f: Point, p: Point)
    ensures Image(Scaling(f.x, f.y, f.z), p) == Point(p.x * f.x, p.y * f.y, p.z * f.z)
  {
  }

  lemma ImageIs(m: Affine, p: Point)
    ensures Image(m, p) == Multiplied(m, p)
  {
  }

  /** An accepted entry does to every point what it says. */
  lemma ConvertedActs(t: map<Unit, real>, entry: Entry, here: Props, named: Named, p: Point)
    requires Sizes(t) && NamedOk(named) && !here.units.Unspecified? && Converted(entry, here, named).Ok?
    ensures var op := Converted(entry, here, named).value;
      Computable(op) && Apply(t, op, p) == Acts(t, named, entry, here.units, p)
  {
    match entry {
      case Translate(v) => TranslateActs(t, v, here, named, here.units, p);
      case ScaleBy(f) => ScaleActs(t, f, here, named, here.units, p);
      case Rotate(m) => ImageIs(m.value, p);
      case SliceBy(m) => ImageIs(m.value, p);
      case Ref(name) => RefActs(t, name, here, named, p);
      case ConvertUnitsTo(name) => ConvertActs(t, here, ParseLengthUnits(name).value, p);
      case _ =>
    }
  }

  lemma ConvertedDims(entry: Entry, here: Props, named: Named)
    requires NamedOk(named) && !here.units.Unspecified? && Fits(named, entry, here.dims)
    ensures var r := Converted(entry, here, named);
      r.Ok? && WellTyped(r.value) && r.value.start == here &&
      End(r.value) == Props(DimsAfter(named, entry, here.dims), UnitsAfter(here.units, entry))
  {
    ConvertedIff(entry, here, named);
    ConvertedWellTyped(entry, here, named);
    if entry.Ref? { RefWellTyped(entry.name, here, named); }
  }

  // ---------- Operator lists ----------

  /** A list is assembled exactly when its entries fit one after the other, and then it leads where they lead. */
  lemma {:induction false} AssembledIff(start: Props, parts: seq<Op>, entries: seq<Entry>, named: Named)
    requires NamedOk(named) && WellTyped(Composite(start, parts))
    ensures var (here, r) := (End(Composite(start, parts)), Assembled(start, parts, entries, named));
      && (r.Ok? <==> FitsAll(named, entries, here.dims))
      && (r.Ok? ==> End(Composite(start, r.value)).dims == DimsAfterAll(named, entries, here.dims))
    decreases |entries|
  {
    if entries != [] {
      var here := End(Composite(start, parts));
      ConvertedIff(entries[0], here, named);
      if Fits(named, entries[0], here.dims) {
        var op := Converted(entries[0], here, named).value;
        Extended(start, parts, entries[0], named);
        AssembledIff(start, parts + [op], entries[1..], named);
      }
    }
  }

  lemma Extended(start: Props, parts: seq<Op>, entry: Entry, named: Named)
    requires NamedOk(named) && WellTyped(Composite(start, parts)) && Fits(named, entry, End(Composite(start, parts)).dims)
    ensures var here := End(Composite(start, parts));
      var r := Converted(entry, here, named);
      && !here.units.Unspecified? && r.Ok? && r.value.start == here && WellTyped(Composite(start, parts + [r.value]))
      && End(Composite(start, parts + [r.value])) == Props(DimsAfter(named, entry, here.dims), UnitsAfter(here.units, entry))
  {
    var here := End(Composite(start, parts));
    WellTypedMeans(Composite(start, parts));
    ConvertedDims(entry, here, named);
    var op := Converted(entry, here, named).value;
    SingleLinked(here, op);
    LinkedConcat(start, parts, here, [op], End(op));
  }

  /** The assembled parts do to every point what the entries say, in their order. */
  lemma {:induction false} AssembledActs(
    t: map<Unit, real>, start: Props, parts: seq<Op>, entries: seq<Entry>, named: Named, p: Point)
    requires Sizes(t) && NamedOk(named) && WellTyped(Composite(start, parts)) && Assembled(start, parts, entries, named).Ok?
    ensures var r := Assembled(start, parts, entries, named).value;
      && AllComputable(parts) && AllComputable(r)
      && ApplyAll(t, r, p) == ActsAll(t, named, entries, End(Composite(start, parts)).units, ApplyAll(t, parts, p))
    decreases |entries|
  {
    WellTypedMeans(Composite(start, parts));
    if entries != [] {
      var here := End(Composite(start, parts));
      ConvertedIff(entries[0], here, named);
      Extended(start, parts, entries[0], named);
      var op := Converted(entries[0], here, named).value;
      ConvertedActs(t, entries[0], here, named, ApplyAll(t, parts, p));
      ApplyOne(t, op, ApplyAll(t, parts, p));
      ApplyConcat(t, parts, [op], p);
      AssembledActs(t, start, parts + [op], entries[1..], named, p);
    }
  }

  /** `makeOperator` accepts a list exactly when it is empty, or its units are known and its entries fit. */
  lemma MadeIff(start: Props, entries: seq<Entry>, named: Named)
    requires NamedOk(named)
    ensures Made(start, entries, named).Ok? <==>
      entries == [] || (!start.units.Unspecified? && FitsAll(named, entries, start.dims))
  {
    if !start.units.Unspecified? {
      assert WellTyped(Composite(start, []));
      AssembledIff(start, [], entries, named);
    }
  }

  /** The operator leads from where it was asked to start to where its entries lead, and does to every point what they say. */
  ghost predicate DoesWhatItSays(start: Props, entries: seq<Entry>, named: Named, op: Op)
    requires NamedOk(named)
  {
    && WellTyped(op) && Computable(op) && op.start == start
    && End(op) == Props(DimsAfterAll(named, entries, start.dims), EndUnits(start.units, entries))
    && forall t, p :: Sizes(t) ==> Apply(t, op, p) == ActsAll(t, named, entries, start.units, p)
  }

  lemma MadeActs(start: Props, entries: seq<Entry>, named: Named)
    requires NamedOk(named) && Made(start, entries, named).Ok? && entries != []
    ensures var r := Made(start, entries, named).value; r.Some? && DoesWhatItSays(start, entries, named, r.value)
  {
    MadeWellTyped(start, entries, named);
    AssembledIff(start, [], entries, named);
    var op := Made(start, entries, named).value.value;
    WellTypedMeans(op);
    forall t, p | Sizes(t) ensures Apply(t, op, p) == ActsAll(t, named, entries, start.units, p) {
      AssembledActs(t, start, [], entries, named, p);
    }
  }

  // ---------- Named operators ----------

  /** The first definition of a name, or the number of definitions. */
  function FirstDefinition(entries: seq<NamedEntry>, name: string): (i: nat)
    ensures i <= |entries|
    ensures forall j :: 0 <= j < i ==> entries[j].name != name
    ensures i < |entries| ==> entries[i].name == name
  {
    if entries == [] || entries[0].name == name then 0 else 1 + FirstDefinition(entries[1..], name)
  }

  lemma FirstInPrefix(entries: seq<NamedEntry>, n: nat, name: string)
    requires n <= |entries|
    ensures var i := FirstDefinition(entries, name); FirstDefinition(entries[..n], name) == if i < n then i else n
  {
    var j := FirstDefinition(entries[..n], name);
  }

  /** A named entry is accepted exactly when it is a non-empty list that fits and ends in its end units. */
  lemma DefinedIff(entry: NamedEntry, file: Dims, named: Named)
    requires NamedOk(named)
    ensures Defined(entry, file, named).Ok? <==>
      && entry.value != [] && !entry.startUnits.Unspecified? && EndUnits(entry.startUnits, entry.value) == entry.endUnits
      && FitsAll(named, entry.value, StartOf(entry, file).dims)
    ensures Defined(entry, file, named).Ok? ==>
      DoesWhatItSays(StartOf(entry, file), entry.value, named, Defined(entry, file, named).value)
  {
    var start := StartOf(entry, file);
    NotNull(start, entry.value, named);
    MadeIff(start, entry.value, named);
    if entry.value != [] && Made(start, entry.value, named).Ok? { MadeActs(start, entry.value, named); }
  }

  lemma {:induction false} DefinedAllSnoc(named: Named, entries: seq<NamedEntry>, e: NamedEntry, file: Dims)
    ensures var before := DefinedAll(named, entries, file);
      DefinedAll(named, entries + [e], file) ==
        if before.Err? then before
        else var op := Defined(e, file, before.value);
          if op.Err? then Err(op.error) else Ok(Inserted(before.value, e.name, op.value))
    decreases |entries|
  {
    if entries == [] {
      assert [e][1..] == [] && entries + [e] == [e];
    } else {
      var op := Defined(entries[0], file, named);
      assert (entries + [e])[1..] == entries[1..] + [e];
      if op.Ok? { DefinedAllSnoc(Inserted(named, entries[0].name, op.value), entries[1..], e, file); }
    }
  }

  /** The named operators known before entry `i`. */
  function Before(entries: seq<NamedEntry>, i: nat, file: Dims): Result<Named>
    requires i <= |entries|
  {
    DefinedAll(map[], entries[..i], file)
  }

  /** What the first entry with the name defines, given the operators before that entry. */
  ghost predicate DefinedFirst(entries: seq<NamedEntry>, file: Dims, name: string, named: Named) {
    var i := FirstDefinition(entries, name);
    && (name in named <==> i < |entries|)
    && (name in named ==>
      Before(entries, i, file).Ok? && Defined(entries[i], file, Before(entries, i, file).value) == Ok(named[name]))
  }

  /** The map that is read has exactly the names of the file, each with what its first entry defines, given the operators
      before that entry. */
  lemma {:induction false} NamesAre(entries: seq<NamedEntry>, file: Dims, name: string)
    requires DefinedAll(map[], entries, file).Ok?
    ensures DefinedFirst(entries, file, name, DefinedAll(map[], entries, file).value)
    decreases |entries|
  {
    if entries != [] {
      var n := |entries| - 1;
      assert entries == entries[..n] + [entries[n]];
      DefinedAllSnoc(map[], entries[..n], entries[n], file);
      NamesAre(entries[..n], file, name);
      var (before, op) := (Before(entries, n, file).value, Defined(entries[n], file, Before(entries, n, file).value).value);
      FirstAmong(entries, n, file, name, before, op);
    }
  }

  lemma FirstAmong(entries: seq<NamedEntry>, n: nat, file: Dims, name: string, before: Named, op: Op)
    requires n + 1 == |entries| && DefinedFirst(entries[..n], file, name, before)
    requires Before(entries, n, file) == Ok(before) && Defined(entries[n], file, before) == Ok(op)
    ensures DefinedFirst(entries, file, name, Inserted(before, entries[n].name, op))
  {
    FirstInPrefix(entries, n, name);
    var i := FirstDefinition(entries, name);
    if i < n { assert entries[..n][..i] == entries[..i]; }
  }

  /** A named operator starts and ends as its first entry says, and does to every point what that entry says. */
  lemma NamedMeaning(entries: seq<NamedEntry>, file: Dims, name: string)
    requires DefinedAll(map[], entries, file).Ok? && FirstDefinition(entries, name) < |entries|
    ensures var (named, i) := (DefinedAll(map[], entries, file).value, FirstDefinition(entries, name));
      && name in named && Before(entries, i, file).Ok? && NamedOk(Before(entries, i, file).value)
      && DoesWhatItSays(StartOf(entries[i], file), entries[i].value, Before(entries, i, file).value, named[name])
      && End(named[name]).units == entries[i].endUnits && !entries[i].endUnits.Unspecified?
  {
    var i := FirstDefinition(entries, name);
    NamesAre(entries, file, name);
    DefinedAllWellTyped(map[], entries[..i], file);
    DefinedIff(entries[i], file, Before(entries, i, file).value);
    WellTypedMeans(DefinedAll(map[], entries, file).value[name]);
  }

  /** The map holds what the entries define: exactly their names, each with what its first entry says. */
  ghost predicate HoldsDefinitions(named: Named, entries: seq<NamedEntry>, file: Dims) {
    forall name :: var i := FirstDefinition(entries, name);
      && (name in named <==> i < |entries|)
      && (name in named ==>
        && Before(entries, i, file).Ok? && NamedOk(Before(entries, i, file).value)
        && DoesWhatItSays(StartOf(entries[i], file), entries[i].value, Before(entries, i, file).value, named[name])
        && StartsAs(named[name].start, entries[i].startDims, entries[i].startUnits, file)
        && End(named[name]).units == entries[i].endUnits)
  }

  /** The start properties that dimensions, which may be left out, and units ask for. */
  predicate StartsAs(start: Props, dims: Option<Dims>, units: Unit, file: Dims) {
    start.units == units && (dims == Some(start.dims) || (dims.None? && start.dims == file))
  }

  lemma AllNamesAre(entries: seq<NamedEntry>, file: Dims)
    requires DefinedAll(map[], entries, file).Ok?
    ensures HoldsDefinitions(DefinedAll(map[], entries, file).value, entries, file)
  {
    forall name ensures name in DefinedAll(map[], entries, file).value <==> FirstDefinition(entries, name) < |entries| {
      NamesAre(entries, file, name);
    }
    forall name | FirstDefinition(entries, name) < |entries|
      ensures var (named, i) := (DefinedAll(map[], entries, file).value, FirstDefinition(entries, name));
        && name in named && Before(entries, i, file).Ok? && NamedOk(Before(entries, i, file).value)
        && DoesWhatItSays(StartOf(entries[i], file), entries[i].value, Before(entries, i, file).value, named[name])
        && End(named[name]).units == entries[i].endUnits
    {
      NamedMeaning(entries, file, name);
    }
  }

  /** A reference is accepted exactly when its name is defined in the file with the dimensions of the caller. */
  lemma RefFitsIff(entries: seq<NamedEntry>, file: Dims, name: string, dims: Dims)
    requires DefinedAll(map[], entries, file).Ok?
    ensures Fits(DefinedAll(map[], entries, file).value, Ref(name), dims) <==>
      var i := FirstDefinition(entries, name); i < |entries| && StartOf(entries[i], file).dims == dims
  {
    NamesAre(entries, file, name);
    if FirstDefinition(entries, name) < |entries| { NamedMeaning(entries, file, name); }
  }

  /** All named operators of a file are accepted exactly when each is accepted with the ones before it. */
  lemma {:induction false} DefinedAllIff(entries: seq<NamedEntry>, file: Dims)
    ensures DefinedAll(map[], entries, file).Ok? <==>
      forall i :: 0 <= i < |entries| ==>
        Before(entries, i, file).Ok? && Defined(entries[i], file, Before(entries, i, file).value).Ok?
    decreases |entries|
  {
    if entries != [] {
      var n := |entries| - 1;
      var (rest, e) := (entries[..n], entries[n]);
      assert entries == rest + [e];
      DefinedAllSnoc(map[], rest, e, file);
      DefinedAllIff(rest, file);
      forall i | 0 <= i < n ensures Before(rest, i, file) == Before(entries, i, file) { assert rest[..i] == entries[..i]; }
      assert Before(entries, n, file) == DefinedAll(map[], rest, file);
    }
  }

  // ---------- The text of a file ----------

  /** What a list says, with every reference replaced by the list it names. No operator object is involved. */
  function TextActs(t: map<Unit, real>, defs: seq<NamedEntry>, entries: seq<Entry>, u: Unit, p: Point): Point
    requires Sizes(t)
    decreases |defs|, |entries|
  {
    if entries == [] then p
    else TextActs(t, defs, entries[1..], UnitsAfter(u, entries[0]), TextActsOne(t, defs, entries[0], u, p))
  }

  function TextActsOne(t: map<Unit, real>, defs: seq<NamedEntry>, e: Entry, u: Unit, p: Point): Point
    requires Sizes(t)
    decreases |defs|, 0
  {
    if !e.Ref? then Acts(t, map[], e, u, p)
    else
      var i := FirstDefinition(defs, e.name);
      if i == |defs| then p
      else
        var d := defs[i];
        Rescaled(t, d.endUnits, u, TextActs(t, defs[..i], d.value, d.startUnits, Rescaled(t, u, d.startUnits, p)))
  }

  lemma NamedActs(t: map<Unit, real>, defs: seq<NamedEntry>, file: Dims, name: string, q: Point)
    requires Sizes(t) && DefinedAll(map[], defs, file).Ok? && FirstDefinition(defs, name) < |defs|
    ensures var (named, i) := (DefinedAll(map[], defs, file).value, FirstDefinition(defs, name));
      && name in named && Computable(named[name]) && Before(defs, i, file).Ok? && NamedOk(Before(defs, i, file).value)
      && named[name].start.units == defs[i].startUnits && End(named[name]).units == defs[i].endUnits
      && Apply(t, named[name], q) == ActsAll(t, Before(defs, i, file).value, defs[i].value, defs[i].startUnits, q)
  {
    NamedMeaning(defs, file, name);
  }

  /** References can be replaced by their definitions: the operators read from a file do what its text says. */
  lemma {:induction false} TextMeaning(
    t: map<Unit, real>, defs: seq<NamedEntry>, file: Dims, entries: seq<Entry>, u: Unit, p: Point)
    requires Sizes(t) && DefinedAll(map[], defs, file).Ok? && NamedOk(DefinedAll(map[], defs, file).value)
    ensures ActsAll(t, DefinedAll(map[], defs, file).value, entries, u, p) == TextActs(t, defs, entries, u, p)
    decreases |defs|, |entries|
  {
    if entries != [] {
      TextMeaningOne(t, defs, file, entries[0], u, p);
      TextMeaning(t, defs, file, entries[1..], UnitsAfter(u, entries[0]), TextActsOne(t, defs, entries[0], u, p));
    }
  }

  lemma {:induction false} TextMeaningOne(t: map<Unit, real>, defs: seq<NamedEntry>, file: Dims, e: Entry, u: Unit, p: Point)
    requires Sizes(t) && DefinedAll(map[], defs, file).Ok? && NamedOk(DefinedAll(map[], defs, file).value)
    ensures Acts(t, DefinedAll(map[], defs, file).value, e, u, p) == TextActsOne(t, defs, e, u, p)
    decreases |defs|, 0
  {
    if e.Ref? {
      var i := FirstDefinition(defs, e.name);
      NamesAre(defs, file, e.name);
      if i < |defs| {
        var q := Rescaled(t, u, defs[i].startUnits, p);
        NamedActs(t, defs, file, e.name, q);
        TextMeaning(t, defs[..i], file, defs[i].value, defs[i].startUnits, q);
      }
    }
  }

  // ---------- Geometries ----------

  /** A geometry is accepted exactly when its list is and leads to the dimensions of the file. */
  lemma GeometryIff(data: GeometryData, file: Dims, named: Named)
    requires NamedOk(named)
    ensures GeometryOf(data, file, named).Ok? <==>
      var dims := GeometryStart(data, file).dims;
      && (data.operators == [] || (!data.startUnits.Unspecified? && FitsAll(named, data.operators, dims)))
      && DimsAfterAll(named, data.operators, dims) == file
  {
    var start := GeometryStart(data, file);
    NotNull(start, data.operators, named);
    MadeIff(start, data.operators, named);
    if data.operators != [] && Made(start, data.operators, named).Ok? { MadeActs(start, data.operators, named); }
  }

  /** With operators read from the file, an accepted geometry does to every point what the text says. It moves every place
      as its transforms and slices do one after the other, and no unit conversion in it can fail. */
  lemma AcceptedMeaning(data: GeometryData, file: Dims, entries: seq<NamedEntry>, named: Named, q: Point)
    requires DefinedAll(map[], entries, file) == Ok(named)
    requires GeometryOf(data, file, named).Ok? && GeometryOf(data, file, named).value.operator.Some?
    ensures var op := GeometryOf(data, file, named).value.operator.value;
      && WellTyped(op) && Computable(op) && Sizes(CONVERSION_TO_CM)
      && Apply(CONVERSION_TO_CM, op, q) == TextActs(CONVERSION_TO_CM, entries, data.operators, data.startUnits, q)
      && AllWellTyped(WithoutConverters(Flatten(op)))
      && Physical(CONVERSION_TO_CM, op, q) == PhysicalAll(CONVERSION_TO_CM, WithoutConverters(Flatten(op)), q)
  {
    var op := GeometryOf(data, file, named).value.operator.value;
    DefinedAllWellTyped(map[], entries, file);
    NotNull(GeometryStart(data, file), data.operators, named);
    MadeActs(GeometryStart(data, file), data.operators, named);
    TableIsSizes();
    TextMeaning(CONVERSION_TO_CM, entries, file, data.operators, data.startUnits, q);
    PhysicalMeaning(CONVERSION_TO_CM, op, q);
  }
}
