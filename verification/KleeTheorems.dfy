/** What Klee accepts is well typed, and references keep their meaning. */
module KleeTheorems {
  import opened KleeUnits
  import opened KleeOperators
  import opened KleeIO
  import opened Wrappers

  ghost predicate NamedOk(named: Named) {
    forall name <- named :: WellTyped(named[name])
  }

  // ---------- References ----------

  lemma SingleLinked(start: Props, op: Op)
    requires op.start == start
    ensures Linked(start, [op], End(op))
  {
    assert Linked(End(op), [op][1..], End(op));
  }

  /** An accepted reference is well typed and returns to the caller's units; it starts at the caller's properties
      exactly when the dimensions agree. */
  lemma RefWellTyped(name: string, start: Props, named: Named)
    requires NamedOk(named) && !start.units.Unspecified? && Referenced(name, start, named).Ok?
    ensures var r := Referenced(name, start, named).value;
      && WellTyped(r)
      && End(r) == Props(End(named[name]).dims, start.units)
      && (r.start == start <==> named[name].start.dims == start.dims)
  {
    var op := named[name];
    var r := Referenced(name, start, named).value;
    WellTypedMeans(op);
    if r != op {
      var before := if start.units == op.start.units then [] else [Convert(start, op.start.units)];
      var after := if start.units == End(op).units then [] else [Convert(End(op), start.units)];
      assert r == Composite(start, before + [op] + after);
      if before != [] { SingleLinked(start, before[0]); }
      SingleLinked(op.start, op);
      if after != [] { SingleLinked(End(op), after[0]); }
      LinkedConcat(start, before, op.start, [op], End(op));
      LinkedConcat(start, before + [op], End(op), after, Props(End(op).dims, start.units));
      LinkedEnd(start, before + [op] + after, Props(End(op).dims, start.units));
    }
  }

  /** An accepted reference moves every place exactly as the operator it names, whichever units differ. */
  lemma RefSameAction(t: map<Unit, real>, name: string, start: Props, named: Named, q: Point)
    requires Sizes(t) && NamedOk(named) && !start.units.Unspecified? && Referenced(name, start, named).Ok?
    ensures WellTyped(Referenced(name, start, named).value)
    ensures Physical(t, Referenced(name, start, named).value, q) == Physical(t, named[name], q)
  {
    RefWellTyped(name, start, named);
    var (op, r) := (named[name], Referenced(name, start, named).value);
    PhysicalMeaning(t, op, q);
    PhysicalMeaning(t, r, q);
    if r != op {
      var before := if start.units == op.start.units then [] else [Convert(start, op.start.units)];
      var after := if start.units == End(op).units then [] else [Convert(End(op), start.units)];
      assert WithoutConverters(Flatten(r)) == Core(before + [op] + after);
      CoreAround(before, op, after);
    }
  }

  /** The transforms and slices of a list of operators, in the order they act. */
  function Core(ops: seq<Op>): seq<Op> {
    WithoutConverters(FlattenAll(ops))
  }

  lemma CoreConcat(xs: seq<Op>, ys: seq<Op>)
    ensures Core(xs + ys) == Core(xs) + Core(ys)
  {
    FlattenAllConcat(xs, ys);
    DropConcat(FlattenAll(xs), FlattenAll(ys));
  }

  lemma {:induction false} CoreOfConverters(ops: seq<Op>)
    requires forall i :: 0 <= i < |ops| ==> ops[i].Convert?
    ensures Core(ops) == []
    decreases |ops|
  {
    if ops != [] {
      CoreOfConverters(ops[1..]);
      DropConcat([ops[0]], FlattenAll(ops[1..]));
      assert FlattenAll(ops) == [ops[0]] + FlattenAll(ops[1..]);
      assert WithoutConverters([ops[0]]) == WithoutConverters([ops[0]][1..]) == [];
    }
  }

  lemma CoreOfOne(op: Op)
    ensures Core([op]) == WithoutConverters(Flatten(op))
  {
    assert FlattenAll([op]) == Flatten(op) + FlattenAll([op][1..]);
    assert Flatten(op) + [] == Flatten(op);
  }

  /** Converters around an operator leave nothing once converters are dropped. */
  lemma CoreAround(before: seq<Op>, op: Op, after: seq<Op>)
    requires (forall i :: 0 <= i < |before| ==> before[i].Convert?) && forall i :: 0 <= i < |after| ==> after[i].Convert?
    ensures Core(before + [op] + after) == WithoutConverters(Flatten(op))
  {
    CoreConcat(before + [op], after);
    CoreConcat(before, [op]);
    CoreOfConverters(before);
    CoreOfConverters(after);
    CoreOfOne(op);
  }

  lemma {:induction false} FlattenAllConcat(xs: seq<Op>, ys: seq<Op>)
    ensures FlattenAll(xs + ys) == FlattenAll(xs) + FlattenAll(ys)
    decreases |xs|
  {
    if xs == [] {
      assert xs + ys == ys;
    } else {
      FlattenAllConcat(xs[1..], ys);
      assert (xs + ys)[1..] == xs[1..] + ys;
    }
  }

  lemma Associates(xs: seq<Op>, ys: seq<Op>, zs: seq<Op>)
    ensures xs + (ys + zs) == xs + ys + zs
  {
  }

  lemma {:induction false} DropConcat(xs: seq<Op>, ys: seq<Op>)
    ensures WithoutConverters(xs + ys) == WithoutConverters(xs) + WithoutConverters(ys)
    decreases |xs|
  {
    if xs == [] {
      assert xs + ys == ys;
    } else {
      DropConcat(xs[1..], ys);
      var head := if xs[0].Convert? then [] else [xs[0]];
      assert (xs + ys)[1..] == xs[1..] + ys && (xs + ys)[0] == xs[0];
      Associates(head, WithoutConverters(xs[1..]), WithoutConverters(ys));
    }
  }

  // ---------- Single operators ----------

  /** The dimensions and units after an entry: only slices and references change the former, only conversions the latter. */
  lemma ConvertedWellTyped(entry: Entry, start: Props, named: Named)
    requires NamedOk(named) && !start.units.Unspecified? && Converted(entry, start, named).Ok?
    ensures var op := Converted(entry, start, named).value;
      && WellTyped(op)
      && End(op).units == UnitsAfter(start.units, entry)
      && (!entry.Ref? ==> op.start == start && End(op).dims == if entry.SliceBy? then Two else start.dims)
  {
    if entry.Ref? { RefWellTyped(entry.name, start, named); }
  }

  /** The units after an entry; a reference returns to the units before it. */
  function UnitsAfter(u: Unit, entry: Entry): Unit {
    if entry.ConvertUnitsTo? && ParseLengthUnits(entry.name).Ok? then ParseLengthUnits(entry.name).value else u
  }

  /** The units after a list of entries: those of its last conversion, else the ones it starts with. */
  function EndUnits(u: Unit, entries: seq<Entry>): Unit {
    if entries == [] then u else UnitsAfter(EndUnits(u, entries[..|entries| - 1]), entries[|entries| - 1])
  }

  lemma {:induction false} EndUnitsCons(u: Unit, entries: seq<Entry>)
    requires entries != []
    ensures EndUnits(u, entries) == EndUnits(UnitsAfter(u, entries[0]), entries[1..])
    decreases |entries|
  {
    if |entries| > 1 {
      EndUnitsCons(u, entries[..|entries| - 1]);
      assert entries[..|entries| - 1][1..] == entries[1..][..|entries| - 2];
    } else {
      assert entries[..0] == [] && entries[1..] == [];
    }
  }

  // ---------- Operator lists ----------

  lemma {:induction false} AssembledWellTyped(start: Props, parts: seq<Op>, entries: seq<Entry>, named: Named)
    requires NamedOk(named) && WellTyped(Composite(start, parts)) && Assembled(start, parts, entries, named).Ok?
    ensures var op := Composite(start, Assembled(start, parts, entries, named).value);
      WellTyped(op) && End(op).units == EndUnits(End(Composite(start, parts)).units, entries)
    decreases |entries|
  {
    if entries != [] {
      EndUnitsCons(End(Composite(start, parts)).units, entries);
      var here := End(Composite(start, parts));
      WellTypedMeans(Composite(start, parts));
      ConvertedWellTyped(entries[0], here, named);
      var op := Converted(entries[0], here, named).value;
      SingleLinked(here, op);
      LinkedConcat(start, parts, here, [op], End(op));
      AssembledWellTyped(start, parts + [op], entries[1..], named);
    }
  }

  /** Every operator that is made is well typed, starts where it was asked to and ends in the units of its last conversion. */
  lemma MadeWellTyped(start: Props, entries: seq<Entry>, named: Named)
    requires NamedOk(named) && Made(start, entries, named).Ok? && Made(start, entries, named).value.Some?
    ensures var op := Made(start, entries, named).value.value;
      WellTyped(op) && op.start == start && End(op).units == EndUnits(start.units, entries)
  {
    assert WellTyped(Composite(start, []));
    AssembledWellTyped(start, [], entries, named);
  }

  // ---------- Named operators ----------

  lemma {:induction false} DefinedAllWellTyped(named: Named, entries: seq<NamedEntry>, file: Dims)
    requires NamedOk(named) && DefinedAll(named, entries, file).Ok?
    ensures NamedOk(DefinedAll(named, entries, file).value)
    decreases |entries|
  {
    if entries != [] {
      MadeWellTyped(StartOf(entries[0], file), entries[0].value, named);
      var op := Defined(entries[0], file, named).value;
      DefinedAllWellTyped(Inserted(named, entries[0].name, op), entries[1..], file);
    }
  }

  /** A name that is defined keeps its first definition. */
  lemma {:induction false} FirstDefinitionWins(named: Named, entries: seq<NamedEntry>, file: Dims, name: string)
    requires name in named && DefinedAll(named, entries, file).Ok?
    ensures name in DefinedAll(named, entries, file).value && DefinedAll(named, entries, file).value[name] == named[name]
    decreases |entries|
  {
    if entries != [] {
      var op := Defined(entries[0], file, named).value;
      FirstDefinitionWins(Inserted(named, entries[0].name, op), entries[1..], file, name);
    }
  }

  /** Reading the named operators dereferences a null operator exactly when some entry is empty and everything
      before it is accepted. */
  lemma {:induction false} NullOperatorIff(named: Named, entries: seq<NamedEntry>, file: Dims)
    ensures DefinedAll(named, entries, file) == Err(NullOperator) <==>
      exists i :: 0 <= i < |entries| && entries[i].value == [] && DefinedAll(named, entries[..i], file).Ok?
    decreases |entries|
  {
    if entries != [] {
      NotNull(StartOf(entries[0], file), entries[0].value, named);
      var op := Defined(entries[0], file, named);
      assert entries[..0] == [];
      if op.Ok? {
        var next := Inserted(named, entries[0].name, op.value);
        NullOperatorIff(next, entries[1..], file);
        forall i | 0 < i < |entries| ensures DefinedAll(named, entries[..i], file) == DefinedAll(next, entries[1..][..i - 1], file) {
          assert entries[..i][1..] == entries[1..][..i - 1];
        }
      } else {
        forall i | 0 < i < |entries| ensures DefinedAll(named, entries[..i], file).Err? {
          assert entries[..i][0] == entries[0];
        }
      }
    }
  }

  /** A file whose only named operator is empty fails this way. */
  lemma EmptyNamedOperator(name: string, u: Unit, file: Dims)
    ensures DefinedAll(map[], [NamedEntry(name, None, u, u, [])], file) == Err(NullOperator)
  {
    var entries := [NamedEntry(name, None, u, u, [])];
    NullOperatorIff(map[], entries, file);
    assert entries[0].value == [] && DefinedAll(map[], entries[..0], file).Ok?;
  }

  lemma NotNull(start: Props, entries: seq<Entry>, named: Named)
    ensures Made(start, entries, named) != Err(NullOperator)
    ensures Made(start, entries, named) == Ok(None) <==> entries == []
  {
    AssembledNotNull(start, [], entries, named);
  }

  lemma {:induction false} AssembledNotNull(start: Props, parts: seq<Op>, entries: seq<Entry>, named: Named)
    ensures Assembled(start, parts, entries, named) != Err(NullOperator)
    decreases |entries|
  {
    if entries != [] {
      var here := End(Composite(start, parts));
      var op := Converted(entries[0], here, named);
      if op.Ok? { AssembledNotNull(start, parts + [op.value], entries[1..], named); }
    }
  }

  // ---------- Geometries ----------

  /** An accepted geometry flattens to a linked chain whose slices are exactly the dimensions it loses, and it never
      gains one. */
  lemma AcceptedChain(data: GeometryData, file: Dims, named: Named)
    requires NamedOk(named) && GeometryOf(data, file, named).Ok?
    ensures var g := GeometryOf(data, file, named).value;
      && g.start == GeometryStart(data, file)
      && (g.operator.None? ==> g.start.dims == file)
      && (g.operator.Some? ==>
        var chain := Flatten(g.operator.value);
        && Linked(g.start, chain, End(g.operator.value)) && Basic(chain) && AllWellTyped(chain)
        && Slices(chain) == Count(g.start.dims) - Count(file))
    ensures !(GeometryStart(data, file).dims.Two? && file.Three?)
  {
    var g := GeometryOf(data, file, named).value;
    if g.operator.Some? {
      MadeWellTyped(g.start, data.operators, named);
      FlattenLinked(g.operator.value);
      SlicesDropDimensions(g.start, Flatten(g.operator.value), End(g.operator.value));
    }
  }

  // ---------- The end units of a geometry ----------

  /** An accepted geometry ends in the units its data asks for exactly when these are the units of its last conversion,
      or those it starts with when there is none. Nothing else is checked. */
  lemma EndUnitsMetIff(data: GeometryData, file: Dims, named: Named)
    requires NamedOk(named) && GeometryOf(data, file, named).Ok?
    ensures GeometryEnd(GeometryOf(data, file, named).value).units == data.endUnits <==>
      EndUnits(data.startUnits, data.operators) == data.endUnits
  {
    var g := GeometryOf(data, file, named).value;
    if g.operator.Some? {
      MadeWellTyped(g.start, data.operators, named);
    } else {
      NotNull(g.start, data.operators, named);
    }
  }

  /** A geometry in inches that asks to end in feet and has no conversion is accepted, and ends in inches. */
  lemma EndUnitsIgnored()
    ensures var data := GeometryData(None, Inches, Feet, [Translate([1.0, 2.0])]);
      && GeometryOf(data, Two, map[]).Ok?
      && GeometryEnd(GeometryOf(data, Two, map[]).value).units == Inches != data.endUnits
  {
    var (start, op) := (Props(Two, Inches), Transform(Props(Two, Inches), Translating(Point(1.0, 2.0, 0.0))));
    var entries := [Translate([1.0, 2.0])];
    assert Converted(entries[0], start, map[]) == Ok(op);
    assert entries[1..] == [] && [] + [op] == [op];
    assert Assembled(start, [], entries, map[]) == Ok([op]);
  }
}
