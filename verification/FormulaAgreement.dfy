/** What compiling a formula promises about evaluating it. */
module FormulaAgreement {
  import opened Basics
  import opened Oids
  import opened Formulas

  // ---------------------------------------------------------------- collected sources

  predicate Collected(sources: seq<string>) {
    Distinct(sources) && |sources| <= MAX_FORMULA_SOURCE_OIDS
  }

  lemma AddSourceCollects(sources: seq<string>, oid: string)
    requires Collected(sources) && AddSource(sources, oid).Ok?
    ensures Collected(AddSource(sources, oid).value)
    ensures Elements(AddSource(sources, oid).value) == Elements(sources) + {oid}
  {
  }

  lemma {:induction false} AddSourcesCollects(sources: seq<string>, oids: seq<string>)
    requires Collected(sources) && AddSources(sources, oids).Ok?
    ensures Collected(AddSources(sources, oids).value)
    ensures Elements(AddSources(sources, oids).value) == Elements(sources) + Elements(oids)
  {
    if oids != [] {
      var last := |oids| - 1;
      AddSourcesCollects(sources, oids[..last]);
      AddSourceCollects(AddSources(sources, oids[..last]).value, oids[last]);
      assert oids == oids[..last] + [oids[last]];
    }
  }

  /** Walking an accepted expression adds exactly the sources it mentions, each once. */
  lemma {:induction false} ValidateCollects(e: Expr, sources: seq<string>)
    requires Collected(sources) && Validate(e, sources).Ok?
    ensures Collected(Validate(e, sources).value)
    ensures Elements(Validate(e, sources).value) == Elements(sources) + Mentions(e)
    decreases e, 1
  {
    hide AddSources, AddSource, CanonicalOid, StorageOids, Collected;
    match e
    case Unary(_, operand) => ValidateCollects(operand, sources);
    case Binary(_, left, right) =>
      ValidateCollects(left, sources);
      ValidateCollects(right, Validate(left, sources).value);
    case Call(func, args, _) =>
      if func.id == "oid" {
        AddSourceCollects(sources, CanonicalOid(args[0].value.text).value);
      } else if func.id in STORAGE_FUNCTIONS {
        AddSourcesCollects(sources, StorageOids(args[0].value.n).value);
      } else {
        ValidateAllCollects(args, sources);
      }
    case _ =>
  }

  lemma {:induction false} ValidateAllCollects(es: seq<Expr>, sources: seq<string>)
    requires Collected(sources) && ValidateAll(es, sources).Ok?
    ensures Collected(ValidateAll(es, sources).value)
    ensures Elements(ValidateAll(es, sources).value) == Elements(sources) + MentionsAll(es)
    decreases es, 0
  {
    if es != [] {
      ValidateCollects(es[0], sources);
      ValidateAllCollects(es[1..], Validate(es[0], sources).value);
    }
  }

  // ---------------------------------------------------------------- evaluation of accepted expressions

  predicate ArithmeticFault(fault: Fault) {
    fault == DivisionByZero || fault == ZeroStorage
  }

  /** The outcomes an accepted expression that mentions `sources` can have on `values`. */
  predicate Fits<T>(r: Result<T>, sources: set<string>, values: Readings) {
    if r.Ok? then sources <= values.Keys
    else if r.fault.MissingSource? then r.fault.oid in sources && r.fault.oid !in values
    else ArithmeticFault(r.fault)
  }

  lemma {:induction false} SourcesFit(oids: seq<string>, values: Readings)
    ensures Fits(Sources(oids, values), Elements(oids), values)
            && !(Sources(oids, values).Err? && ArithmeticFault(Sources(oids, values).fault))
  {
    if oids != [] {
      SourcesFit(oids[1..], values);
      assert oids == [oids[0]] + oids[1..];
    }
  }

  lemma ArithmeticFits(op: BinaryOp, x: real, y: real)
    requires !op.OtherBinary?
    ensures Arithmetic(op, x, y).Err? ==> op == Div && y == 0.0 && Arithmetic(op, x, y).fault == DivisionByZero
  {
  }

  /** Evaluating an accepted expression asks for nothing it does not mention and needs all it mentions. */
  lemma {:induction false} EvaluateFits(e: Expr, sources: seq<string>, values: Readings)
    requires Validate(e, sources).Ok?
    ensures Fits(Evaluate(e, values), Mentions(e), values)
    decreases e, 1
  {
    hide AddSources, AddSource, CanonicalOid, StorageOids, Apply, Storage, Arithmetic;
    match e
    case Unary(_, operand) => EvaluateFits(operand, sources, values);
    case Binary(op, left, right) =>
      EvaluateFits(left, sources, values);
      EvaluateFits(right, Validate(left, sources).value, values);
      if Evaluate(left, values).Ok? && Evaluate(right, values).Ok? {
        ArithmeticFits(op, Evaluate(left, values).value, Evaluate(right, values).value);
      }
    case Call(func, args, _) =>
      if func.id == "oid" {
      } else if func.id in STORAGE_FUNCTIONS {
        StorageFits(e, sources, values);
      } else {
        EvaluateAllFits(args, sources, values);
        if EvaluateAll(args, values).Ok? {
          ApplySucceeds(func.id, args, values);
        }
      }
    case _ =>
  }

  lemma StorageFits(e: Expr, sources: seq<string>, values: Readings)
    requires e.Call? && e.func.Name? && e.func.id in STORAGE_FUNCTIONS && ValidateStorage(e.args, sources).Ok?
    ensures Fits(Evaluate(e, values), Mentions(e), values)
  {
    hide AddSources, AddSource, CanonicalOid, StorageOids;
    SourcesFit(StorageOids(e.args[0].value.n).value, values);
  }

  lemma {:induction false} EvaluateAllFits(es: seq<Expr>, sources: seq<string>, values: Readings)
    requires ValidateAll(es, sources).Ok?
    ensures Fits(EvaluateAll(es, values), MentionsAll(es), values)
    decreases es, 0
  {
    if es != [] {
      EvaluateFits(es[0], sources, values);
      EvaluateAllFits(es[1..], Validate(es[0], sources).value, values);
    }
  }

  lemma {:induction false} EvaluateAllAt(es: seq<Expr>, values: Readings, i: nat)
    requires i < |es| && EvaluateAll(es, values).Ok?
    ensures Evaluate(es[i], values) == Ok(EvaluateAll(es, values).value[i])
  {
    if i > 0 {
      EvaluateAllAt(es[1..], values, i - 1);
    }
  }

  /** The argument counts and the places the validator insists on are what the evaluator needs. */
  lemma ApplySucceeds(name: string, args: seq<Expr>, values: Readings)
    requires name in {"min", "max", "abs", "round"} && ArgumentCountOk(name, |args|)
    requires name == "round" && |args| == 2 ==> PlacesOk(args[1])
    requires EvaluateAll(args, values).Ok?
    ensures Apply(name, EvaluateAll(args, values).value).Ok?
  {
    if name == "round" && |args| == 2 {
      EvaluateAllAt(args, values, 1);
      assert Evaluate(args[1], values) == Ok(args[1].value.n as real);
    }
  }

  // ---------------------------------------------------------------- dependence on the readings

  /** Two polls that answered every one of `sources` alike. */
  predicate SameReadings(sources: set<string>, v: Readings, w: Readings) {
    forall oid :: oid in sources ==> Source(v, oid) == Source(w, oid)
  }

  lemma {:induction false} SourcesAgree(oids: seq<string>, v: Readings, w: Readings)
    requires SameReadings(Elements(oids), v, w)
    ensures Sources(oids, v) == Sources(oids, w)
  {
    if oids != [] {
      assert oids[0] in Elements(oids);
      assert forall oid :: oid in Elements(oids[1..]) ==> oid in Elements(oids);
      SourcesAgree(oids[1..], v, w);
    }
  }

  lemma StorageAgrees(e: Expr, sources: seq<string>, v: Readings, w: Readings)
    requires e.Call? && e.func.Name? && e.func.id in STORAGE_FUNCTIONS && ValidateStorage(e.args, sources).Ok?
    requires SameReadings(Mentions(e), v, w)
    ensures Evaluate(e, v) == Evaluate(e, w)
  {
    hide AddSources, AddSource, CanonicalOid, StorageOids, SameReadings, Storage;
    SourcesAgree(StorageOids(e.args[0].value.n).value, v, w);
  }

  /** An accepted expression depends on nothing but the readings it mentions. */
  lemma {:induction false} EvaluateAgrees(e: Expr, sources: seq<string>, v: Readings, w: Readings)
    requires Validate(e, sources).Ok? && SameReadings(Mentions(e), v, w)
    ensures Evaluate(e, v) == Evaluate(e, w)
    decreases e, 1
  {
    hide AddSources, AddSource, CanonicalOid, StorageOids, Apply, Storage, Arithmetic;
    match e
    case Unary(_, operand) => EvaluateAgrees(operand, sources, v, w);
    case Binary(_, left, right) =>
      EvaluateAgrees(left, sources, v, w);
      EvaluateAgrees(right, Validate(left, sources).value, v, w);
    case Call(func, args, _) =>
      if func.id == "oid" {
      } else if func.id in STORAGE_FUNCTIONS {
        StorageAgrees(e, sources, v, w);
      } else {
        EvaluateAllAgrees(args, sources, v, w);
      }
    case _ =>
  }

  lemma {:induction false} EvaluateAllAgrees(es: seq<Expr>, sources: seq<string>, v: Readings, w: Readings)
    requires ValidateAll(es, sources).Ok? && SameReadings(MentionsAll(es), v, w)
    ensures EvaluateAll(es, v) == EvaluateAll(es, w)
    decreases es, 0
  {
    if es != [] {
      EvaluateAgrees(es[0], sources, v, w);
      EvaluateAllAgrees(es[1..], Validate(es[0], sources).value, v, w);
    }
  }

  // ---------------------------------------------------------------- compiled formulas

  /** The sources of a compiled formula are listed once each, at most sixteen of them, and are what it mentions. */
  lemma CompiledSources(expression: string, parsed: Option<Expr>)
    requires Compile(expression, parsed).Ok?
    ensures var f := Compile(expression, parsed).value;
            Distinct(f.sourceOids) && |f.sourceOids| <= MAX_FORMULA_SOURCE_OIDS
            && Elements(f.sourceOids) == Mentions(f.tree)
  {
    ValidateCollects(parsed.value, []);
  }

  predicate Canonical(oids: set<string>) {
    forall oid :: oid in oids ==> CanonicalOid(oid) == Some(oid)
  }

  lemma StorageIsCanonical(index: int)
    requires StorageOids(index).Some?
    ensures Canonical(Elements(StorageOids(index).value))
  {
    hide Dotted, Decimal, CanonicalOid;
    StorageBaseIsDotted();
    StorageColumnIsCanonical(4, index);
    StorageColumnIsCanonical(5, index);
    StorageColumnIsCanonical(6, index);
  }

  lemma StorageColumnIsCanonical(column: nat, index: nat)
    ensures var oid := HR_STORAGE_BASE + "." + Decimal(column) + "." + Decimal(index); CanonicalOid(oid) == Some(oid)
  {
    hide Dotted, Decimal, CanonicalOid;
    StorageBaseIsDotted();
    DottedAppend(HR_STORAGE_BASE, column);
    DottedAppend(HR_STORAGE_BASE + "." + Decimal(column), index);
    DottedIsCanonical(HR_STORAGE_BASE + "." + Decimal(column) + "." + Decimal(index));
  }

  lemma StorageBaseIsDotted()
    ensures Dotted(HR_STORAGE_BASE)
  {
    assert HR_STORAGE_BASE[1] == '.';
  }

  lemma {:induction false} MentionsCanonical(e: Expr)
    ensures Canonical(Mentions(e))
    decreases e, 1
  {
    hide StorageOids, Dotted;
    match e
    case Unary(_, operand) => MentionsCanonical(operand);
    case Binary(_, left, right) =>
      MentionsCanonical(left);
      MentionsCanonical(right);
    case Call(func, args, _) =>
      if func.Name? && func.id in STORAGE_FUNCTIONS {
        if |args| == 1 && args[0].Constant? && args[0].value.IntLit? && StorageOids(args[0].value.n).Some? {
          StorageIsCanonical(args[0].value.n);
        }
      } else if func.Name? && func.id == "oid" {
        if |args| == 1 && args[0].Constant? && args[0].value.TextLit? && CanonicalOid(args[0].value.text).Some? {
          DottedIsCanonical(CanonicalOid(args[0].value.text).value);
        }
      } else {
        MentionsAllCanonical(args);
      }
    case _ =>
  }

  lemma {:induction false} MentionsAllCanonical(es: seq<Expr>)
    ensures Canonical(MentionsAll(es))
    decreases es, 0
  {
    if es != [] {
      MentionsCanonical(es[0]);
      MentionsAllCanonical(es[1..]);
    }
  }

  /** The sources are spelled the way a reply spells its variables, so that every one can be found in it. */
  lemma CompiledSourcesCanonical(expression: string, parsed: Option<Expr>)
    requires Compile(expression, parsed).Ok?
    ensures forall oid :: oid in Compile(expression, parsed).value.sourceOids ==> CanonicalOid(oid) == Some(oid)
  {
    hide Validate, Mentions, CanonicalOid;
    CompiledSources(expression, parsed);
    MentionsCanonical(parsed.value);
    assert forall oid :: oid in Compile(expression, parsed).value.sourceOids <==>
      oid in Elements(Compile(expression, parsed).value.sourceOids);
  }

  /**
   * What the compiler accepts, the evaluator can run: it succeeds only with every source present, a
   * missing source is the only poll-dependent failure, arithmetic can fail only on a zero divisor or
   * a zero storage total, and no other failure can be reached.
   */
  lemma CompiledFormulaRuns(expression: string, parsed: Option<Expr>, values: Readings)
    requires Compile(expression, parsed).Ok?
    ensures var f, r := Compile(expression, parsed).value, Evaluate(Compile(expression, parsed).value.tree, values);
            if r.Ok? then forall oid :: oid in f.sourceOids ==> oid in values
            else if r.fault.MissingSource? then r.fault.oid in f.sourceOids && r.fault.oid !in values
            else r.fault == DivisionByZero || r.fault == ZeroStorage
  {
    hide Evaluate, Validate, Mentions;
    CompiledSources(expression, parsed);
    EvaluateFits(parsed.value, [], values);
    var f := Compile(expression, parsed).value;
    assert forall oid :: oid in f.sourceOids <==> oid in Elements(f.sourceOids);
  }

  /** Readings of anything but its sources never change the value of a compiled formula. */
  lemma CompiledFormulaReadsItsSources(expression: string, parsed: Option<Expr>, v: Readings, w: Readings)
    requires Compile(expression, parsed).Ok?
    requires forall oid :: oid in Compile(expression, parsed).value.sourceOids ==> Source(v, oid) == Source(w, oid)
    ensures Evaluate(Compile(expression, parsed).value.tree, v) == Evaluate(Compile(expression, parsed).value.tree, w)
  {
    hide Evaluate, Validate, Mentions, Source;
    CompiledSources(expression, parsed);
    var f := Compile(expression, parsed).value;
    assert forall oid :: oid in Elements(f.sourceOids) ==> oid in f.sourceOids;
    EvaluateAgrees(parsed.value, [], v, w);
  }

  // ---------------------------------------------------------------- the built-in functions

  function StorageCall(name: string, index: int): Expr {
    Call(Name(name), [Constant(IntLit(index))], false)
  }

  function StorageReading(index: int, values: Readings): Result<seq<real>> {
    if StorageOids(index).None? then Err(BadIndex) else Sources(StorageOids(index).value, values)
  }

  lemma StorageCallValue(name: string, index: int, values: Readings)
    requires name in STORAGE_FUNCTIONS
    ensures var xs := StorageReading(index, values);
            && (xs.Ok? ==> |xs.value| == 3)
            && Evaluate(StorageCall(name, index), values)
               == if xs.Err? then Err(xs.fault) else Storage(name, xs.value[0], xs.value[1], xs.value[2])
  {
    hide StorageOids, Sources, Storage;
  }

  /** Used and free bytes of a storage row add up to its total, and the percentage is the free share of it. */
  lemma StorageFiguresAddUp(index: int, values: Readings)
    requires Evaluate(StorageCall("hr_storage_free_percent", index), values).Ok?
    ensures var total := Evaluate(StorageCall("hr_storage_total_bytes", index), values);
            var used := Evaluate(StorageCall("hr_storage_used_bytes", index), values);
            var free := Evaluate(StorageCall("hr_storage_free_bytes", index), values);
            var percent := Evaluate(StorageCall("hr_storage_free_percent", index), values);
            && total.Ok? && used.Ok? && free.Ok?
            && used.value + free.value == total.value != 0.0
            && percent.value * total.value == 100.0 * free.value
            && (total.value > 0.0 ==> (0.0 <= percent.value <= 100.0 <==> 0.0 <= used.value <= total.value))
  {
    hide Evaluate, StorageReading;
    StorageCallValue("hr_storage_total_bytes", index, values);
    StorageCallValue("hr_storage_used_bytes", index, values);
    StorageCallValue("hr_storage_free_bytes", index, values);
    StorageCallValue("hr_storage_free_percent", index, values);
    var xs := StorageReading(index, values).value;
    ShareOf(xs[1] * xs[0], xs[2] * xs[0], Storage("hr_storage_free_percent", xs[0], xs[1], xs[2]).value);
  }

  lemma ShareOf(total: real, used: real, percent: real)
    requires total != 0.0 && percent == (total - used) * 100.0 / total
    ensures percent * total == 100.0 * (total - used)
    ensures total > 0.0 ==> (0.0 <= percent <= 100.0 <==> 0.0 <= used <= total)
  {
    if total > 0.0 {
      if percent < 0.0 {
        assert percent * total < 0.0;
      } else if percent > 100.0 {
        assert (percent - 100.0) * total > 0.0;
      } else {
        assert percent * total >= 0.0 && (100.0 - percent) * total >= 0.0;
      }
    }
  }

  /** A number counted in units of its last decimal place. */
  function InUnits(x: real, places: nat): real {
    x * Pow10(places)
  }

  predicate Whole(x: real) {
    x == x.Floor as real
  }

  lemma InUnitsNegates(x: real, places: nat)
    ensures InUnits(-x, places) == -InUnits(x, places)
    ensures Whole(InUnits(x, places)) ==> Whole(InUnits(-x, places))
  {
    hide Pow10;
    assert Whole(InUnits(x, places)) ==> -InUnits(x, places) == (-(InUnits(x, places).Floor)) as real;
  }

  lemma RoundedUnits(x: real, places: nat)
    requires x >= 0.0
    ensures InUnits(RoundHalfUp(x, places), places) == (InUnits(x, places) + 0.5).Floor as real
  {
    hide Pow10;
    var scale := Pow10(places);
    var n := (x * scale + 0.5).Floor as real;
    assert n / scale * scale == n;
  }

  lemma RoundHalfUpNegates(x: real, places: nat)
    requires x > 0.0
    ensures RoundHalfUp(-x, places) == -RoundHalfUp(x, places)
  {
    hide Pow10;
    assert -(-x) == x;
  }

  /**
   * Rounding moves a number by at most half a unit of the last place, to a whole number of those
   * units; a tie goes away from zero.
   */
  lemma RoundingIsNearest(x: real, places: nat)
    ensures var r, y := InUnits(RoundHalfUp(x, places), places), InUnits(x, places);
            && Whole(r)
            && (if x >= 0.0 then -0.5 < r - y <= 0.5 else -0.5 <= r - y < 0.5)
  {
    hide RoundHalfUp, Pow10, InUnits;
    if x >= 0.0 {
      RoundedUnits(x, places);
    } else {
      RoundedUnits(-x, places);
      RoundHalfUpNegates(-x, places);
      assert -(-x) == x;
      InUnitsNegates(x, places);
      InUnitsNegates(RoundHalfUp(-x, places), places);
    }
  }
}
