/**
 * Formula metrics: a validator that collects the sources of an expression while walking it, and an
 * evaluator that must find exactly those.  Numbers are exact.
 */
module Formulas {
  import opened Basics
  import opened Oids

  const MAX_FORMULA_LENGTH: nat := 2000
  const MAX_FORMULA_SOURCE_OIDS: nat := 16
  const HR_STORAGE_BASE := "1.3.6.1.2.1.25.2.3.1"
  const MAX_STORAGE_INDEX: int := 2_147_483_647

  datatype Literal = IntLit(n: int) | RealLit(r: real) | BoolLit(b: bool) | TextLit(text: string) | OtherLit
  datatype UnaryOp = UAdd | USub | OtherUnary
  datatype BinaryOp = Add | Sub | Mult | Div | OtherBinary

  /** What the parser makes of an expression; `OtherNode` is every construct the language has no use for. */
  datatype Expr =
    | Constant(value: Literal)
    | Name(id: string)
    | Unary(uop: UnaryOp, operand: Expr)
    | Binary(bop: BinaryOp, left: Expr, right: Expr)
    | Call(func: Expr, args: seq<Expr>, keywords: bool)
    | OtherNode

  /** Why a formula is refused or cannot be evaluated; `Malformed` covers what only an unvalidated tree can do. */
  datatype Fault =
    | BadLength | BadSyntax | BadValue | UnknownName | BadConstruct | BadFunction
    | BadOid | BadArguments | BadIndex | BadPlaces | TooManySources
    | MissingSource(oid: string) | DivisionByZero | ZeroStorage | Malformed

  datatype Result<+T> = Ok(value: T) | Err(fault: Fault)

  function ConstantOf(id: string): Option<real> {
    if id == "KiB" then Some(1024.0)
    else if id == "MiB" then Some(1048576.0)
    else if id == "GiB" then Some(1073741824.0)
    else None
  }

  const STORAGE_FUNCTIONS: set<string> :=
    {"hr_storage_total_bytes", "hr_storage_used_bytes", "hr_storage_free_bytes", "hr_storage_free_percent"}
  const SIMPLE_FUNCTIONS: set<string> := {"oid", "min", "max", "abs", "round"}

  /** Allocation unit, size and used units of one storage row. */
  function StorageOids(index: int): (r: Option<seq<string>>)
    ensures r.Some? ==> |r.value| == 3
  {
    if 1 <= index <= MAX_STORAGE_INDEX then
      Some([HR_STORAGE_BASE + "." + Decimal(4) + "." + Decimal(index),
            HR_STORAGE_BASE + "." + Decimal(5) + "." + Decimal(index),
            HR_STORAGE_BASE + "." + Decimal(6) + "." + Decimal(index)])
    else None
  }

  // ---------------------------------------------------------------- validation

  function AddSource(sources: seq<string>, oid: string): Result<seq<string>> {
    var added := if oid in sources then sources else sources + [oid];
    if |added| > MAX_FORMULA_SOURCE_OIDS then Err(TooManySources) else Ok(added)
  }

  function AddSources(sources: seq<string>, oids: seq<string>): Result<seq<string>> {
    if oids == [] then Ok(sources)
    else
      var before := AddSources(sources, oids[..|oids| - 1]);
      if before.Err? then before else AddSource(before.value, oids[|oids| - 1])
  }

  predicate ArgumentCountOk(name: string, count: nat) {
    if name == "abs" then count == 1
    else if name == "round" then 1 <= count <= 2
    else count >= 2
  }

  predicate PlacesOk(places: Expr) {
    places.Constant? && places.value.IntLit? && 0 <= places.value.n <= 9
  }

  function ValidateOid(args: seq<Expr>, sources: seq<string>): Result<seq<string>> {
    if |args| != 1 || !args[0].Constant? || !args[0].value.TextLit? then Err(BadArguments)
    else
      var oid := CanonicalOid(args[0].value.text);
      if oid.None? then Err(BadOid) else AddSource(sources, oid.value)
  }

  function ValidateStorage(args: seq<Expr>, sources: seq<string>): Result<seq<string>> {
    if |args| != 1 || !args[0].Constant? || !args[0].value.IntLit? then Err(BadArguments)
    else
      var oids := StorageOids(args[0].value.n);
      if oids.None? then Err(BadIndex) else AddSources(sources, oids.value)
  }

  lemma AddSourcesStep(sources: seq<string>, oids: seq<string>, i: nat)
    requires i < |oids|
    ensures AddSources(sources, oids[..i + 1])
            == if AddSources(sources, oids[..i]).Err? then AddSources(sources, oids[..i])
               else AddSource(AddSources(sources, oids[..i]).value, oids[i])
  {
    assert oids[..i + 1][..i] == oids[..i];
  }

  lemma {:induction false} AddSourcesFault(sources: seq<string>, oids: seq<string>, i: nat)
    requires i <= |oids| && AddSources(sources, oids[..i]).Err?
    ensures AddSources(sources, oids) == AddSources(sources, oids[..i])
    decreases |oids| - i
  {
    if i < |oids| {
      AddSourcesStep(sources, oids, i);
      AddSourcesFault(sources, oids, i + 1);
    } else {
      assert oids[..i] == oids;
    }
  }

  /** The sources after walking `e`, starting from those already collected. */
  function Validate(e: Expr, sources: seq<string>): Result<seq<string>>
    decreases e, 1
  {
    match e
    case Constant(value) => if value.IntLit? || value.RealLit? then Ok(sources) else Err(BadValue)
    case Name(id) => if ConstantOf(id).Some? then Ok(sources) else Err(UnknownName)
    case Unary(op, operand) => if op.OtherUnary? then Err(BadConstruct) else Validate(operand, sources)
    case Binary(op, left, right) =>
      if op.OtherBinary? then Err(BadConstruct)
      else
        var l := Validate(left, sources);
        if l.Err? then l else Validate(right, l.value)
    case Call(func, args, keywords) =>
      if !func.Name? then Err(BadConstruct)
      else if keywords || func.id !in SIMPLE_FUNCTIONS + STORAGE_FUNCTIONS then Err(BadFunction)
      else if func.id == "oid" then ValidateOid(args, sources)
      else if func.id in STORAGE_FUNCTIONS then ValidateStorage(args, sources)
      else if !ArgumentCountOk(func.id, |args|) then Err(BadArguments)
      else
        var r := ValidateAll(args, sources);
        if r.Ok? && func.id == "round" && |args| == 2 && !PlacesOk(args[1]) then Err(BadPlaces) else r
    case OtherNode => Err(BadConstruct)
  }

  function ValidateAll(es: seq<Expr>, sources: seq<string>): Result<seq<string>>
    decreases es, 0
  {
    if es == [] then Ok(sources)
    else
      var first := Validate(es[0], sources);
      if first.Err? then first else ValidateAll(es[1..], first.value)
  }

  datatype Compiled = Compiled(expression: string, tree: Expr, sourceOids: seq<string>)

  /** `parsed` is what the parser makes of the stripped text, or nothing for a syntax error. */
  function Compile(expression: string, parsed: Option<Expr>): Result<Compiled> {
    var source := Strip(expression);
    if source == [] || |source| > MAX_FORMULA_LENGTH then Err(BadLength)
    else if parsed.None? then Err(BadSyntax)
    else
      var sources := Validate(parsed.value, []);
      if sources.Err? then Err(sources.fault) else Ok(Compiled(source, parsed.value, sources.value))
  }

  /** The validator as it runs: one list of sources that grows while the expression is walked. */
  class SourceCollector {
    var oids: seq<string>

    constructor ()
      ensures oids == []
    {
      oids := [];
    }

    method Add(oid: string) returns (fault: Option<Fault>)
      modifies this
      ensures fault.None? <==> AddSource(old(oids), oid).Ok?
      ensures fault.None? ==> oids == AddSource(old(oids), oid).value
      ensures fault.Some? ==> fault.value == AddSource(old(oids), oid).fault
    {
      if oid !in oids {
        oids := oids + [oid];
      }
      fault := if |oids| > MAX_FORMULA_SOURCE_OIDS then Some(TooManySources) else None;
    }

    method Walk(e: Expr) returns (fault: Option<Fault>)
      modifies this
      ensures fault.None? <==> Validate(e, old(oids)).Ok?
      ensures fault.None? ==> oids == Validate(e, old(oids)).value
      ensures fault.Some? ==> fault.value == Validate(e, old(oids)).fault
      decreases e
    {
      match e
      case Constant(value) => fault := if value.IntLit? || value.RealLit? then None else Some(BadValue);
      case Name(id) => fault := if ConstantOf(id).Some? then None else Some(UnknownName);
      case Unary(op, operand) =>
        if op.OtherUnary? {
          return Some(BadConstruct);
        }
        fault := Walk(operand);
      case Binary(op, left, right) =>
        if op.OtherBinary? {
          return Some(BadConstruct);
        }
        fault := Walk(left);
        if fault.None? {
          fault := Walk(right);
        }
      case Call(func, args, keywords) =>
        if !func.Name? {
          return Some(BadConstruct);
        }
        if keywords || func.id !in SIMPLE_FUNCTIONS + STORAGE_FUNCTIONS {
          return Some(BadFunction);
        }
        if func.id == "oid" {
          fault := WalkOid(args);
        } else if func.id in STORAGE_FUNCTIONS {
          fault := WalkStorage(args);
        } else {
          if !ArgumentCountOk(func.id, |args|) {
            return Some(BadArguments);
          }
          ghost var start := oids;
          for i := 0 to |args|
            invariant ValidateAll(args, start) == ValidateAll(args[i..], oids)
          {
            ghost var before := oids;
            fault := Walk(args[i]);
            assert args[i..][1..] == args[i + 1..];
            if fault.Some? {
              return;
            }
          }
          fault := if func.id == "round" && |args| == 2 && !PlacesOk(args[1]) then Some(BadPlaces) else None;
        }
      case OtherNode => fault := Some(BadConstruct);
    }

    method WalkOid(args: seq<Expr>) returns (fault: Option<Fault>)
      modifies this
      ensures var r := ValidateOid(args, old(oids));
              && (fault.None? <==> r.Ok?)
              && (r.Ok? ==> oids == r.value)
              && (r.Err? ==> fault.value == r.fault)
    {
      if |args| != 1 || !args[0].Constant? || !args[0].value.TextLit? {
        return Some(BadArguments);
      }
      var oid := CanonicalOid(args[0].value.text);
      if oid.None? {
        return Some(BadOid);
      }
      fault := Add(oid.value);
    }

    method WalkStorage(args: seq<Expr>) returns (fault: Option<Fault>)
      modifies this
      ensures var r := ValidateStorage(args, old(oids));
              && (fault.None? <==> r.Ok?)
              && (r.Ok? ==> oids == r.value)
              && (r.Err? ==> fault.value == r.fault)
    {
      if |args| != 1 || !args[0].Constant? || !args[0].value.IntLit? {
        return Some(BadArguments);
      }
      var found := StorageOids(args[0].value.n);
      if found.None? {
        return Some(BadIndex);
      }
      for i := 0 to |found.value|
        invariant AddSources(old(oids), found.value[..i]) == Ok(oids)
      {
        AddSourcesStep(old(oids), found.value, i);
        fault := Add(found.value[i]);
        if fault.Some? {
          AddSourcesFault(old(oids), found.value, i + 1);
          return;
        }
      }
      assert found.value[..|found.value|] == found.value;
      fault := None;
    }
  }

  // ---------------------------------------------------------------- evaluation

  type Readings = map<string, real>

  function Source(values: Readings, oid: string): Result<real> {
    if oid in values then Ok(values[oid]) else Err(MissingSource(oid))
  }

  function Pow10(n: nat): (r: real)
    ensures r > 0.0
  {
    if n == 0 then 1.0 else 10.0 * Pow10(n - 1)
  }

  /** Rounding to units of `1/scale`, halves up. */
  function RoundedUp(x: real, scale: real): real
    requires scale > 0.0
  {
    (x * scale + 0.5).Floor as real / scale
  }

  /** Rounding to a number of decimal places, halves away from zero. */
  function RoundHalfUp(x: real, places: nat): real {
    if x >= 0.0 then RoundedUp(x, Pow10(places)) else -RoundedUp(-x, Pow10(places))
  }

  /** What is left of a storage area, in percent. */
  function FreePercent(total: real, used: real): real
    requires total != 0.0
  {
    (total - used) * 100.0 / total
  }

  function Storage(name: string, allocation: real, total: real, used: real): Result<real> {
    var totalBytes, usedBytes := total * allocation, used * allocation;
    if name == "hr_storage_total_bytes" then Ok(totalBytes)
    else if name == "hr_storage_used_bytes" then Ok(usedBytes)
    else if name == "hr_storage_free_bytes" then Ok(totalBytes - usedBytes)
    else if totalBytes == 0.0 then Err(ZeroStorage)
    else Ok(FreePercent(totalBytes, usedBytes))
  }

  function Least(xs: seq<real>): (r: real)
    requires xs != []
    ensures r in xs && forall x :: x in xs ==> r <= x
  {
    if |xs| == 1 then xs[0]
    else
      var rest := Least(xs[..|xs| - 1]);
      assert xs == xs[..|xs| - 1] + [xs[|xs| - 1]];
      if rest <= xs[|xs| - 1] then rest else xs[|xs| - 1]
  }

  function Greatest(xs: seq<real>): (r: real)
    requires xs != []
    ensures r in xs && forall x :: x in xs ==> x <= r
  {
    if |xs| == 1 then xs[0]
    else
      var rest := Greatest(xs[..|xs| - 1]);
      assert xs == xs[..|xs| - 1] + [xs[|xs| - 1]];
      if rest >= xs[|xs| - 1] then rest else xs[|xs| - 1]
  }

  function Apply(name: string, xs: seq<real>): Result<real> {
    if name == "min" then if xs == [] then Err(Malformed) else Ok(Least(xs))
    else if name == "max" then if xs == [] then Err(Malformed) else Ok(Greatest(xs))
    else if name == "abs" then if xs == [] then Err(Malformed) else Ok(if xs[0] >= 0.0 then xs[0] else -xs[0])
    else if name == "round" then
      var places := if |xs| == 2 then xs[1].Floor else 0;
      if xs == [] || places < 0 then Err(Malformed) else Ok(RoundHalfUp(xs[0], places))
    else Err(BadFunction)
  }

  function Arithmetic(op: BinaryOp, x: real, y: real): Result<real>
    requires !op.OtherBinary?
  {
    match op
    case Add => Ok(x + y)
    case Sub => Ok(x - y)
    case Mult => Ok(x * y)
    case Div => if y == 0.0 then Err(DivisionByZero) else Ok(x / y)
  }

  function Evaluate(e: Expr, values: Readings): Result<real>
    decreases e, 1
  {
    match e
    case Constant(value) =>
      (match value
       case IntLit(n) => Ok(n as real)
       case RealLit(r) => Ok(r)
       case BoolLit(_) => Err(Malformed)
       case _ => Err(BadConstruct))
    case Name(id) => if ConstantOf(id).Some? then Ok(ConstantOf(id).value) else Err(BadConstruct)
    case Unary(op, operand) =>
      if op.OtherUnary? then Err(BadConstruct)
      else
        var x := Evaluate(operand, values);
        if x.Err? || op.UAdd? then x else Ok(-x.value)
    case Binary(op, left, right) =>
      if op.OtherBinary? then Err(BadConstruct)
      else
        var l := Evaluate(left, values);
        if l.Err? then l
        else
          var r := Evaluate(right, values);
          if r.Err? then r else Arithmetic(op, l.value, r.value)
    case Call(func, args, _) =>
      if !func.Name? then Err(BadConstruct)
      else if func.id == "oid" then
        if args == [] || !args[0].Constant? || !args[0].value.TextLit? || CanonicalOid(args[0].value.text).None? then
          Err(Malformed)
        else Source(values, CanonicalOid(args[0].value.text).value)
      else if func.id in STORAGE_FUNCTIONS then
        if args == [] || !args[0].Constant? || !args[0].value.IntLit? then Err(Malformed)
        else
          var oids := StorageOids(args[0].value.n);
          if oids.None? then Err(BadIndex)
          else
            var xs := Sources(oids.value, values);
            if xs.Err? then Err(xs.fault) else Storage(func.id, xs.value[0], xs.value[1], xs.value[2])
      else
        var xs := EvaluateAll(args, values);
        if xs.Err? then Err(xs.fault) else Apply(func.id, xs.value)
    case OtherNode => Err(BadConstruct)
  }

  function EvaluateAll(es: seq<Expr>, values: Readings): (r: Result<seq<real>>)
    ensures r.Ok? ==> |r.value| == |es|
    decreases es, 0
  {
    if es == [] then Ok([])
    else
      var first := Evaluate(es[0], values);
      if first.Err? then Err(first.fault)
      else
        var rest := EvaluateAll(es[1..], values);
        if rest.Err? then rest else Ok([first.value] + rest.value)
  }

  function Sources(oids: seq<string>, values: Readings): (r: Result<seq<real>>)
    ensures r.Ok? ==> |r.value| == |oids|
  {
    if oids == [] then Ok([])
    else
      var first := Source(values, oids[0]);
      if first.Err? then Err(first.fault)
      else
        var rest := Sources(oids[1..], values);
        if rest.Err? then rest else Ok([first.value] + rest.value)
  }

  // ---------------------------------------------------------------- what a formula mentions

  /** The sources an accepted expression names. */
  function Mentions(e: Expr): set<string>
    decreases e, 1
  {
    match e
    case Unary(_, operand) => Mentions(operand)
    case Binary(_, left, right) => Mentions(left) + Mentions(right)
    case Call(func, args, _) =>
      if !func.Name? then {}
      else if func.id == "oid" then
        if |args| == 1 && args[0].Constant? && args[0].value.TextLit? && CanonicalOid(args[0].value.text).Some?
        then {CanonicalOid(args[0].value.text).value} else {}
      else if func.id in STORAGE_FUNCTIONS then
        if |args| == 1 && args[0].Constant? && args[0].value.IntLit? && StorageOids(args[0].value.n).Some?
        then Elements(StorageOids(args[0].value.n).value) else {}
      else MentionsAll(args)
    case _ => {}
  }

  function MentionsAll(es: seq<Expr>): set<string>
    decreases es, 0
  {
    if es == [] then {} else Mentions(es[0]) + MentionsAll(es[1..])
  }

  function Elements(s: seq<string>): set<string> {
    set x | x in s
  }

  predicate Distinct(s: seq<string>) {
    forall i, j :: 0 <= i < j < |s| ==> s[i] != s[j]
  }
}
