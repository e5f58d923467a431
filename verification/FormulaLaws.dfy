/**
 * The numbers formulas give: the laws of arithmetic, of the built-in functions and of the readings,
 * told of evaluation alone.
 */
module FormulaLaws {
  import opened Basics
  import opened Oids
  import opened Formulas
  import opened FormulaAgreement

  function Literal(n: int): Expr {
    Constant(IntLit(n))
  }

  function Built(name: string, args: seq<Expr>): Expr {
    Call(Name(name), args, false)
  }

  // ---------------------------------------------------------------- operands

  /** Both operands are evaluated, the left one first, and the first fault is the outcome. */
  lemma OperandFaults(op: BinaryOp, a: Expr, b: Expr, values: Readings)
    requires !op.OtherBinary?
    ensures Evaluate(a, values).Err? ==> Evaluate(Binary(op, a, b), values) == Evaluate(a, values)
    ensures Evaluate(a, values).Ok? && Evaluate(b, values).Err? ==>
              Evaluate(Binary(op, a, b), values) == Evaluate(b, values)
    ensures Evaluate(a, values).Ok? && Evaluate(b, values).Ok? ==>
              (Evaluate(Binary(op, a, b), values).Err? <==> op.Div? && Evaluate(b, values) == Ok(0.0))
    ensures Evaluate(a, values).Ok? && Evaluate(b, values) == Ok(0.0) ==>
              Evaluate(Binary(Div, a, b), values) == Err(DivisionByZero)
  {
  }

  lemma BinaryValue(op: BinaryOp, a: Expr, b: Expr, values: Readings)
    requires !op.OtherBinary? && Evaluate(a, values).Ok? && Evaluate(b, values).Ok?
    ensures Evaluate(Binary(op, a, b), values)
            == Arithmetic(op, Evaluate(a, values).value, Evaluate(b, values).value)
  {
    hide Arithmetic, Apply, Storage, Sources, CanonicalOid, StorageOids, ConstantOf, EvaluateAll;
  }

  lemma UnaryValue(a: Expr, values: Readings)
    requires Evaluate(a, values).Ok?
    ensures Evaluate(Unary(USub, a), values) == Ok(-Evaluate(a, values).value)
    ensures Evaluate(Unary(UAdd, a), values) == Evaluate(a, values)
  {
  }

  // ---------------------------------------------------------------- arithmetic

  lemma {:induction false} NumbersAreThemselves(n: int, r: real, values: Readings)
    ensures Evaluate(Literal(n), values) == Ok(n as real)
    ensures Evaluate(Constant(RealLit(r)), values) == Ok(r)
    ensures Evaluate(Name("KiB"), values) == Ok(1024.0)
    ensures Evaluate(Name("MiB"), values) == Evaluate(Binary(Mult, Name("KiB"), Name("KiB")), values)
    ensures Evaluate(Name("GiB"), values) == Evaluate(Binary(Mult, Name("KiB"), Name("MiB")), values)
  {
  }

  /** Literals are added and multiplied as numbers are. */
  lemma LiteralsCompute(m: int, n: int, values: Readings)
    ensures Evaluate(Binary(Add, Literal(m), Literal(n)), values) == Evaluate(Literal(m + n), values)
    ensures Evaluate(Binary(Sub, Literal(m), Literal(n)), values) == Evaluate(Literal(m - n), values)
    ensures Evaluate(Binary(Mult, Literal(m), Literal(n)), values) == Evaluate(Literal(m * n), values)
    ensures Evaluate(Unary(USub, Literal(n)), values) == Evaluate(Literal(-n), values)
  {
    NumbersAreThemselves(m, 0.0, values);
    NumbersAreThemselves(n, 0.0, values);
    NumbersAreThemselves(m + n, 0.0, values);
    NumbersAreThemselves(m - n, 0.0, values);
    NumbersAreThemselves(m * n, 0.0, values);
    NumbersAreThemselves(-n, 0.0, values);
    hide Evaluate;
    UnaryValue(Literal(n), values);
    BinaryValue(Add, Literal(m), Literal(n), values);
    BinaryValue(Sub, Literal(m), Literal(n), values);
    BinaryValue(Mult, Literal(m), Literal(n), values);
    ProductOfWholes(m, n);
  }

  lemma {:induction false} ProductOfWholes(m: int, n: int)
    ensures (m * n) as real == m as real * n as real
    decreases if n >= 0 then n else -n
  {
    if n > 0 {
      ProductOfWholes(m, n - 1);
      assert m * n == m * (n - 1) + m;
      assert m as real * n as real == m as real * (n - 1) as real + m as real;
    } else if n < 0 {
      ProductOfWholes(m, n + 1);
      assert m * n == m * (n + 1) - m;
      assert m as real * n as real == m as real * (n + 1) as real - m as real;
    }
  }

  /** Sums in any order and grouping, with 0 neutral. */
  lemma Sums(a: Expr, b: Expr, c: Expr, values: Readings)
    requires Evaluate(a, values).Ok? && Evaluate(b, values).Ok? && Evaluate(c, values).Ok?
    ensures Evaluate(Binary(Add, a, b), values) == Evaluate(Binary(Add, b, a), values)
    ensures Evaluate(Binary(Add, Binary(Add, a, b), c), values) == Evaluate(Binary(Add, a, Binary(Add, b, c)), values)
    ensures Evaluate(Binary(Add, a, Literal(0)), values) == Evaluate(a, values)
  {
    NumbersAreThemselves(0, 0.0, values);
    hide Evaluate;
    BinaryValue(Add, a, b, values);
    BinaryValue(Add, b, a, values);
    BinaryValue(Add, b, c, values);
    BinaryValue(Add, Binary(Add, a, b), c, values);
    BinaryValue(Add, a, Binary(Add, b, c), values);
    BinaryValue(Add, a, Literal(0), values);
  }

  function Times(x: real, y: real): real {
    x * y
  }

  lemma Product(a: Expr, b: Expr, values: Readings)
    requires Evaluate(a, values).Ok? && Evaluate(b, values).Ok?
    ensures Evaluate(Binary(Mult, a, b), values) == Ok(Times(Evaluate(a, values).value, Evaluate(b, values).value))
  {
    hide Evaluate, Arithmetic, Times;
    BinaryValue(Mult, a, b, values);
    TimesIs(Evaluate(a, values).value, Evaluate(b, values).value);
  }

  lemma TimesIs(x: real, y: real)
    ensures Arithmetic(Mult, x, y) == Ok(Times(x, y))
  {
  }

  lemma ProductLaws(x: real, y: real, z: real)
    ensures Times(x, y) == Times(y, x) && Times(Times(x, y), z) == Times(x, Times(y, z)) && Times(x, 1.0) == x
    ensures Times(x, y + z) == Times(x, y) + Times(x, z)
  {
  }

  /** Products likewise, with 1 neutral. */
  lemma Products(a: Expr, b: Expr, c: Expr, values: Readings)
    requires Evaluate(a, values).Ok? && Evaluate(b, values).Ok? && Evaluate(c, values).Ok?
    ensures Evaluate(Binary(Mult, a, b), values) == Evaluate(Binary(Mult, b, a), values)
    ensures Evaluate(Binary(Mult, Binary(Mult, a, b), c), values)
            == Evaluate(Binary(Mult, a, Binary(Mult, b, c)), values)
    ensures Evaluate(Binary(Mult, a, Literal(1)), values) == Evaluate(a, values)
  {
    hide Evaluate, Times;
    NumbersAreThemselves(1, 0.0, values);
    ProductLaws(Evaluate(a, values).value, Evaluate(b, values).value, Evaluate(c, values).value);
    Product(a, b, values);
    Product(b, a, values);
    Product(b, c, values);
    Product(Binary(Mult, a, b), c, values);
    Product(a, Binary(Mult, b, c), values);
    Product(a, Literal(1), values);
  }

  /** The product distributes over the sum. */
  lemma ProductOfSum(a: Expr, b: Expr, c: Expr, values: Readings)
    requires Evaluate(a, values).Ok? && Evaluate(b, values).Ok? && Evaluate(c, values).Ok?
    ensures Evaluate(Binary(Mult, a, Binary(Add, b, c)), values)
            == Evaluate(Binary(Add, Binary(Mult, a, b), Binary(Mult, a, c)), values)
  {
    hide Evaluate, Times;
    ProductLaws(Evaluate(a, values).value, Evaluate(b, values).value, Evaluate(c, values).value);
    Sum(b, c, values);
    Product(a, b, values);
    Product(a, c, values);
    Sum(Binary(Mult, a, b), Binary(Mult, a, c), values);
    Product(a, Binary(Add, b, c), values);
  }

  lemma Sum(a: Expr, b: Expr, values: Readings)
    requires Evaluate(a, values).Ok? && Evaluate(b, values).Ok?
    ensures Evaluate(Binary(Add, a, b), values) == Ok(Evaluate(a, values).value + Evaluate(b, values).value)
  {
    hide Evaluate;
    BinaryValue(Add, a, b, values);
  }

  /** A difference undoes a sum, and is the sum with the negative. */
  lemma Differences(a: Expr, b: Expr, values: Readings)
    requires Evaluate(a, values).Ok? && Evaluate(b, values).Ok?
    ensures Evaluate(Binary(Add, Binary(Sub, a, b), b), values) == Evaluate(a, values)
    ensures Evaluate(Binary(Sub, a, b), values) == Evaluate(Binary(Add, a, Unary(USub, b)), values)
  {
    hide Evaluate, Arithmetic;
    UnaryValue(b, values);
    Difference(a, b, values);
    Sum(Binary(Sub, a, b), b, values);
    Sum(a, Unary(USub, b), values);
  }

  /** A negative stands opposite its number, and a plus sign changes nothing. */
  lemma Negatives(a: Expr, values: Readings)
    requires Evaluate(a, values).Ok?
    ensures Evaluate(Binary(Add, a, Unary(USub, a)), values) == Ok(0.0)
    ensures Evaluate(Unary(USub, Unary(USub, a)), values) == Evaluate(a, values)
    ensures Evaluate(Unary(UAdd, a), values) == Evaluate(a, values)
  {
    hide Evaluate, Arithmetic;
    UnaryValue(a, values);
    UnaryValue(Unary(USub, a), values);
    Sum(a, Unary(USub, a), values);
  }

  lemma Difference(a: Expr, b: Expr, values: Readings)
    requires Evaluate(a, values).Ok? && Evaluate(b, values).Ok?
    ensures Evaluate(Binary(Sub, a, b), values) == Ok(Evaluate(a, values).value - Evaluate(b, values).value)
  {
    hide Evaluate;
    BinaryValue(Sub, a, b, values);
  }

  /** A quotient undoes a product. */
  lemma Quotients(a: Expr, b: Expr, values: Readings)
    requires Evaluate(a, values).Ok? && Evaluate(b, values).Ok? && Evaluate(b, values).value != 0.0
    ensures Evaluate(Binary(Div, a, b), values).Ok?
    ensures Evaluate(Binary(Mult, Binary(Div, a, b), b), values) == Evaluate(a, values)
  {
    hide Evaluate, Times, Over;
    Quotient(a, b, values);
    Product(Binary(Div, a, b), b, values);
    QuotientTimes(Evaluate(a, values).value, Evaluate(b, values).value);
  }

  function Over(x: real, y: real): real
    requires y != 0.0
  {
    x / y
  }

  lemma Quotient(a: Expr, b: Expr, values: Readings)
    requires Evaluate(a, values).Ok? && Evaluate(b, values).Ok? && Evaluate(b, values).value != 0.0
    ensures Evaluate(Binary(Div, a, b), values) == Ok(Over(Evaluate(a, values).value, Evaluate(b, values).value))
  {
    hide Evaluate, Arithmetic, Over;
    BinaryValue(Div, a, b, values);
    OverIs(Evaluate(a, values).value, Evaluate(b, values).value);
  }

  lemma OverIs(x: real, y: real)
    requires y != 0.0
    ensures Arithmetic(Div, x, y) == Ok(Over(x, y))
  {
  }

  lemma QuotientTimes(x: real, y: real)
    requires y != 0.0
    ensures Times(Over(x, y), y) == x
  {
  }

  // ---------------------------------------------------------------- built-in functions

  /** The least argument and the greatest: one of them, with all of them on its other side. */
  lemma ExtremesOfArguments(args: seq<Expr>, values: Readings)
    requires args != [] && forall i :: 0 <= i < |args| ==> Evaluate(args[i], values).Ok?
    ensures var least, greatest := Evaluate(Built("min", args), values), Evaluate(Built("max", args), values);
            && least.Ok? && greatest.Ok?
            && (forall i :: 0 <= i < |args| ==> least.value <= Evaluate(args[i], values).value <= greatest.value)
            && (exists i :: 0 <= i < |args| && Evaluate(args[i], values) == least)
            && (exists i :: 0 <= i < |args| && Evaluate(args[i], values) == greatest)
  {
    hide Least, Greatest;
    ArgumentsEvaluate(args, values);
    var xs := EvaluateAll(args, values).value;
    forall i | 0 <= i < |args| ensures Evaluate(args[i], values) == Ok(xs[i]) && xs[i] in xs {
      EvaluateAllAt(args, values, i);
    }
    var i :| 0 <= i < |xs| && xs[i] == Least(xs);
    var j :| 0 <= j < |xs| && xs[j] == Greatest(xs);
    assert Evaluate(args[i], values) == Ok(Least(xs)) && Evaluate(args[j], values) == Ok(Greatest(xs));
  }

  lemma {:induction false} ArgumentsEvaluate(args: seq<Expr>, values: Readings)
    requires forall i :: 0 <= i < |args| ==> Evaluate(args[i], values).Ok?
    ensures EvaluateAll(args, values).Ok?
  {
    hide Evaluate;
    if args != [] {
      ArgumentsEvaluate(args[1..], values);
    }
  }

  lemma OneArgument(a: Expr, values: Readings)
    ensures EvaluateAll([a], values) ==
            if Evaluate(a, values).Ok? then Ok([Evaluate(a, values).value]) else Err(Evaluate(a, values).fault)
  {
    hide Evaluate;
    assert [a][1..] == [] && [a][0] == a;
    assert EvaluateAll([], values) == Ok([]);
    if Evaluate(a, values).Ok? {
      assert [Evaluate(a, values).value] + [] == [Evaluate(a, values).value];
    }
  }

  lemma TwoArguments(a: Expr, n: int, values: Readings)
    requires Evaluate(a, values).Ok?
    ensures EvaluateAll([a, Literal(n)], values) == Ok([Evaluate(a, values).value, n as real])
  {
    NumbersAreThemselves(n, 0.0, values);
    hide Evaluate;
    OneArgument(Literal(n), values);
    assert [a, Literal(n)][1..] == [Literal(n)] && [a, Literal(n)][0] == a;
    assert [Evaluate(a, values).value] + [n as real] == [Evaluate(a, values).value, n as real];
  }

  /** The distance from zero. */
  lemma AbsoluteValue(a: Expr, values: Readings)
    requires Evaluate(a, values).Ok?
    ensures var x, r := Evaluate(a, values).value, Evaluate(Built("abs", [a]), values);
            r.Ok? && r.value >= 0.0 && (r.value == x || r.value == -x)
  {
    OneArgument(a, values);
  }

  /** Rounding without places gives a whole number at most half away, ties away from zero. */
  lemma RoundsToWhole(a: Expr, values: Readings)
    requires Evaluate(a, values).Ok?
    ensures var x, r := Evaluate(a, values).value, Evaluate(Built("round", [a]), values);
            && r.Ok? && r == Evaluate(Built("round", [a, Literal(0)]), values)
            && r.value.Floor as real == r.value
            && (if x >= 0.0 then -0.5 < r.value - x <= 0.5 else -0.5 <= r.value - x < 0.5)
  {
    OneArgument(a, values);
    TwoArguments(a, 0, values);
    RoundingIsNearest(Evaluate(a, values).value, 0);
    assert Pow10(0) == 1.0;
  }

  /** One more place is a tenth of the unit. */
  lemma OnePlaceMore(a: Expr, n: nat, values: Readings)
    requires Evaluate(a, values).Ok?
    ensures Evaluate(Binary(Mult, Literal(10), Built("round", [a, Literal(n + 1)])), values)
            == Evaluate(Built("round", [Binary(Mult, Literal(10), a), Literal(n)]), values)
  {
    var x := Evaluate(a, values).value;
    TwoArguments(a, n + 1, values);
    TwoArguments(Binary(Mult, Literal(10), a), n, values);
    assert Evaluate(Built("round", [a, Literal(n + 1)]), values) == Ok(RoundHalfUp(x, n + 1));
    assert Evaluate(Built("round", [Binary(Mult, Literal(10), a), Literal(n)]), values) == Ok(RoundHalfUp(10.0 * x, n));
    TenTimes(x, n);
  }

  lemma TenTimes(x: real, n: nat)
    ensures 10.0 * RoundHalfUp(x, n + 1) == RoundHalfUp(10.0 * x, n)
  {
    var p := Pow10(n);
    assert Pow10(n + 1) == 10.0 * p;
    hide RoundedUp, Pow10;
    var y := if x >= 0.0 then x else -x;
    assert 10.0 * y == if x >= 0.0 then 10.0 * x else -(10.0 * x);
    TenTimesUp(y, p);
  }

  lemma TenTimesUp(x: real, p: real)
    requires p > 0.0
    ensures 10.0 * RoundedUp(x, 10.0 * p) == RoundedUp(10.0 * x, p)
  {
    Regrouped(x, p);
    TenthOf((10.0 * x * p + 0.5).Floor as real, p);
  }

  lemma Regrouped(x: real, p: real)
    ensures x * (10.0 * p) == 10.0 * x * p
  {
  }

  lemma TenthOf(m: real, p: real)
    requires p > 0.0
    ensures 10.0 * (m / (10.0 * p)) == m / p
  {
    assert m / p * p == m;
    assert m / (10.0 * p) == m / p / 10.0;
  }

  // ---------------------------------------------------------------- readings

  /** `oid` gives the reading of the identifier in its one spelling, or says that it is missing. */
  lemma OidReads(text: string, values: Readings)
    requires CanonicalOid(text).Some?
    ensures var oid := CanonicalOid(text).value;
            Evaluate(Built("oid", [Constant(TextLit(text))]), values)
            == if oid in values then Ok(values[oid]) else Err(MissingSource(oid))
  {
  }

  /** The column of a row of the storage table, as a formula would ask for it. */
  function StorageColumn(column: nat, index: nat): Expr {
    Built("oid", [Constant(TextLit("1.3.6.1.2.1.25.2.3.1." + Decimal(column) + "." + Decimal(index)))])
  }

  lemma ColumnReads(column: nat, index: nat, values: Readings)
    ensures var oid := "1.3.6.1.2.1.25.2.3.1." + Decimal(column) + "." + Decimal(index);
            && oid == HR_STORAGE_BASE + "." + Decimal(column) + "." + Decimal(index)
            && Evaluate(StorageColumn(column, index), values) == Source(values, oid)
  {
    hide CanonicalOid, Decimal;
    assert "1.3.6.1.2.1.25.2.3.1." + Decimal(column) + "." + Decimal(index)
           == HR_STORAGE_BASE + "." + Decimal(column) + "." + Decimal(index);
    StorageColumnIsCanonical(column, index);
  }

  lemma StorageReadingIs(index: nat, values: Readings)
    requires 1 <= index <= 2_147_483_647
    requires Evaluate(StorageColumn(4, index), values).Ok? && Evaluate(StorageColumn(5, index), values).Ok?
    requires Evaluate(StorageColumn(6, index), values).Ok?
    ensures StorageReading(index, values) ==
            Ok([Evaluate(StorageColumn(4, index), values).value, Evaluate(StorageColumn(5, index), values).value,
                Evaluate(StorageColumn(6, index), values).value])
  {
    hide Decimal, Evaluate;
    ColumnReads(4, index, values);
    ColumnReads(5, index, values);
    ColumnReads(6, index, values);
    var oids := StorageOids(index).value;
    ThreeSources(oids, values);
  }

  lemma ThreeSources(oids: seq<string>, values: Readings)
    requires |oids| == 3 && oids[0] in values && oids[1] in values && oids[2] in values
    ensures Sources(oids, values) == Ok([values[oids[0]], values[oids[1]], values[oids[2]]])
  {
    var two, one := oids[1..], oids[2..];
    assert two[1..] == one && one[1..] == [];
    assert Sources([], values) == Ok([]);
    assert [values[oids[2]]] + [] == [values[oids[2]]];
    assert Sources(one, values) == Ok([values[oids[2]]]);
    assert [values[oids[1]]] + [values[oids[2]]] == [values[oids[1]], values[oids[2]]];
    assert Sources(two, values) == Ok([values[oids[1]], values[oids[2]]]);
    assert [values[oids[0]]] + [values[oids[1]], values[oids[2]]]
           == [values[oids[0]], values[oids[1]], values[oids[2]]];
  }

  /**
   * A storage row's total is its size times its allocation unit and its used bytes the used units times
   * the same; free is the difference and the percentage its share of the total.
   */
  lemma StorageFigures(index: nat, values: Readings)
    requires 1 <= index <= 2_147_483_647
    requires Evaluate(StorageColumn(4, index), values).Ok? && Evaluate(StorageColumn(5, index), values).Ok?
    requires Evaluate(StorageColumn(6, index), values).Ok?
    ensures var unit, size, units := StorageColumn(4, index), StorageColumn(5, index), StorageColumn(6, index);
            var total, used := Binary(Mult, size, unit), Binary(Mult, units, unit);
            && Evaluate(StorageCall("hr_storage_total_bytes", index), values) == Evaluate(total, values)
            && Evaluate(StorageCall("hr_storage_used_bytes", index), values) == Evaluate(used, values)
            && Evaluate(StorageCall("hr_storage_free_bytes", index), values)
               == Evaluate(Binary(Sub, total, used), values)
            && Evaluate(StorageCall("hr_storage_free_percent", index), values)
               == if Evaluate(total, values) == Ok(0.0) then Err(ZeroStorage)
                  else Evaluate(Binary(Div, Binary(Mult, Binary(Sub, total, used), Literal(100)), total), values)
  {
    hide Evaluate, StorageColumn, StorageCall;
    FiguresOf(StorageColumn(4, index), StorageColumn(5, index), StorageColumn(6, index), index, values);
  }

  lemma FiguresOf(unit: Expr, size: Expr, units: Expr, index: nat, values: Readings)
    requires 1 <= index <= 2_147_483_647
    requires unit == StorageColumn(4, index) && size == StorageColumn(5, index) && units == StorageColumn(6, index)
    requires Evaluate(unit, values).Ok? && Evaluate(size, values).Ok? && Evaluate(units, values).Ok?
    ensures var total, used := Binary(Mult, size, unit), Binary(Mult, units, unit);
            && Evaluate(total, values).Ok? && Evaluate(used, values).Ok?
            && Evaluate(StorageCall("hr_storage_total_bytes", index), values) == Evaluate(total, values)
            && Evaluate(StorageCall("hr_storage_used_bytes", index), values) == Evaluate(used, values)
            && Evaluate(StorageCall("hr_storage_free_bytes", index), values)
               == Evaluate(Binary(Sub, total, used), values)
            && Evaluate(StorageCall("hr_storage_free_percent", index), values)
               == if Evaluate(total, values) == Ok(0.0) then Err(ZeroStorage)
                  else Evaluate(Binary(Div, Binary(Mult, Binary(Sub, total, used), Literal(100)), total), values)
  {
    hide StorageReading, StorageColumn, StorageCall, Evaluate, Storage, Times, Over;
    var x, y, z := Evaluate(unit, values).value, Evaluate(size, values).value, Evaluate(units, values).value;
    StorageReadingIs(index, values);
    StorageCallIs("hr_storage_total_bytes", index, values, x, y, z);
    StorageCallIs("hr_storage_used_bytes", index, values, x, y, z);
    StorageCallIs("hr_storage_free_bytes", index, values, x, y, z);
    StorageCallIs("hr_storage_free_percent", index, values, x, y, z);
    StorageIs(x, y, z);
    Product(size, unit, values);
    Product(units, unit, values);
    ShareOfTotal(Binary(Mult, size, unit), Binary(Mult, units, unit), values);
  }

  lemma ShareOfTotal(total: Expr, used: Expr, values: Readings)
    requires Evaluate(total, values).Ok? && Evaluate(used, values).Ok?
    ensures var t, u := Evaluate(total, values).value, Evaluate(used, values).value;
            && Evaluate(Binary(Sub, total, used), values) == Ok(t - u)
            && (t != 0.0 ==> Evaluate(Binary(Div, Binary(Mult, Binary(Sub, total, used), Literal(100)), total), values)
                             == Ok(Over(Times(t - u, 100.0), t)))
  {
    hide Evaluate, Times, Over;
    NumbersAreThemselves(100, 0.0, values);
    Difference(total, used, values);
    Product(Binary(Sub, total, used), Literal(100), values);
    if Evaluate(total, values).value != 0.0 {
      Quotient(Binary(Mult, Binary(Sub, total, used), Literal(100)), total, values);
    }
  }

  lemma StorageCallIs(name: string, index: int, values: Readings, x: real, y: real, z: real)
    requires name in STORAGE_FUNCTIONS && StorageReading(index, values) == Ok([x, y, z])
    ensures Evaluate(StorageCall(name, index), values) == Storage(name, x, y, z)
  {
    hide Evaluate, Storage, StorageReading;
    StorageCallValue(name, index, values);
  }

  lemma StorageIs(x: real, y: real, z: real)
    ensures Storage("hr_storage_total_bytes", x, y, z) == Ok(Times(y, x))
    ensures Storage("hr_storage_used_bytes", x, y, z) == Ok(Times(z, x))
    ensures Storage("hr_storage_free_bytes", x, y, z) == Ok(Times(y, x) - Times(z, x))
    ensures Storage("hr_storage_free_percent", x, y, z) ==
            if Times(y, x) == 0.0 then Err(ZeroStorage)
            else Ok(Over(Times(Times(y, x) - Times(z, x), 100.0), Times(y, x)))
  {
    hide FreePercent;
    if Times(y, x) != 0.0 {
      FreeShare(Times(y, x), Times(z, x));
    }
  }

  lemma FreeShare(total: real, used: real)
    requires total != 0.0
    ensures FreePercent(total, used) == Over(Times(total - used, 100.0), total)
  {
  }
}
