/**
 What an expression computes (libs/pipeline-expression/eval.go), against arithmetic on whole numbers and reals, the
 truth of formulas and the concatenation of texts.
 */
module EvalMeaning {
  import opened Common
  import opened GoInt
  import opened ExprSyntax
  import opened Catalog
  import opened ExprEval
  import Ascii

  // ---------------------------------------------------------------------------------------------
  // Integers: wrapping at every step is wrapping once
  // ---------------------------------------------------------------------------------------------

  predicate Fits(n: int) {
    -0x8000_0000_0000_0000 <= n < 0x8000_0000_0000_0000
  }

  /** Sums, differences, products and negations of 64-bit numbers. */
  predicate IntTerm(e: Expr, row: Row) {
    match e
    case Lit(LitInteger(n)) => Fits(n)
    case Column(name) => name in row && row[name].VInt? && Fits(row[name].number)
    case Unary(Neg, operand) => IntTerm(operand, row)
    case Binary(op, left, right) => (op.Add? || op.Sub? || op.Mul?) && IntTerm(left, row) && IntTerm(right, row)
    case _ => false
  }

  /** The number such a term stands for, without any bound. */
  function Exact(e: Expr, row: Row): int
    requires IntTerm(e, row)
  {
    match e
    case Lit(lit) => lit.number
    case Column(name) => row[name].number
    case Unary(_, operand) => -Exact(operand, row)
    case Binary(op, left, right) =>
      var a, b := Exact(left, row), Exact(right, row);
      if op.Add? then a + b else if op.Sub? then a - b else a * b
  }

  lemma WrapShift(n: int, k: int)
    ensures Wrap64(n + k * TWO64) == Wrap64(n)
  {
    var m, q := n + TWO63, (n + TWO63) / TWO64;
    assert m == q * TWO64 + m % TWO64;
    assert m + k * TWO64 == (q + k) * TWO64 + m % TWO64;
  }

  /** A wrapped number differs from the number by a multiple of 2^64. */
  lemma WrapDiffers(n: int) returns (k: int)
    ensures Wrap64(n) == n + k * TWO64
  {
    k := -((n + TWO63) / TWO64);
    assert n + TWO63 == (-k) * TWO64 + (n + TWO63) % TWO64;
  }

  lemma WrapIsARingMap(a: int, b: int)
    ensures Wrap64(Wrap64(a) + Wrap64(b)) == Wrap64(a + b)
    ensures Wrap64(Wrap64(a) - Wrap64(b)) == Wrap64(a - b)
    ensures Wrap64(Wrap64(a) * Wrap64(b)) == Wrap64(a * b)
    ensures Wrap64(0 - Wrap64(a)) == Wrap64(-a)
  {
    var i := WrapDiffers(a);
    var j := WrapDiffers(b);
    hide Wrap64;
    ProductOfShifted(a, b, i, j);
    WrapShift(a + b, i + j);
    WrapShift(a - b, i - j);
    WrapShift(a * b, a * j + i * b + i * j * TWO64);
    WrapShift(-a, -i);
    assert Wrap64(a) + Wrap64(b) == a + b + (i + j) * TWO64;
    assert Wrap64(a) - Wrap64(b) == a - b + (i - j) * TWO64;
    assert 0 - Wrap64(a) == -a + (-i) * TWO64;
  }

  lemma ProductOfShifted(a: int, b: int, i: int, j: int)
    ensures (a + i * TWO64) * (b + j * TWO64) == a * b + (a * j + i * b + i * j * TWO64) * TWO64
  {
    var t := TWO64;
    assert (a + i * t) * (b + j * t) == a * b + a * (j * t) + (i * t) * b + (i * t) * (j * t);
    assert a * (j * t) == (a * j) * t && (i * t) * b == (i * b) * t && (i * t) * (j * t) == (i * j * t) * t;
  }

  /** Although the evaluator wraps after every operation, the result is the exact value wrapped once, and so exact
      whenever that fits, whatever overflowed on the way. */
  lemma {:induction false} IntegersWrapOnce(lib: Library, e: Expr, row: Row)
    requires IntTerm(e, row)
    ensures Eval(lib, e, row) == Ok(VInt(Wrap64(Exact(e, row))))
    ensures Fits(Exact(e, row)) ==> Eval(lib, e, row) == Ok(VInt(Exact(e, row)))
  {
    WrapIsExactIff(Exact(e, row));
    hide Wrap64, EvalCall, FnOf, BinaryValue;
    match e
    case Lit(_) =>
    case Column(_) =>
    case Unary(_, operand) =>
      IntegersWrapOnce(lib, operand, row);
      WrapIsARingMap(Exact(operand, row), 0);
    case Binary(op, left, right) =>
      IntegersWrapOnce(lib, left, row);
      IntegersWrapOnce(lib, right, row);
      OneOperation(lib, op, Exact(left, row), Exact(right, row));
  }

  lemma OneOperation(lib: Library, op: BinaryOp, a: int, b: int)
    requires op.Add? || op.Sub? || op.Mul?
    ensures BinaryValue(lib, op, VInt(Wrap64(a)), VInt(Wrap64(b))) ==
      Ok(VInt(Wrap64(if op.Add? then a + b else if op.Sub? then a - b else a * b)))
  {
    WrapIsARingMap(a, b);
    hide Wrap64, DoubleOp, CompareValues, ValueEq;
  }

  /** Integer division truncates toward zero, and a zero divisor gives null. */
  lemma QuotientMeaning(lib: Library, left: Expr, right: Expr, row: Row)
    requires IntTerm(left, row) && IntTerm(right, row) && Fits(Exact(left, row)) && Fits(Exact(right, row))
    ensures
      var a, b, q := Exact(left, row), Exact(right, row), Eval(lib, Binary(Div, left, right), row);
      if b == 0 then q == Ok(VNull)
      else if a == -0x8000_0000_0000_0000 && b == -1 then q == Ok(VInt(a))
      else exists n, r: int :: q == Ok(VInt(n)) && a == b * n + r
             && AbsoluteValue(r) < AbsoluteValue(b) && (a >= 0 ==> r >= 0) && (a <= 0 ==> r <= 0)
  {
    var a, b := Exact(left, row), Exact(right, row);
    IntegersWrapOnce(lib, left, row);
    IntegersWrapOnce(lib, right, row);
    if b != 0 {
      TruncDivMeaning(a, b);
      QuotientFits(a, b);
      WrapIsExactIff(TruncDiv(a, b));
      hide TruncDiv, Wrap64;
      var n, r := TruncDiv(a, b), TruncMod(a, b);
      assert Eval(lib, Binary(Div, left, right), row) == Ok(VInt(Wrap64(n)));
      assert a == b * n + r;
    }
  }

  lemma QuotientFits(a: int, b: int)
    requires Fits(a) && Fits(b) && b != 0
    ensures if a == -0x8000_0000_0000_0000 && b == -1 then Wrap64(TruncDiv(a, b)) == a else Fits(TruncDiv(a, b))
  {
    hide TruncDiv;
    var q := SignedQuotient(a, b);
    SignedFits(a, b, q, TruncDiv(a, b));
  }

  lemma SignedQuotient(a: int, b: int) returns (q: int)
    requires b != 0
    ensures q >= 0 && TruncDiv(a, b) == if (a >= 0) == (b > 0) then q else -q
    ensures AbsoluteValue(b) == 1 ==> q == AbsoluteValue(a)
    ensures q <= AbsoluteValue(a) && (AbsoluteValue(b) >= 2 ==> 2 * q <= AbsoluteValue(a))
  {
    hide AbsoluteValue;
    var x, y := AbsoluteValue(a), AbsoluteValue(b);
    q := x / y;
    QuotientIsSmaller(x, y, q);
  }

  lemma SignedFits(a: int, b: int, q: int, d: int)
    requires Fits(a) && b != 0 && q >= 0 && d == if (a >= 0) == (b > 0) then q else -q
    requires AbsoluteValue(b) == 1 ==> q == AbsoluteValue(a)
    requires q <= AbsoluteValue(a) && (AbsoluteValue(b) >= 2 ==> 2 * q <= AbsoluteValue(a))
    ensures if a == -0x8000_0000_0000_0000 && b == -1 then Wrap64(d) == a else Fits(d)
  {
  }

  lemma QuotientIsSmaller(x: nat, y: nat, q: nat)
    requires y > 0 && q == x / y
    ensures y == 1 ==> q == x
    ensures q <= x && (y >= 2 ==> 2 * q <= x)
  {
    DivisionWithRest(x, y, q);
    if y >= 2 {
      AtLeastTwice(y, q);
    }
  }

  lemma AtLeastTwice(y: nat, q: nat)
    requires y >= 2
    ensures 2 * q <= y * q
  {
  }

  // ---------------------------------------------------------------------------------------------
  // Texts
  // ---------------------------------------------------------------------------------------------

  predicate Names(name: string, f: Fn) {
    FnOf(name) == Some(f)
  }

  /** Texts joined by + or by concat. */
  predicate TextTerm(e: Expr, row: Row) {
    match e
    case Lit(LitString(_)) => true
    case Column(name) => name in row && row[name].VText?
    case Binary(Add, left, right) => TextTerm(left, row) && TextTerm(right, row)
    case Call(name, args) => Names(name, Concat) && |args| == 2 && TextTerm(args[0], row) && TextTerm(args[1], row)
    case _ => false
  }

  function Spelled(e: Expr, row: Row): string
    requires TextTerm(e, row)
  {
    match e
    case Lit(lit) => lit.text
    case Column(name) => row[name].text
    case Binary(_, left, right) => Spelled(left, row) + Spelled(right, row)
    case Call(_, args) => Spelled(args[0], row) + Spelled(args[1], row)
  }

  lemma {:induction false} TextMeaning(lib: Library, e: Expr, row: Row)
    requires TextTerm(e, row)
    ensures Eval(lib, e, row) == Ok(VText(Spelled(e, row)))
  {
    hide FnOf, Arith;
    match e
    case Lit(_) =>
    case Column(_) =>
    case Binary(_, left, right) =>
      TextMeaning(lib, left, row);
      TextMeaning(lib, right, row);
    case Call(_, args) =>
      TextMeaning(lib, args[0], row);
      TextMeaning(lib, args[1], row);
  }

  /** The names the catalogue gives these functions. */
  lemma KnownNames()
    ensures FnNamed("lower") == Some(LowerFn) && FnNamed("upper") == Some(UpperFn) && FnNamed("trim") == Some(TrimFn)
    ensures FnNamed("clean_string") == Some(CleanString) && FnNamed("title_case") == Some(TitleCase)
    ensures FnNamed("is_null") == Some(IsNull) && FnNamed("is_not_null") == Some(IsNotNull)
    ensures FnNamed("abs") == Some(Abs) && FnNamed("concat") == Some(Concat)
  {
  }

  lemma OneArgument(lib: Library, name: string, f: Fn, x: Expr, row: Row)
    requires FnNamed(Ascii.Lower(name)) == Some(f) && Implemented(f) && ArityOf(f) == 1
    ensures Eval(lib, Call(name, [x]), row) == EvalCall(lib, f, [x], row)
  {
    hide FnNamed, EvalCall;
  }

  /** A function of texts, with null passed through. */
  function OnText(f: string -> string, v: Value): Value
    requires v.VText? || v.VNull?
  {
    if v.VNull? then VNull else VText(f(v.text))
  }

  /** The text functions pass their argument to the library, under their names in any case, and null through. */
  lemma TextFunctionMeaning(lib: Library, name: string, x: Expr, row: Row)
    requires Eval(lib, x, row).Ok? && (Eval(lib, x, row).value.VText? || Eval(lib, x, row).value.VNull?)
    ensures
      var v, n, called := Eval(lib, x, row).value, Ascii.Lower(name), Eval(lib, Call(name, [x]), row);
      && (n == "lower" ==> called == Ok(OnText(lib.lower, v)))
      && (n == "upper" ==> called == Ok(OnText(lib.upper, v)))
      && (n == "trim" ==> called == Ok(OnText(lib.trim, v)))
      && (n == "clean_string" ==> called == Ok(OnText(lib.clean, v)))
      && (n == "title_case" ==> called == Ok(OnText(lib.title, v)))
  {
    KnownNames();
    hide FnNamed, Eval, OnText;
    var n := Ascii.Lower(name);
    if n == "lower" || n == "upper" || n == "trim" || n == "clean_string" || n == "title_case" {
      var f := FnNamed(n).value;
      OneArgument(lib, name, f, x, row);
      TextCall(lib, f, x, row);
    }
  }

  lemma TextCall(lib: Library, f: Fn, x: Expr, row: Row)
    requires f.LowerFn? || f.UpperFn? || f.TrimFn? || f.CleanString? || f.TitleCase?
    requires Eval(lib, x, row).Ok? && (Eval(lib, x, row).value.VText? || Eval(lib, x, row).value.VNull?)
    ensures
      var v, called := Eval(lib, x, row).value, EvalCall(lib, f, [x], row);
      && (f.LowerFn? ==> called == Ok(OnText(lib.lower, v)))
      && (f.UpperFn? ==> called == Ok(OnText(lib.upper, v)))
      && (f.TrimFn? ==> called == Ok(OnText(lib.trim, v)))
      && (f.CleanString? ==> called == Ok(OnText(lib.clean, v)))
      && (f.TitleCase? ==> called == Ok(OnText(lib.title, v)))
  {
    hide Eval;
  }

  /** is_null and is_not_null answer for every value. */
  lemma NullTestMeaning(lib: Library, name: string, x: Expr, row: Row)
    requires Eval(lib, x, row).Ok?
    ensures Ascii.Lower(name) == "is_null" ==>
      Eval(lib, Call(name, [x]), row) == Ok(VBool(Eval(lib, x, row).value == VNull))
    ensures Ascii.Lower(name) == "is_not_null" ==>
      Eval(lib, Call(name, [x]), row) == Ok(VBool(Eval(lib, x, row).value != VNull))
  {
    KnownNames();
    hide FnNamed;
    if Ascii.Lower(name) == "is_null" {
      OneArgument(lib, name, IsNull, x, row);
    } else if Ascii.Lower(name) == "is_not_null" {
      OneArgument(lib, name, IsNotNull, x, row);
    }
  }

  /** abs of an integer is its distance from zero, but for the one integer whose distance does not fit. */
  lemma AbsMeaning(lib: Library, name: string, x: Expr, row: Row)
    requires Ascii.Lower(name) == "abs" && IntTerm(x, row) && Fits(Exact(x, row))
    ensures
      var n := Exact(x, row);
      Eval(lib, Call(name, [x]), row) == Ok(VInt(if n == -0x8000_0000_0000_0000 then n else AbsoluteValue(n)))
  {
    KnownNames();
    IntegersWrapOnce(lib, x, row);
    WrapIsExactIff(-Exact(x, row));
    hide FnNamed, IntTerm, Exact;
    OneArgument(lib, name, Abs, x, row);
  }

  // ---------------------------------------------------------------------------------------------
  // Formulas
  // ---------------------------------------------------------------------------------------------

  predicate Compares(op: BinaryOp) {
    op.Eq? || op.NotEq? || op.Lt? || op.Lte? || op.Gt? || op.Gte?
  }

  /** Logic over comparisons of integers, of texts and of truth values. */
  predicate Formula(e: Expr, row: Row) {
    match e
    case Lit(LitBool(_)) => true
    case Column(name) => name in row && row[name].VBool?
    case Unary(Not, operand) => Formula(operand, row)
    case Binary(op, left, right) =>
      || ((op.And? || op.Or?) && Formula(left, row) && Formula(right, row))
      || (Compares(op) && IntTerm(left, row) && IntTerm(right, row))
      || (Compares(op) && TextTerm(left, row) && TextTerm(right, row))
      || (Compares(op) && Formula(left, row) && Formula(right, row))
    case _ => false
  }

  predicate IntsCompare(op: BinaryOp, a: int, b: int) {
    match op
    case Eq => a == b
    case NotEq => a != b
    case Lt => a < b
    case Lte => a <= b
    case Gt => a > b
    case Gte => a >= b
    case _ => false
  }

  /** Texts are equal when they are the same; their order is the library's. */
  predicate TextsCompare(lib: Library, op: BinaryOp, s: string, t: string) {
    match op
    case Eq => s == t
    case NotEq => s != t
    case _ => IntsCompare(op, lib.compareText(s, t), 0)
  }

  /** False is below true. */
  predicate TruthsCompare(op: BinaryOp, p: bool, q: bool) {
    match op
    case Eq => p <==> q
    case NotEq => p != q
    case Lt => !p && q
    case Lte => p ==> q
    case Gt => p && !q
    case Gte => q ==> p
    case _ => false
  }

  predicate Truth(lib: Library, e: Expr, row: Row)
    requires Formula(e, row)
  {
    match e
    case Lit(lit) => lit.flag
    case Column(name) => row[name].flag
    case Unary(_, operand) => !Truth(lib, operand, row)
    case Binary(op, left, right) =>
      if op.And? then Truth(lib, left, row) && Truth(lib, right, row)
      else if op.Or? then Truth(lib, left, row) || Truth(lib, right, row)
      else if IntTerm(left, row) && IntTerm(right, row) then
        IntsCompare(op, Wrap64(Exact(left, row)), Wrap64(Exact(right, row)))
      else if TextTerm(left, row) && TextTerm(right, row) then
        TextsCompare(lib, op, Spelled(left, row), Spelled(right, row))
      else TruthsCompare(op, Truth(lib, left, row), Truth(lib, right, row))
  }

  /** No expression is of two kinds. */
  lemma KindsAreDisjoint(e: Expr, row: Row)
    ensures !(IntTerm(e, row) && TextTerm(e, row)) && !(IntTerm(e, row) && Formula(e, row))
    ensures !(TextTerm(e, row) && Formula(e, row))
  {
    var lib: Library :| true;
    if IntTerm(e, row) {
      IntegersWrapOnce(lib, e, row);
    }
    if TextTerm(e, row) {
      TextMeaning(lib, e, row);
    }
  }

  lemma IntComparison(lib: Library, op: BinaryOp, a: int, b: int)
    requires Compares(op)
    ensures BinaryValue(lib, op, VInt(a), VInt(b)) == Ok(VBool(IntsCompare(op, a, b)))
  {
  }

  lemma TextComparison(lib: Library, op: BinaryOp, s: string, t: string)
    requires Compares(op)
    ensures BinaryValue(lib, op, VText(s), VText(t)) == Ok(VBool(TextsCompare(lib, op, s, t)))
  {
  }

  lemma TruthComparison(lib: Library, op: BinaryOp, p: bool, q: bool)
    requires Compares(op)
    ensures BinaryValue(lib, op, VBool(p), VBool(q)) == Ok(VBool(TruthsCompare(op, p, q)))
  {
  }

  lemma Connective(lib: Library, op: BinaryOp, p: bool, q: bool)
    requires op.And? || op.Or?
    ensures BinaryValue(lib, op, VBool(p), VBool(q)) == Ok(VBool(if op.And? then p && q else p || q))
  {
  }

  /** A formula evaluates to its truth. */
  lemma {:induction false} FormulaMeaning(lib: Library, e: Expr, row: Row)
    requires Formula(e, row)
    ensures Eval(lib, e, row) == Ok(VBool(Truth(lib, e, row)))
  {
    hide FnOf, BinaryValue, Exact, Spelled, IntsCompare, TextsCompare, TruthsCompare;
    match e
    case Lit(_) =>
    case Column(_) =>
    case Unary(_, operand) => FormulaMeaning(lib, operand, row);
    case Binary(op, left, right) =>
      KindsAreDisjoint(left, row);
      if IntTerm(left, row) && IntTerm(right, row) {
        IntegersWrapOnce(lib, left, row);
        IntegersWrapOnce(lib, right, row);
        IntComparison(lib, op, Wrap64(Exact(left, row)), Wrap64(Exact(right, row)));
      } else if TextTerm(left, row) && TextTerm(right, row) {
        TextMeaning(lib, left, row);
        TextMeaning(lib, right, row);
        TextComparison(lib, op, Spelled(left, row), Spelled(right, row));
      } else {
        FormulaMeaning(lib, left, row);
        FormulaMeaning(lib, right, row);
        if Compares(op) {
          TruthComparison(lib, op, Truth(lib, left, row), Truth(lib, right, row));
        } else {
          Connective(lib, op, Truth(lib, left, row), Truth(lib, right, row));
        }
      }
  }

  /** Null in comparisons: it is equal to null only, and it ties with everything else in the order. */
  lemma NullComparisons(lib: Library, op: BinaryOp, left: Expr, right: Expr, row: Row)
    requires Eval(lib, left, row).Ok? && Eval(lib, right, row).Ok? && Compares(op)
    requires Eval(lib, left, row).value.VNull? || Eval(lib, right, row).value.VNull?
    ensures
      var both := Eval(lib, left, row) == Eval(lib, right, row);
      Eval(lib, Binary(op, left, right), row) ==
        Ok(VBool(if op.Eq? then both else if op.NotEq? then !both else op.Lte? || op.Gte?))
  {
    hide EvalCall, FnOf, BinaryValue;
    NullTies(lib, op, Eval(lib, left, row).value, Eval(lib, right, row).value);
  }

  lemma NullTies(lib: Library, op: BinaryOp, l: Value, r: Value)
    requires Compares(op) && (l.VNull? || r.VNull?)
    ensures BinaryValue(lib, op, l, r) ==
      Ok(VBool(if op.Eq? then l == r else if op.NotEq? then l != r else op.Lte? || op.Gte?))
  {
  }

  /** Operands are evaluated from the left, both of them always: `false and x` fails when x does. */
  lemma FailuresPropagate(lib: Library, op: BinaryOp, left: Expr, right: Expr, row: Row)
    ensures Eval(lib, left, row).Err? ==> Eval(lib, Binary(op, left, right), row) == Eval(lib, left, row)
    ensures Eval(lib, left, row).Ok? && Eval(lib, right, row).Err? ==>
      Eval(lib, Binary(op, left, right), row) == Eval(lib, right, row)
  {
    hide BinaryValue, EvalCall, FnOf;
  }

  /** The distance functions hand their four numbers over in order, in the unit of their name. */
  lemma DistanceMeaning(lib: Library, name: string, args: seq<Expr>, row: Row, unit: string)
    requires (Ascii.Lower(name), unit) in
      [("haversine_meters", "meters"), ("haversine_km", "km"), ("haversine_miles", "miles")]
    requires |args| == 4 && forall i :: 0 <= i < 4 ==> Eval(lib, args[i], row).Ok?
    requires forall i :: 0 <= i < 4 ==> IsNumber(Eval(lib, args[i], row).value)
    ensures
      var d := seq(4, i requires 0 <= i < 4 => AsDouble(lib, Eval(lib, args[i], row).value));
      Eval(lib, Call(name, args), row) ==
        match lib.distance(d, unit) case None => Err(Mismatch) case Some(far) => Ok(VDouble(far))
  {
    DistanceNames();
    hide FnNamed, Eval;
    var f := FnNamed(Ascii.Lower(name)).value;
    FourArguments(lib, name, f, args, row);
    var d := seq(4, i requires 0 <= i < 4 => AsDouble(lib, Eval(lib, args[i], row).value));
    Coordinates(lib, f, args, row, d, 0);
    assert d[..0] == [] && d[..4] == d;
  }

  lemma DistanceNames()
    ensures FnNamed("haversine_meters") == Some(HaversineMeters) && FnNamed("haversine_km") == Some(HaversineKm)
    ensures FnNamed("haversine_miles") == Some(HaversineMiles)
  {
  }

  lemma FourArguments(lib: Library, name: string, f: Fn, args: seq<Expr>, row: Row)
    requires FnNamed(Ascii.Lower(name)) == Some(f) && Implemented(f) && ArityOf(f) == |args|
    ensures Eval(lib, Call(name, args), row) == EvalCall(lib, f, args, row)
  {
    hide FnNamed, EvalCall;
  }

  lemma {:induction false} Coordinates(lib: Library, f: Fn, args: seq<Expr>, row: Row, d: seq<Double>, n: nat)
    requires n <= 4 == |args| == |d| && forall i :: 0 <= i < 4 ==> Eval(lib, args[i], row).Ok?
    requires forall i :: 0 <= i < 4 ==>
      IsNumber(Eval(lib, args[i], row).value) && d[i] == AsDouble(lib, Eval(lib, args[i], row).value)
    ensures EvalDistance(lib, f, args, row, d[..n]) == Distance(lib, d, FixedUnit(f))
    decreases 4 - n
  {
    hide Eval;
    if n < 4 {
      assert d[..n + 1] == d[..n] + [d[n]];
      Coordinates(lib, f, args, row, d, n + 1);
    } else {
      assert d[..4] == d;
    }
  }

  // ---------------------------------------------------------------------------------------------
  // Reals
  // ---------------------------------------------------------------------------------------------

  /** A floating-point library without rounding. */
  ghost predicate ExactReals(lib: Library) {
    && (forall x, y :: lib.add(Finite(x), Finite(y)) == Finite(x + y))
    && (forall x, y :: lib.sub(Finite(x), Finite(y)) == Finite(x - y))
    && (forall x, y :: lib.mul(Finite(x), Finite(y)) == Finite(x * y))
    && (forall x, y :: y != 0.0 ==> lib.div(Finite(x), Finite(y)) == Finite(x / y))
    && (forall x :: lib.neg(Finite(x)) == Finite(-x))
    && (forall n :: lib.ofInt(n) == Finite(n as real))
    && (forall x, y :: lib.less(Finite(x), Finite(y)) <==> x < y)
  }

  function RealResult(op: BinaryOp, x: real, y: real): real
    requires op.Div? ==> y != 0.0
  {
    match op
    case Add => x + y
    case Sub => x - y
    case Mul => x * y
    case Div => x / y
    case _ => 0.0
  }

  predicate Arithmetic(op: BinaryOp, y: real) {
    op.Add? || op.Sub? || op.Mul? || (op.Div? && y != 0.0)
  }

  /** The real number an arithmetic expression stands for: integer parts may overflow on the way but must fit where
      they meet a double, divisors are not zero, and division of two integers is not meant. */
  function RealOf(e: Expr, row: Row): Option<real> {
    if IntTerm(e, row) then if Fits(Exact(e, row)) then Some(Exact(e, row) as real) else None
    else match e
      case Lit(LitDouble(Finite(x))) => Some(x)
      case Column(name) =>
        if name in row && row[name].VDouble? && row[name].double.Finite? then Some(row[name].double.value) else None
      case Unary(Neg, operand) =>
        var x := RealOf(operand, row);
        if x.Some? then Some(-x.value) else None
      case Binary(op, left, right) =>
        var x, y := RealOf(left, row), RealOf(right, row);
        if x.None? || y.None? then None
        else if op.Div? && IntTerm(left, row) && IntTerm(right, row) then None
        else if Arithmetic(op, y.value) then Some(RealResult(op, x.value, y.value))
        else None
      case _ => None
  }

  /** The value that stands for a real: an integer where every part is one, a double otherwise. */
  function Standing(e: Expr, row: Row, x: real): Value {
    if IntTerm(e, row) then VInt(x.Floor) else VDouble(Finite(x))
  }

  lemma ExactOperation(lib: Library, op: BinaryOp, x: real, y: real)
    requires ExactReals(lib) && Arithmetic(op, y)
    ensures DoubleOp(lib, op, Finite(x), Finite(y)) == Finite(RealResult(op, x, y))
  {
    match op
    case Add =>
    case Sub =>
    case Mul => assert lib.mul(Finite(x), Finite(y)) == Finite(x * y);
    case Div => assert lib.div(Finite(x), Finite(y)) == Finite(x / y);
  }

  lemma ExactNumber(lib: Library, v: Value, x: real)
    requires ExactReals(lib) && (v == VDouble(Finite(x)) || (v.VInt? && v.number as real == x))
    ensures AsDouble(lib, v) == Finite(x)
  {
  }

  lemma RealOperation(lib: Library, op: BinaryOp, l: Value, r: Value, x: real, y: real)
    requires ExactReals(lib) && Arithmetic(op, y)
    requires l == VDouble(Finite(x)) || (l.VInt? && l.number as real == x)
    requires r == VDouble(Finite(y)) || (r.VInt? && r.number as real == y)
    requires l.VDouble? || r.VDouble?
    ensures BinaryValue(lib, op, l, r) == Ok(VDouble(Finite(RealResult(op, x, y))))
  {
    ExactNumber(lib, l, x);
    ExactNumber(lib, r, y);
    ExactOperation(lib, op, x, y);
    hide ExactReals, RealResult, DoubleOp, AsDouble, IntOp, CompareValues, ValueEq;
  }

  /** With exact floating-point operations, evaluation is real arithmetic. */
  lemma {:induction false} RealMeaning(lib: Library, e: Expr, row: Row)
    requires ExactReals(lib) && RealOf(e, row).Some?
    ensures Eval(lib, e, row) == Ok(Standing(e, row, RealOf(e, row).value))
    ensures IntTerm(e, row) ==> RealOf(e, row).value.Floor as real == RealOf(e, row).value
  {
    hide FnOf, Exact, BinaryValue, ExactReals, RealResult, EvalCall;
    if IntTerm(e, row) {
      IntegersWrapOnce(lib, e, row);
    } else {
      match e
      case Lit(_) =>
      case Column(_) =>
      case Unary(_, operand) =>
        RealMeaning(lib, operand, row);
        ExactNegation(lib, RealOf(operand, row).value);
      case Binary(op, left, right) =>
        RealMeaning(lib, left, row);
        RealMeaning(lib, right, row);
        var x, y := RealOf(left, row).value, RealOf(right, row).value;
        RealOperation(lib, op, Standing(left, row, x), Standing(right, row, y), x, y);
    }
  }

  lemma ExactNegation(lib: Library, x: real)
    requires ExactReals(lib)
    ensures lib.neg(Finite(x)) == Finite(-x)
  {
  }

  predicate RealsCompare(op: BinaryOp, x: real, y: real) {
    match op
    case Lt => x < y
    case Lte => x <= y
    case Gt => x > y
    case Gte => x >= y
    case _ => false
  }

  lemma NumberOrder(lib: Library, op: BinaryOp, l: Value, r: Value, x: real, y: real)
    requires ExactReals(lib) && (op.Lt? || op.Lte? || op.Gt? || op.Gte?)
    requires l == VDouble(Finite(x)) || (l.VInt? && l.number as real == x)
    requires r == VDouble(Finite(y)) || (r.VInt? && r.number as real == y)
    ensures BinaryValue(lib, op, l, r) == Ok(VBool(RealsCompare(op, x, y)))
  {
    ExactNumber(lib, l, x);
    ExactNumber(lib, r, y);
    ExactOrder(lib, x, y);
    hide ExactReals, AsDouble;
  }

  lemma ExactOrder(lib: Library, x: real, y: real)
    requires ExactReals(lib)
    ensures (lib.less(Finite(x), Finite(y)) <==> x < y) && (lib.less(Finite(y), Finite(x)) <==> y < x)
  {
  }

  /** And the order of two such expressions is the order of the reals. */
  lemma RealOrder(lib: Library, op: BinaryOp, left: Expr, right: Expr, row: Row)
    requires ExactReals(lib) && RealOf(left, row).Some? && RealOf(right, row).Some?
    requires op.Lt? || op.Lte? || op.Gt? || op.Gte?
    ensures Eval(lib, Binary(op, left, right), row) ==
      Ok(VBool(RealsCompare(op, RealOf(left, row).value, RealOf(right, row).value)))
  {
    hide FnOf, Exact, EvalCall, RealOf, IntTerm, ExactReals, BinaryValue, RealsCompare;
    RealMeaning(lib, left, row);
    RealMeaning(lib, right, row);
    var x, y := RealOf(left, row).value, RealOf(right, row).value;
    NumberOrder(lib, op, Standing(left, row, x), Standing(right, row, y), x, y);
  }
}
