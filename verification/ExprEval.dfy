/**
 The row evaluator (libs/pipeline-expression/eval.go).  Integers wrap at 64 bits; floating-point
 arithmetic, text functions, casts and distances are a library the evaluator is given, so what is
 proved holds for every rounding.
 */
module ExprEval {
  import opened Common
  import opened GoInt
  import opened ExprSyntax
  import opened Catalog

  datatype Value = VBool(flag: bool) | VInt(number: int) | VDouble(double: Double) | VText(text: string) | VNull

  /** A row after decoding: arrays and objects have already collapsed to VNull. */
  type Row = map<string, Value>

  datatype EvalError =
    | NoColumn(name: string) | NoFunction(name: string) | BadArity(name: string) | Mismatch | NaNComparison

  type Evaluated = Result<Value, EvalError>

  datatype Library = Library(
    add: (Double, Double) -> Double, sub: (Double, Double) -> Double,
    mul: (Double, Double) -> Double, div: (Double, Double) -> Double,
    neg: Double -> Double, abs: Double -> Double, ofInt: int -> Double,
    less: (Double, Double) -> bool, same: (Double, Double) -> bool, near: (Double, Double) -> bool,
    compareText: (string, string) -> int,
    lower: string -> string, upper: string -> string, trim: string -> string,
    clean: string -> string, title: string -> string,
    cast: (Value, string) -> Evaluated,
    distance: (seq<Double>, string) -> Option<Double>)

  // ---------------------------------------------------------------------------------------------
  // Scalars
  // ---------------------------------------------------------------------------------------------

  predicate IsZero(d: Double) {
    d == Finite(0.0)
  }

  function IntOp(op: BinaryOp, a: int, b: int): int
    requires op.Div? ==> b != 0
  {
    match op
    case Add => Wrap64(a + b)
    case Sub => Wrap64(a - b)
    case Mul => Wrap64(a * b)
    case Div => Wrap64(TruncDiv(a, b))
    case _ => 0
  }

  function DoubleOp(lib: Library, op: BinaryOp, a: Double, b: Double): Double {
    match op
    case Add => lib.add(a, b)
    case Sub => lib.sub(a, b)
    case Mul => lib.mul(a, b)
    case Div => lib.div(a, b)
    case _ => NaN
  }

  predicate IsNumber(v: Value) {
    v.VInt? || v.VDouble?
  }

  function AsDouble(lib: Library, v: Value): Double
    requires IsNumber(v)
  {
    if v.VInt? then lib.ofInt(v.number) else v.double
  }

  /** The guard of the division branch: integer by integer zero, or double by double zero. */
  predicate DividesByZero(l: Value, r: Value) {
    (l.VInt? && r.VInt? && r.number == 0) || (l.VDouble? && r.VDouble? && IsZero(r.double))
  }

  /** arith, for operands the division guard let through. */
  function Arith(lib: Library, op: BinaryOp, l: Value, r: Value): Evaluated
    requires !(op.Div? && DividesByZero(l, r))
  {
    if l.VInt? && r.VInt? then Ok(VInt(IntOp(op, l.number, r.number)))
    else if IsNumber(l) && IsNumber(r) then Ok(VDouble(DoubleOp(lib, op, AsDouble(lib, l), AsDouble(lib, r))))
    else Err(Mismatch)
  }

  function Sign(less: bool, greater: bool): int {
    if less then -1 else if greater then 1 else 0
  }

  function CompareDoubles(lib: Library, a: Double, b: Double): Result<int, EvalError> {
    if a.NaN? || b.NaN? then Err(NaNComparison) else Ok(Sign(lib.less(a, b), lib.less(b, a)))
  }

  function CompareValues(lib: Library, l: Value, r: Value): Result<int, EvalError> {
    if l.VInt? && r.VInt? then Ok(Sign(l.number < r.number, l.number > r.number))
    else if IsNumber(l) && IsNumber(r) then CompareDoubles(lib, AsDouble(lib, l), AsDouble(lib, r))
    else if l.VText? && r.VText? then Ok(lib.compareText(l.text, r.text))
    else if l.VBool? && r.VBool? then Ok(Sign(!l.flag && r.flag, l.flag && !r.flag))
    else if l.VNull? || r.VNull? then Ok(0)
    else Err(Mismatch)
  }

  predicate ValueEq(lib: Library, l: Value, r: Value) {
    if l.VInt? && r.VDouble? then lib.near(lib.ofInt(l.number), r.double)
    else if l.VDouble? && r.VInt? then lib.near(l.double, lib.ofInt(r.number))
    else if l.VDouble? && r.VDouble? then lib.same(l.double, r.double)
    else l == r
  }

  predicate Holds(op: BinaryOp, order: int) {
    match op
    case Lt => order < 0
    case Lte => order <= 0
    case Gt => order > 0
    case Gte => order >= 0
    case _ => false
  }

  /** evalBinary, after both operands have been evaluated. */
  function BinaryValue(lib: Library, op: BinaryOp, l: Value, r: Value): Evaluated {
    match op
    case And => if l.VBool? && r.VBool? then Ok(VBool(l.flag && r.flag)) else Err(Mismatch)
    case Or => if l.VBool? && r.VBool? then Ok(VBool(l.flag || r.flag)) else Err(Mismatch)
    case Eq => Ok(VBool(ValueEq(lib, l, r)))
    case NotEq => Ok(VBool(!ValueEq(lib, l, r)))
    case Add => if l.VText? && r.VText? then Ok(VText(l.text + r.text)) else Arith(lib, op, l, r)
    case Sub => Arith(lib, op, l, r)
    case Mul => Arith(lib, op, l, r)
    case Div => if DividesByZero(l, r) then Ok(VNull) else Arith(lib, op, l, r)
    case _ =>
      match CompareValues(lib, l, r)
      case Err(e) => Err(e)
      case Ok(order) => Ok(VBool(Holds(op, order)))
  }

  function UnaryValue(lib: Library, op: UnaryOp, v: Value): Evaluated {
    match op
    case Neg =>
      if v.VInt? then Ok(VInt(Wrap64(-v.number)))
      else if v.VDouble? then Ok(VDouble(lib.neg(v.double)))
      else Err(Mismatch)
    case Not => if v.VBool? then Ok(VBool(!v.flag)) else Err(Mismatch)
  }

  function LitValue(lit: Literal): Value {
    match lit
    case LitBool(b) => VBool(b)
    case LitInteger(n) => VInt(n)
    case LitDouble(d) => VDouble(d)
    case LitString(s) => VText(s)
    case LitNull => VNull
  }

  /** unaryString and title_case: null passes through. */
  function TextFunction(f: string -> string, v: Value): Evaluated {
    if v.VText? then Ok(VText(f(v.text))) else if v.VNull? then Ok(VNull) else Err(Mismatch)
  }

  function AbsValue(lib: Library, v: Value): Evaluated {
    if v.VInt? then Ok(VInt(if v.number < 0 then Wrap64(-v.number) else v.number))
    else if v.VDouble? then Ok(VDouble(lib.abs(v.double)))
    else Err(Mismatch)
  }

  // ---------------------------------------------------------------------------------------------
  // Expressions
  // ---------------------------------------------------------------------------------------------

  /** The functions evalCall implements; the other catalogued ones are unknown to it. */
  predicate Implemented(f: Fn) {
    !(f.Floor? || f.Ceil? || f.Round? || f.ToDate? || f.ToTimestamp? || f.GeomWithin?)
  }

  function ArityOf(f: Fn): nat {
    match f
    case Concat => 2
    case Cast => 2
    case HaversineMeters => 4
    case HaversineKm => 4
    case HaversineMiles => 4
    case HaversineDistance => 5
    case _ => 1
  }

  function FixedUnit(f: Fn): string {
    match f
    case HaversineMeters => "meters"
    case HaversineKm => "km"
    case HaversineMiles => "miles"
    case _ => ""
  }

  predicate IsDistance(f: Fn) {
    f.HaversineMeters? || f.HaversineKm? || f.HaversineMiles? || f.HaversineDistance?
  }

  function Eval(lib: Library, e: Expr, row: Row): Evaluated
    decreases e, 2
  {
    match e
    case Lit(lit) => Ok(LitValue(lit))
    case Column(name) => if name in row then Ok(row[name]) else Err(NoColumn(name))
    case Unary(op, operand) =>
      (match Eval(lib, operand, row)
       case Err(err) => Err(err)
       case Ok(v) => UnaryValue(lib, op, v))
    case Binary(op, left, right) =>
      (match Eval(lib, left, row)
       case Err(err) => Err(err)
       case Ok(l) =>
         match Eval(lib, right, row)
         case Err(err) => Err(err)
         case Ok(r) => BinaryValue(lib, op, l, r))
    case Call(name, args) =>
      var f := FnOf(name);
      if f.None? || !Implemented(f.value) then Err(NoFunction(name))
      else if |args| != ArityOf(f.value) then Err(BadArity(name))
      else EvalCall(lib, f.value, args, row)
  }

  function EvalCall(lib: Library, f: Fn, args: seq<Expr>, row: Row): Evaluated
    requires Implemented(f) && |args| == ArityOf(f)
    decreases args, 1
  {
    if IsDistance(f) then EvalDistance(lib, f, args, row, []) else
    match Eval(lib, args[0], row)
    case Err(err) => Err(err)
    case Ok(v) =>
      match f
      case IsNull => Ok(VBool(v.VNull?))
      case IsNotNull => Ok(VBool(!v.VNull?))
      case TitleCase => TextFunction(lib.title, v)
      case LowerFn => TextFunction(lib.lower, v)
      case UpperFn => TextFunction(lib.upper, v)
      case TrimFn => TextFunction(lib.trim, v)
      case CleanString => TextFunction(lib.clean, v)
      case Abs => AbsValue(lib, v)
      case Concat =>
        (match Eval(lib, args[1], row)
         case Err(err) => Err(err)
         case Ok(w) => if v.VText? && w.VText? then Ok(VText(v.text + w.text)) else Err(Mismatch))
      case Cast =>
        if args[1].Lit? && args[1].lit.LitString? then lib.cast(v, args[1].lit.text) else Err(Mismatch)
      case _ => Err(Mismatch)
  }

  /** The coordinates one by one, then the unit; a null anywhere makes the distance null. */
  function EvalDistance(lib: Library, f: Fn, args: seq<Expr>, row: Row, coords: seq<Double>): Evaluated
    requires |coords| <= 4 && |args| >= 4
    decreases args, 0, 4 - |coords|
  {
    if |coords| < 4 then
      match Eval(lib, args[|coords|], row)
      case Err(err) => Err(err)
      case Ok(v) =>
        if v.VNull? then Ok(VNull)
        else if IsNumber(v) then EvalDistance(lib, f, args, row, coords + [AsDouble(lib, v)])
        else Err(Mismatch)
    else if FixedUnit(f) != "" || |args| < 5 then Distance(lib, coords, FixedUnit(f))
    else
      match Eval(lib, args[4], row)
      case Err(err) => Err(err)
      case Ok(v) => if v.VNull? then Ok(VNull) else if v.VText? then Distance(lib, coords, v.text) else Err(Mismatch)
  }

  function Distance(lib: Library, coords: seq<Double>, unit: string): Evaluated {
    match lib.distance(coords, unit)
    case None => Err(Mismatch)
    case Some(d) => Ok(VDouble(d))
  }
}
