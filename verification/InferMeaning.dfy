/**
 What type inference accepts (libs/pipeline-expression/infer.go, catalog.go): a typing relation that says of an
 expression, construct by construct, which types it has.  InferExpr answers exactly that type, and reports errors
 exactly when there is none.
 */
module InferMeaning {
  import opened Common
  import opened ExprSyntax
  import opened PipelineTypes
  import opened Catalog
  import opened ExprInfer
  import Ascii

  // ---------------------------------------------------------------------------------------------
  // The typing relation
  // ---------------------------------------------------------------------------------------------

  const NUMBERS := {Integer, Long, DoubleType, Decimal}

  /** Two types whose values can be compared. */
  predicate SameFamily(l: PipelineType, r: PipelineType) {
    l == r || (l in NUMBERS && r in NUMBERS) || (l in {Date, Timestamp} && r in {Date, Timestamp})
  }

  /** The result type of a binary operator on operands of types l and r. */
  predicate OperatorType(op: BinaryOp, l: PipelineType, r: PipelineType, t: PipelineType) {
    match op
    case And => l == Boolean && r == Boolean && t == Boolean
    case Or => l == Boolean && r == Boolean && t == Boolean
    case Add => (l == Text && r == Text && t == Text) || WiderNumber(l, r, t)
    case Sub => WiderNumber(l, r, t)
    case Mul => WiderNumber(l, r, t)
    case Div => WiderNumber(l, r, t)
    case _ => SameFamily(l, r) && t == Boolean
  }

  /** t is the one of two numeric types that the other widens to. */
  predicate WiderNumber(l: PipelineType, r: PipelineType, t: PipelineType) {
    l in NUMBERS && r in NUMBERS && ((t == l && Reaches(r, l)) || (t == r && Reaches(l, r)))
  }

  /** The catalogue, name by name: arguments of these types give a result of type t. */
  predicate FunctionType(name: string, args: seq<Expr>, tys: seq<PipelineType>, t: PipelineType) {
    if name in ["title_case", "lower", "upper", "trim", "clean_string"] then tys == [Text] && t == Text
    else if name == "concat" then tys == [Text, Text] && t == Text
    else if name in ["abs", "floor", "ceil", "round"] then |tys| == 1 && tys[0] in NUMBERS && t == tys[0]
    else if name in ["haversine_meters", "haversine_km", "haversine_miles"] then
      |tys| == 4 && (forall i :: 0 <= i < 4 ==> tys[i] in NUMBERS) && t == DoubleType
    else if name == "haversine_distance" then
      |tys| == 5 && (forall i :: 0 <= i < 4 ==> tys[i] in NUMBERS) && tys[4] == Text && t == DoubleType
    else if name == "to_date" then tys == [Text] && t == Date
    else if name == "to_timestamp" then tys == [Text] && t == Timestamp
    else if name == "cast" then
      |tys| == |args| == 2 && tys[1] == Text && args[1].Lit? && args[1].lit.LitString?
      && ParseTypeLiteral(args[1].lit.text) == Some(t)
    else if name in ["is_null", "is_not_null"] then |tys| == 1 && t == Boolean
    else name == "geom_within" && tys == [Geometry, Geometry] && t == Boolean
  }

  ghost predicate Typed(e: Expr, env: ColumnEnv, t: PipelineType)
    decreases e
  {
    match e
    case Lit(LitBool(_)) => t == Boolean
    case Lit(LitInteger(_)) => t == Integer
    case Lit(LitDouble(_)) => t == DoubleType
    case Lit(_) => t == Text
    case Column(name) => name in env && env[name] == t
    case Unary(Neg, operand) => t in NUMBERS && Typed(operand, env, t)
    case Unary(Not, operand) => t == Boolean && Typed(operand, env, Boolean)
    case Binary(op, left, right) =>
      exists l, r :: Typed(left, env, l) && Typed(right, env, r) && OperatorType(op, l, r, t)
    case Call(name, args) =>
      exists tys: seq<PipelineType> :: |tys| == |args|
        && FunctionType(Ascii.Lower(name), args, tys, t)
        && forall i :: 0 <= i < |args| ==> Typed(args[i], env, tys[i])
  }

  // ---------------------------------------------------------------------------------------------
  // Single constructs
  // ---------------------------------------------------------------------------------------------

  predicate Accepted(r: Inferred, t: PipelineType) {
    r == Inferred(Some(t), [])
  }

  lemma NumbersAreNumeric(t: PipelineType)
    ensures IsNumeric(t) <==> t in NUMBERS
  {
  }

  lemma PromoteIsWiderNumber(l: PipelineType, r: PipelineType, t: PipelineType)
    requires IsNumeric(l) && IsNumeric(r)
    ensures Promote(l, r) == Some(t) <==> WiderNumber(l, r, t)
  {
    PromoteIsLeastUpperBound(l, r, l);
    PromoteIsLeastUpperBound(l, r, r);
    PromotionIsAntisymmetric(l, r);
    PromoteOfNumerics(l, r);
    PromotionIsWidening(l, r);
    PromotionIsWidening(r, l);
    PromotionIsWidening(l, l);
    PromotionIsWidening(r, r);
    hide CanPromote, Promote, Reaches;
    var p := Promote(l, r).value;
    PromotionIsAntisymmetric(l, p);
    PromotionIsAntisymmetric(r, p);
  }

  lemma ComparableIsSameFamily(l: PipelineType, r: PipelineType)
    ensures Comparable(l, r) <==> SameFamily(l, r)
  {
    NumbersAreNumeric(l);
    NumbersAreNumeric(r);
  }

  lemma ArithmeticAccepts(op: BinaryOp, l: PipelineType, r: PipelineType, t: PipelineType)
    requires !IsLogical(op) && !IsComparison(op)
    ensures Accepted(TypeBinary(op, l, r), t) <==> OperatorType(op, l, r, t)
  {
    NumbersAreNumeric(l);
    NumbersAreNumeric(r);
    NotBoth(l, r, t);
    if IsNumeric(l) && IsNumeric(r) {
      PromoteIsWiderNumber(l, r, t);
    }
    hide Promote, WiderNumber, IsNumeric;
  }

  lemma NotBoth(l: PipelineType, r: PipelineType, t: PipelineType)
    ensures WiderNumber(l, r, t) ==> IsNumeric(l) && IsNumeric(r) && !(IsTextual(l) && IsTextual(r))
  {
  }

  lemma BinaryAccepts(op: BinaryOp, l: PipelineType, r: PipelineType, t: PipelineType)
    ensures Accepted(TypeBinary(op, l, r), t) <==> OperatorType(op, l, r, t)
  {
    hide Promote, WiderNumber, IsNumeric, Comparable, SameFamily;
    if IsComparison(op) {
      ComparableIsSameFamily(l, r);
    } else if !IsLogical(op) {
      ArithmeticAccepts(op, l, r, t);
    }
  }

  lemma UnaryAccepts(op: UnaryOp, x: PipelineType, t: PipelineType)
    ensures Accepted(TypeUnary(op, x), t) <==> t == x && (if op.Neg? then x in NUMBERS else x == Boolean)
  {
  }

  function NameOf(f: Fn): string {
    match f
    case TitleCase => "title_case"
    case LowerFn => "lower"
    case UpperFn => "upper"
    case TrimFn => "trim"
    case CleanString => "clean_string"
    case Concat => "concat"
    case Abs => "abs"
    case Floor => "floor"
    case Ceil => "ceil"
    case Round => "round"
    case HaversineMeters => "haversine_meters"
    case HaversineKm => "haversine_km"
    case HaversineMiles => "haversine_miles"
    case HaversineDistance => "haversine_distance"
    case ToDate => "to_date"
    case ToTimestamp => "to_timestamp"
    case Cast => "cast"
    case IsNull => "is_null"
    case IsNotNull => "is_not_null"
    case GeomWithin => "geom_within"
  }

  lemma NamesAreKnown(n: string)
    ensures FnNamed(n).Some? ==> n == NameOf(FnNamed(n).value)
  {
    LaterNamesAreKnown(n);
    hide FnNamedNext;
  }

  lemma LaterNamesAreKnown(n: string)
    ensures FnNamedNext(n).Some? ==> n == NameOf(FnNamedNext(n).value)
  {
  }

  /** Only catalogued names have a type. */
  lemma TypedNamesAreKnown(n: string, args: seq<Expr>, tys: seq<PipelineType>, t: PipelineType)
    requires FunctionType(n, args, tys, t)
    ensures FnNamed(n).Some?
  {
    hide ParseTypeLiteral;
  }

  function Somes(tys: seq<PipelineType>): (r: seq<Option<PipelineType>>)
    ensures |r| == |tys| && forall i :: 0 <= i < |r| ==> r[i] == Some(tys[i])
  {
    seq(|tys|, i requires 0 <= i < |tys| => Some(tys[i]))
  }

  ghost predicate SignatureAccepts(name: string, f: Fn, args: seq<Expr>, tys: seq<PipelineType>, t: PipelineType) {
    && |args| == |SignatureOf(f).params| == |tys|
    && (forall i :: 0 <= i < |tys| ==> Satisfies(tys[i], SignatureOf(f).params[i]))
    && Accepted(ResultType(name, SignatureOf(f).result, args, Somes(tys)), t)
  }

  lemma OneNumber(name: string, f: Fn, args: seq<Expr>, tys: seq<PipelineType>, t: PipelineType)
    requires |tys| == |args| && (f.Abs? || f.Floor? || f.Ceil? || f.Round?)
    ensures SignatureAccepts(name, f, args, tys, t) <==> |tys| == 1 && tys[0] in NUMBERS && t == tys[0]
  {
    if |tys| == 1 {
      OnePromoted(Somes(tys));
      NumbersAreNumeric(tys[0]);
    }
  }

  lemma ManyNumbers(name: string, f: Fn, args: seq<Expr>, tys: seq<PipelineType>, t: PipelineType)
    requires |tys| == |args| && (f.HaversineMeters? || f.HaversineKm? || f.HaversineMiles?)
    ensures SignatureAccepts(name, f, args, tys, t) <==>
      |tys| == 4 && (forall i :: 0 <= i < 4 ==> tys[i] in NUMBERS) && t == DoubleType
  {
    forall i | 0 <= i < |tys|
      ensures IsNumeric(tys[i]) <==> tys[i] in NUMBERS
    {
      NumbersAreNumeric(tys[i]);
    }
  }

  lemma NumbersAndUnit(name: string, args: seq<Expr>, tys: seq<PipelineType>, t: PipelineType)
    requires |tys| == |args|
    ensures SignatureAccepts(name, HaversineDistance, args, tys, t) <==>
      |tys| == 5 && (forall i :: 0 <= i < 4 ==> tys[i] in NUMBERS) && tys[4] == Text && t == DoubleType
  {
    forall i | 0 <= i < |tys|
      ensures IsNumeric(tys[i]) <==> tys[i] in NUMBERS
    {
      NumbersAreNumeric(tys[i]);
    }
  }

  lemma Casts(name: string, args: seq<Expr>, tys: seq<PipelineType>, t: PipelineType)
    requires |tys| == |args|
    ensures SignatureAccepts(name, Cast, args, tys, t) <==>
      && |tys| == |args| == 2 && tys[1] == Text && args[1].Lit? && args[1].lit.LitString?
      && ParseTypeLiteral(args[1].lit.text) == Some(t)
  {
    hide ParseTypeLiteral;
  }

  lemma OfOneText(name: string, f: Fn, args: seq<Expr>, tys: seq<PipelineType>, t: PipelineType, result: PipelineType)
    requires |tys| == |args| && SignatureOf(f) == Signature([Textual], Fixed(result))
    ensures SignatureAccepts(name, f, args, tys, t) <==> tys == [Text] && t == result
  {
    hide SignatureOf;
  }

  lemma OfAnything(name: string, f: Fn, args: seq<Expr>, tys: seq<PipelineType>, t: PipelineType)
    requires |tys| == |args| && (f.IsNull? || f.IsNotNull?)
    ensures SignatureAccepts(name, f, args, tys, t) <==> |tys| == 1 && t == Boolean
  {
  }

  lemma OfTwo(name: string, f: Fn, args: seq<Expr>, tys: seq<PipelineType>, t: PipelineType)
    requires |tys| == |args| && (f.Concat? || f.GeomWithin?)
    ensures SignatureAccepts(name, f, args, tys, t) <==>
      if f.Concat? then tys == [Text, Text] && t == Text else tys == [Geometry, Geometry] && t == Boolean
  {
  }

  lemma OneTextType(f: Fn, args: seq<Expr>, tys: seq<PipelineType>, t: PipelineType)
    requires SignatureOf(f).result.Fixed? && SignatureOf(f).params == [Textual]
    ensures FunctionType(NameOf(f), args, tys, t) <==> tys == [Text] && t == SignatureOf(f).result.ty
  {
    hide ParseTypeLiteral;
  }

  lemma OneNumberType(f: Fn, args: seq<Expr>, tys: seq<PipelineType>, t: PipelineType)
    requires f.Abs? || f.Floor? || f.Ceil? || f.Round?
    ensures FunctionType(NameOf(f), args, tys, t) <==> |tys| == 1 && tys[0] in NUMBERS && t == tys[0]
  {
    hide ParseTypeLiteral;
  }

  lemma ManyNumbersType(f: Fn, args: seq<Expr>, tys: seq<PipelineType>, t: PipelineType)
    requires f.HaversineMeters? || f.HaversineKm? || f.HaversineMiles?
    ensures FunctionType(NameOf(f), args, tys, t) <==>
      |tys| == 4 && (forall i :: 0 <= i < 4 ==> tys[i] in NUMBERS) && t == DoubleType
  {
    hide ParseTypeLiteral;
  }

  lemma AnythingType(f: Fn, args: seq<Expr>, tys: seq<PipelineType>, t: PipelineType)
    requires f.IsNull? || f.IsNotNull?
    ensures FunctionType(NameOf(f), args, tys, t) <==> |tys| == 1 && t == Boolean
  {
    hide ParseTypeLiteral;
  }

  lemma FunctionAccepts(name: string, f: Fn, args: seq<Expr>, tys: seq<PipelineType>, t: PipelineType)
    requires |tys| == |args|
    ensures SignatureAccepts(name, f, args, tys, t) <==> FunctionType(NameOf(f), args, tys, t)
  {
    hide SignatureAccepts, ParseTypeLiteral, SignatureOf;
    if f.HaversineDistance? {
      NumbersAndUnit(name, args, tys, t);
    } else if f.Cast? {
      Casts(name, args, tys, t);
    } else if f.Concat? || f.GeomWithin? {
      OfTwo(name, f, args, tys, t);
    } else {
      hide FunctionType, NameOf;
      OtherAccepts(name, f, args, tys, t);
    }
  }

  lemma OtherAccepts(name: string, f: Fn, args: seq<Expr>, tys: seq<PipelineType>, t: PipelineType)
    requires |tys| == |args| && !f.HaversineDistance? && !f.Cast? && !f.Concat? && !f.GeomWithin?
    ensures SignatureAccepts(name, f, args, tys, t) <==> FunctionType(NameOf(f), args, tys, t)
  {
    hide SignatureAccepts, ParseTypeLiteral, FunctionType, NameOf;
    if f.Abs? || f.Floor? || f.Ceil? || f.Round? {
      OneNumberType(f, args, tys, t);
      OneNumber(name, f, args, tys, t);
    } else if f.HaversineMeters? || f.HaversineKm? || f.HaversineMiles? {
      ManyNumbersType(f, args, tys, t);
      ManyNumbers(name, f, args, tys, t);
    } else if f.IsNull? || f.IsNotNull? {
      AnythingType(f, args, tys, t);
      OfAnything(name, f, args, tys, t);
    } else {
      OfOneText(name, f, args, tys, t, SignatureOf(f).result.ty);
      OneTextType(f, args, tys, t);
    }
  }

  // ---------------------------------------------------------------------------------------------
  // Inference is the typing relation
  // ---------------------------------------------------------------------------------------------

  /** Inference answers t without errors if and only if the expression has type t. */
  lemma {:induction false} InferIsTyped(e: Expr, env: ColumnEnv, t: PipelineType)
    ensures Accepted(Infer(e, env), t) <==> Typed(e, env, t)
    decreases e, 1
  {
    hide TypeBinary, TypeUnary, FnOf, SignatureOf, ResultType, InferArgs, OperatorType, FunctionType;
    match e
    case Lit(_) =>
    case Column(_) =>
    case Unary(op, operand) =>
      var inner := Infer(operand, env);
      InferIsTyped(operand, env, t);
      if inner.ty.Some? {
        UnaryAccepts(op, inner.ty.value, t);
      }
    case Binary(op, left, right) => BinaryIsTyped(op, left, right, env, t);
    case Call(name, args) => CallIsTyped(name, args, env, t);
  }

  lemma {:induction false} BinaryIsTyped(op: BinaryOp, left: Expr, right: Expr, env: ColumnEnv, t: PipelineType)
    ensures Accepted(Infer(Binary(op, left, right), env), t) <==> Typed(Binary(op, left, right), env, t)
    decreases Binary(op, left, right), 0
  {
    hide TypeBinary, OperatorType, InferArgs, FnOf;
    var e, l, r := Binary(op, left, right), Infer(left, env), Infer(right, env);
    if Accepted(Infer(e, env), t) {
      InferIsTyped(left, env, l.ty.value);
      InferIsTyped(right, env, r.ty.value);
      BinaryAccepts(op, l.ty.value, r.ty.value, t);
    }
    if Typed(e, env, t) {
      var x, y :| Typed(left, env, x) && Typed(right, env, y) && OperatorType(op, x, y, t);
      InferIsTyped(left, env, x);
      InferIsTyped(right, env, y);
      BinaryAccepts(op, x, y, t);
    }
  }

  lemma {:induction false} CallIsTyped(name: string, args: seq<Expr>, env: ColumnEnv, t: PipelineType)
    ensures Accepted(Infer(Call(name, args), env), t) <==> Typed(Call(name, args), env, t)
    decreases Call(name, args), 0
  {
    hide SignatureOf, ResultType, InferArgs, FunctionType, FnNamed, Satisfies, Infer;
    CallUnfolds(name, args, env);
    var e, n := Call(name, args), Ascii.Lower(name);
    NamesAreKnown(n);
    if Accepted(Infer(e, env), t) {
      var f := FnOf(name).value;
      ArgsWithoutErrors(name, args, SignatureOf(f).params, env);
      var tys := seq(|args|, i requires 0 <= i < |args| => Infer(args[i], env).ty.value);
      assert InferArgs(name, args, SignatureOf(f).params, env).tys == Somes(tys);
      forall i | 0 <= i < |args|
        ensures Typed(args[i], env, tys[i])
      {
        InferIsTyped(args[i], env, tys[i]);
      }
      FunctionAccepts(name, f, args, tys, t);
      assert FunctionType(n, args, tys, t);
    }
    if Typed(e, env, t) {
      var tys: seq<PipelineType> :| |tys| == |args| && FunctionType(n, args, tys, t)
        && forall i :: 0 <= i < |args| ==> Typed(args[i], env, tys[i]);
      TypedNamesAreKnown(n, args, tys, t);
      var f := FnNamed(n).value;
      FunctionAccepts(name, f, args, tys, t);
      forall i | 0 <= i < |args|
        ensures Accepted(Infer(args[i], env), tys[i])
      {
        InferIsTyped(args[i], env, tys[i]);
      }
      ArgsAccepted(name, args, SignatureOf(f).params, env, tys);
    }
  }

  lemma {:induction false} ArgsAccepted(name: string, args: seq<Expr>, params: seq<Constraint>, env: ColumnEnv,
                                        tys: seq<PipelineType>)
    requires |args| <= |params| && |tys| == |args|
    requires forall i :: 0 <= i < |args| ==> Accepted(Infer(args[i], env), tys[i]) && Satisfies(tys[i], params[i])
    ensures InferArgs(name, args, params, env) == ArgTypes(Somes(tys), [])
    decreases |args|
  {
    hide Infer, InferArgs, Satisfies;
    if args == [] {
      NoArgs(name, args, params, env);
    } else {
      var n := |args| - 1;
      ArgsAccepted(name, args[..n], params, env, tys[..n]);
      assert args[..n + 1] == args;
      ArgsGrow(name, args, n, params, env);
      assert Somes(tys[..n]) + [Some(tys[n])] == Somes(tys);
    }
  }

  /** The public entry point: the answer is the type, and there are errors exactly when there is none.  So an
      expression has at most one type, and the fallback to String is never the answer. */
  lemma InferExprIsTyped(e: Expr, env: ColumnEnv, t: PipelineType)
    ensures InferExpr(e, env) == Ok(t) <==> Typed(e, env, t)
    ensures InferExpr(e, env).Err? <==> forall u :: !Typed(e, env, u)
  {
    hide Infer, Typed;
    InferIsTyped(e, env, t);
    var r := Infer(e, env);
    if r.errors == [] {
      NoErrorsMeansTyped(e, env);
      InferIsTyped(e, env, r.ty.value);
    }
    forall u | Typed(e, env, u)
      ensures Accepted(r, u)
    {
      InferIsTyped(e, env, u);
    }
  }

  // ---------------------------------------------------------------------------------------------
  // All errors are reported
  // ---------------------------------------------------------------------------------------------

  /** The columns inference looks at: all but those inside calls it rejects as a whole. */
  function Columns(e: Expr): set<string>
    decreases e, 1
  {
    match e
    case Lit(_) => {}
    case Column(name) => {name}
    case Unary(_, operand) => Columns(operand)
    case Binary(_, left, right) => Columns(left) + Columns(right)
    case Call(name, args) =>
      if FnOf(name).Some? && |SignatureOf(FnOf(name).value).params| == |args| then ArgColumns(args) else {}
  }

  function ArgColumns(args: seq<Expr>): set<string>
    decreases args, 0
  {
    if args == [] then {} else ArgColumns(args[..|args| - 1]) + Columns(args[|args| - 1])
  }

  /** Inference does not stop at the first error: every unknown column it looks at is in the list. */
  lemma {:induction false} UnknownColumnsAreReported(e: Expr, env: ColumnEnv, column: string)
    ensures UnknownColumn(column) in Infer(e, env).errors <==> column in Columns(e) && column !in env
    decreases e, 1
  {
    hide FnOf, SignatureOf, ResultType, InferArgs, ArgColumns;
    match e
    case Lit(_) =>
    case Column(_) =>
    case Unary(op, operand) =>
      UnknownColumnsAreReported(operand, env, column);
    case Binary(op, left, right) =>
      UnknownColumnsAreReported(left, env, column);
      UnknownColumnsAreReported(right, env, column);
      NoColumnErrors(op, left, right, env, column);
    case Call(name, args) =>
      var f := FnOf(name);
      if f.Some? && |SignatureOf(f.value).params| == |args| {
        var params := SignatureOf(f.value).params;
        ArgColumnsAreReported(name, args, params, env, column);
        ResultErrors(name, SignatureOf(f.value).result, args, InferArgs(name, args, params, env).tys, column);
      }
  }

  lemma NoColumnErrors(op: BinaryOp, left: Expr, right: Expr, env: ColumnEnv, column: string)
    ensures
      UnknownColumn(column) in Infer(Binary(op, left, right), env).errors <==>
        UnknownColumn(column) in Infer(left, env).errors || UnknownColumn(column) in Infer(right, env).errors
  {
    hide Promote, Comparable, InferArgs, FnOf;
  }

  lemma ResultErrors(name: string, rule: ResultRule, args: seq<Expr>, tys: seq<Option<PipelineType>>, column: string)
    ensures UnknownColumn(column) !in ResultType(name, rule, args, tys).errors
  {
    hide PromoteArgs, ParseTypeLiteral;
  }

  lemma {:induction false} ArgColumnsAreReported(name: string, args: seq<Expr>, params: seq<Constraint>,
                                                 env: ColumnEnv, column: string)
    requires |args| <= |params|
    ensures UnknownColumn(column) in InferArgs(name, args, params, env).errors <==>
      column in ArgColumns(args) && column !in env
    decreases args, 0
  {
    hide Infer, InferArgs, Columns, Satisfies;
    if args == [] {
      NoArgs(name, args, params, env);
    } else {
      var n := |args| - 1;
      ArgColumnsAreReported(name, args[..n], params, env, column);
      UnknownColumnsAreReported(args[n], env, column);
      assert args[..n + 1] == args;
      ArgsGrow(name, args, n, params, env);
    }
  }
}
