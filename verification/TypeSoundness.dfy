/**
 Well-typed expressions evaluate to values of their type (libs/pipeline-expression/infer.go against
 eval.go).
 */
module TypeSoundness {
  import opened Common
  import opened ExprSyntax
  import opened PipelineTypes
  import opened Catalog
  import Ascii
  import opened ExprInfer
  import opened ExprEval

  /** A value is of the kind its type promises.  Arrays and structs decode to null; a geometry is text or
      an object. */
  predicate HasType(v: Value, t: PipelineType) {
    match t
    case Boolean => v.VBool?
    case Integer => v.VInt?
    case Long => v.VInt?
    case DoubleType => v.VInt? || v.VDouble?
    case Decimal => v.VInt? || v.VDouble?
    case Text => v.VText?
    case Date => v.VText?
    case Timestamp => v.VText?
    case Geometry => v.VText? || v.VNull?
    case Array(_) => v.VNull?
    case Struct(_) => v.VNull?
  }

  /** Every column of the environment is present with a value of its type. */
  predicate Conforms(row: Row, env: ColumnEnv) {
    forall name :: name in env ==> name in row && HasType(row[name], env[name])
  }

  /** No null literal, no cast, no distance, and only functions the evaluator implements. */
  predicate Supported(e: Expr) {
    match e
    case Lit(lit) => !lit.LitNull?
    case Column(_) => true
    case Unary(_, operand) => Supported(operand)
    case Binary(_, left, right) => Supported(left) && Supported(right)
    case Call(name, args) =>
      && (FnOf(name).Some? ==> SupportedFn(FnOf(name).value))
      && forall i :: 0 <= i < |args| ==> Supported(args[i])
  }

  predicate SupportedFn(f: Fn) {
    Implemented(f) && !f.Cast? && !IsDistance(f)
  }

  /** The division guard never fires anywhere in the expression. */
  predicate NoZeroDivision(lib: Library, e: Expr, row: Row) {
    match e
    case Lit(_) => true
    case Column(_) => true
    case Unary(_, operand) => NoZeroDivision(lib, operand, row)
    case Binary(op, left, right) =>
      && NoZeroDivision(lib, left, row) && NoZeroDivision(lib, right, row)
      && (op.Div? && Eval(lib, left, row).Ok? && Eval(lib, right, row).Ok? ==>
            !DividesByZero(Eval(lib, left, row).value, Eval(lib, right, row).value))
    case Call(_, args) => forall i :: 0 <= i < |args| ==> NoZeroDivision(lib, args[i], row)
  }

  /** A value of the type, or the one failure types cannot exclude. */
  predicate SoundResult(r: Evaluated, t: PipelineType) {
    match r
    case Ok(v) => HasType(v, t)
    case Err(e) => e == NaNComparison
  }

  lemma NumericValues(v: Value, t: PipelineType)
    requires HasType(v, t) && IsNumeric(t)
    ensures IsNumber(v) && (t.Integer? || t.Long? ==> v.VInt?)
  {
  }

  lemma ArithIsSound(lib: Library, op: BinaryOp, l: Value, r: Value, t: PipelineType, u: PipelineType)
    requires IsNumeric(t) && IsNumeric(u) && HasType(l, t) && HasType(r, u)
    requires op.Add? || op.Sub? || op.Mul? || (op.Div? && !DividesByZero(l, r))
    ensures Promote(t, u).Some? && SoundResult(BinaryValue(lib, op, l, r), Promote(t, u).value)
  {
    PromoteOfNumerics(t, u);
    NumericValues(l, t);
    NumericValues(r, u);
    var p := Promote(t, u).value;
    if p.Integer? || p.Long? {
      assert (t.Integer? || t.Long?) && (u.Integer? || u.Long?);
    }
  }

  lemma ComparisonIsSound(lib: Library, op: BinaryOp, l: Value, r: Value, t: PipelineType, u: PipelineType)
    requires IsComparison(op) && Comparable(t, u) && HasType(l, t) && HasType(r, u)
    ensures SoundResult(BinaryValue(lib, op, l, r), Boolean)
  {
  }

  lemma BinaryIsSound(lib: Library, op: BinaryOp, l: Value, r: Value, t: PipelineType, u: PipelineType)
    requires HasType(l, t) && HasType(r, u) && (op.Div? ==> !DividesByZero(l, r))
    requires TypeBinary(op, t, u).errors == []
    ensures TypeBinary(op, t, u).ty.Some? && SoundResult(BinaryValue(lib, op, l, r), TypeBinary(op, t, u).ty.value)
  {
    hide BinaryValue;
    if IsLogical(op) {
      LogicIsSound(lib, op, l, r);
    } else if IsComparison(op) {
      ComparisonIsSound(lib, op, l, r, t, u);
    } else if IsNumeric(t) && IsNumeric(u) {
      ArithIsSound(lib, op, l, r, t, u);
    } else {
      ConcatenationIsSound(lib, l, r);
    }
  }

  lemma LogicIsSound(lib: Library, op: BinaryOp, l: Value, r: Value)
    requires IsLogical(op) && l.VBool? && r.VBool?
    ensures SoundResult(BinaryValue(lib, op, l, r), Boolean)
  {
  }

  lemma ConcatenationIsSound(lib: Library, l: Value, r: Value)
    requires l.VText? && r.VText?
    ensures SoundResult(BinaryValue(lib, Add, l, r), Text)
  {
  }

  lemma UnaryIsSound(lib: Library, op: UnaryOp, v: Value, t: PipelineType)
    requires HasType(v, t) && TypeUnary(op, t).errors == []
    ensures TypeUnary(op, t).ty.Some? && SoundResult(UnaryValue(lib, op, v), TypeUnary(op, t).ty.value)
  {
  }

  /** A supported function applied to arguments of sound types. */
  lemma CallIsSound(lib: Library, f: Fn, args: seq<Expr>, row: Row, tys: seq<PipelineType>)
    requires SupportedFn(f) && |args| == |tys| == |SignatureOf(f).params| == ArityOf(f)
    requires forall i :: 0 <= i < |args| ==>
      SoundResult(Eval(lib, args[i], row), tys[i]) && Satisfies(tys[i], SignatureOf(f).params[i])
    ensures SoundResult(EvalCall(lib, f, args, row), if f.Abs? then tys[0] else SignatureOf(f).result.ty)
  {
    assert SoundResult(Eval(lib, args[0], row), tys[0]) && Satisfies(tys[0], SignatureOf(f).params[0]);
    if f.Concat? {
      assert SoundResult(Eval(lib, args[1], row), tys[1]) && Satisfies(tys[1], SignatureOf(f).params[1]);
    }
  }

  lemma ArityAgrees(f: Fn)
    requires SupportedFn(f)
    ensures ArityOf(f) == |SignatureOf(f).params|
    ensures f.Abs? || SignatureOf(f).result.Fixed?
    ensures f.Abs? ==> SignatureOf(f).result == PromoteOf([0]) && ArityOf(f) == 1
  {
  }

  /** Type soundness: if inference reports no error and the row conforms to the environment, then a
      supported expression whose divisions never hit the zero guard evaluates to a value of the inferred
      type, or fails with a NaN comparison. */
  lemma {:induction false} Soundness(lib: Library, e: Expr, env: ColumnEnv, row: Row)
    requires Infer(e, env).errors == [] && Conforms(row, env)
    requires Supported(e) && NoZeroDivision(lib, e, row)
    ensures Infer(e, env).ty.Some? && SoundResult(Eval(lib, e, row), Infer(e, env).ty.value)
    decreases e, 1
  {
    hide BinaryValue, UnaryValue, TypeBinary, TypeUnary, EvalCall;
    match e
    case Lit(_) =>
    case Column(_) =>
    case Unary(op, operand) =>
      NoErrorsMeansTyped(operand, env);
      Soundness(lib, operand, env, row);
      match Eval(lib, operand, row) {
        case Err(_) => UnaryTyped(op, operand, env);
        case Ok(v) => UnaryIsSound(lib, op, v, Infer(operand, env).ty.value);
      }
    case Binary(op, left, right) =>
      NoErrorsMeansTyped(left, env);
      NoErrorsMeansTyped(right, env);
      NoErrorsMeansTyped(e, env);
      Soundness(lib, left, env, row);
      Soundness(lib, right, env, row);
      if Eval(lib, left, row).Ok? && Eval(lib, right, row).Ok? {
        BinaryIsSound(lib, op, Eval(lib, left, row).value, Eval(lib, right, row).value,
                      Infer(left, env).ty.value, Infer(right, env).ty.value);
      }
    case Call(name, args) => CallSoundness(lib, name, args, env, row);
  }

  lemma UnaryTyped(op: UnaryOp, operand: Expr, env: ColumnEnv)
    requires Infer(Unary(op, operand), env).errors == []
    ensures Infer(Unary(op, operand), env).ty.Some?
  {
    NoErrorsMeansTyped(Unary(op, operand), env);
  }

  lemma {:induction false} CallSoundness(lib: Library, name: string, args: seq<Expr>, env: ColumnEnv, row: Row)
    requires Infer(Call(name, args), env).errors == [] && Conforms(row, env)
    requires Supported(Call(name, args)) && NoZeroDivision(lib, Call(name, args), row)
    ensures Infer(Call(name, args), env).ty.Some?
    ensures SoundResult(Eval(lib, Call(name, args), row), Infer(Call(name, args), env).ty.value)
    decreases Call(name, args), 0
  {
    hide EvalCall, FnOf, SignatureOf, ArityOf, HasType, Satisfies, InferArgs;
    assert FnOf(name).Some?;
    var f := FnOf(name).value;
    var sig := SignatureOf(f);
    ArityAgrees(f);
    ArgsWithoutErrors(name, args, sig.params, env);
    var a := InferArgs(name, args, sig.params, env);
    var tys := seq(|args|, i requires 0 <= i < |args| => Infer(args[i], env).ty.value);
    forall i | 0 <= i < |args|
      ensures SoundResult(Eval(lib, args[i], row), tys[i]) && Satisfies(tys[i], sig.params[i])
    {
      assert a.tys[i] == Infer(args[i], env).ty;
      Soundness(lib, args[i], env, row);
    }
    CallIsSound(lib, f, args, row, tys);
    if f.Abs? {
      OnePromoted(a.tys);
    }
  }

  /** The same for the public entry point, whose fallback type is never needed. */
  lemma InferExprIsSound(lib: Library, e: Expr, env: ColumnEnv, row: Row)
    requires InferExpr(e, env).Ok? && Conforms(row, env)
    requires Supported(e) && NoZeroDivision(lib, e, row)
    ensures SoundResult(Eval(lib, e, row), InferExpr(e, env).value)
  {
    Soundness(lib, e, env, row);
  }

  // ---------------------------------------------------------------------------------------------
  // Why the side conditions are there
  // ---------------------------------------------------------------------------------------------

  /** A well-typed quotient whose guard fires evaluates to null, which is of no numeric type. */
  lemma ZeroDivisionBreaksTyping(lib: Library, left: Expr, right: Expr, env: ColumnEnv, row: Row)
    requires Infer(Binary(Div, left, right), env).errors == []
    requires Eval(lib, left, row).Ok? && Eval(lib, right, row).Ok?
    requires DividesByZero(Eval(lib, left, row).value, Eval(lib, right, row).value)
    ensures Infer(Binary(Div, left, right), env).ty.Some? && IsNumeric(Infer(Binary(Div, left, right), env).ty.value)
    ensures !SoundResult(Eval(lib, Binary(Div, left, right), row), Infer(Binary(Div, left, right), env).ty.value)
  {
    hide FnOf, SignatureOf, InferArgs, EvalCall, LitType, UnaryValue, TypeUnary;
    NoErrorsMeansTyped(left, env);
    NoErrorsMeansTyped(right, env);
    PromoteOfNumerics(Infer(left, env).ty.value, Infer(right, env).ty.value);
  }

  /** At a quotient of operands without zero divisions of their own, typing is exact: the result is sound if and
      only if the zero guard does not fire. */
  lemma QuotientIsSoundIff(lib: Library, left: Expr, right: Expr, env: ColumnEnv, row: Row)
    requires Infer(Binary(Div, left, right), env).errors == [] && Conforms(row, env)
    requires Supported(left) && Supported(right)
    requires NoZeroDivision(lib, left, row) && NoZeroDivision(lib, right, row)
    ensures Infer(Binary(Div, left, right), env).ty.Some?
    ensures
      var l, r := Eval(lib, left, row), Eval(lib, right, row);
      SoundResult(Eval(lib, Binary(Div, left, right), row), Infer(Binary(Div, left, right), env).ty.value) <==>
        !(l.Ok? && r.Ok? && DividesByZero(l.value, r.value))
  {
    var l, r := Eval(lib, left, row), Eval(lib, right, row);
    if l.Ok? && r.Ok? && DividesByZero(l.value, r.value) {
      ZeroDivisionBreaksTyping(lib, left, right, env, row);
    } else {
      hide Infer, Eval, DividesByZero;
      Soundness(lib, Binary(Div, left, right), env, row);
    }
  }

  // ---------------------------------------------------------------------------------------------
  // The catalogue against the evaluator
  // ---------------------------------------------------------------------------------------------

  /** The name a function without an evaluator case is catalogued under. */
  function NameOf(f: Fn): string
    requires !Implemented(f)
  {
    match f
    case Floor => "floor"
    case Ceil => "ceil"
    case Round => "round"
    case ToDate => "to_date"
    case ToTimestamp => "to_timestamp"
    case GeomWithin => "geom_within"
  }

  predicate LowerCase(s: string) {
    forall i :: 0 <= i < |s| ==> !('A' <= s[i] <= 'Z')
  }

  lemma LowerIsIdentity(s: string)
    requires LowerCase(s)
    ensures Ascii.Lower(s) == s
  {
  }

  lemma NamesAreLowerCase(f: Fn)
    requires !Implemented(f)
    ensures Ascii.Lower(NameOf(f)) == NameOf(f)
  {
    assert LowerCase(NameOf(f));
    LowerIsIdentity(NameOf(f));
  }

  lemma FloorIsFound()
    ensures FnNamed("floor") == Some(Floor)
  {
  }

  lemma CeilIsFound()
    ensures FnNamed("ceil") == Some(Ceil)
  {
  }

  lemma RoundIsFound()
    ensures FnNamed("round") == Some(Round)
  {
  }

  lemma ToDateIsFound()
    ensures FnNamed("to_date") == Some(ToDate)
  {
  }

  lemma ToTimestampIsFound()
    ensures FnNamed("to_timestamp") == Some(ToTimestamp)
  {
  }

  lemma GeomWithinIsFound()
    ensures FnNamed("geom_within") == Some(GeomWithin)
  {
  }

  /** A function without an evaluator case is found under its name. */
  lemma FoundByName(f: Fn)
    requires !Implemented(f)
    ensures FnOf(NameOf(f)) == Some(f)
  {
    NamesAreLowerCase(f);
    hide FnNamed, Ascii.Lower;
    match f
    case Floor => FloorIsFound();
    case Ceil => CeilIsFound();
    case Round => RoundIsFound();
    case ToDate => ToDateIsFound();
    case ToTimestamp => ToTimestampIsFound();
    case GeomWithin => GeomWithinIsFound();
  }

  /** A type all parameters of the function accept. */
  function ParamType(f: Fn): PipelineType {
    match f
    case Floor => Integer
    case Ceil => Integer
    case Round => Integer
    case GeomWithin => Geometry
    case _ => Text
  }

  /** A call of the function on one column, and an environment that types that column. */
  function ColumnCall(f: Fn): Expr
    requires !Implemented(f)
  {
    Call(NameOf(f), if f.GeomWithin? then [Column("x"), Column("x")] else [Column("x")])
  }

  function ColumnEnvFor(f: Fn): ColumnEnv {
    map["x" := ParamType(f)]
  }

  lemma ColumnArgs(name: string, t: PipelineType, params: seq<Constraint>, args: seq<Expr>)
    requires |args| == |params| <= 2
    requires forall i :: 0 <= i < |args| ==> args[i] == Column("x") && Satisfies(t, params[i])
    ensures InferArgs(name, args, params, map["x" := t]).errors == []
    ensures forall i :: 0 <= i < |args| ==> InferArgs(name, args, params, map["x" := t]).tys[i] == Some(t)
  {
    hide Satisfies;
    var env: ColumnEnv := map["x" := t];
    assert Infer(Column("x"), env) == Inferred(Some(t), []);
    NoArgs(name, args[..0], params, env);
    if |args| >= 1 {
      ArgsGrow(name, args, 0, params, env);
    }
    if |args| == 2 {
      ArgsGrow(name, args, 1, params, env);
    }
    assert args[..|args|] == args;
  }

  lemma SignatureFits(f: Fn)
    requires !Implemented(f)
    ensures
      var sig, args := SignatureOf(f), ColumnCall(f).args;
      && 1 <= |args| == |sig.params| <= 2 && (sig.result.Fixed? || (sig.result == PromoteOf([0]) && |args| == 1))
      && forall i :: 0 <= i < |args| ==> args[i] == Column("x") && Satisfies(ParamType(f), sig.params[i])
  {
    hide NameOf;
  }

  lemma ResultIsTyped(name: string, rule: ResultRule, args: seq<Expr>, tys: seq<Option<PipelineType>>)
    requires rule.Fixed? || (rule == PromoteOf([0]) && |tys| == 1 && tys[0].Some?)
    ensures ResultType(name, rule, args, tys).errors == []
  {
  }

  lemma ColumnCallIsTyped(f: Fn)
    requires !Implemented(f)
    ensures InferExpr(ColumnCall(f), ColumnEnvFor(f)).Ok?
  {
    FoundByName(f);
    SignatureFits(f);
    var name, sig, args, env := NameOf(f), SignatureOf(f), ColumnCall(f).args, ColumnEnvFor(f);
    assert ColumnCall(f) == Call(name, args);
    hide FnOf, NameOf, SignatureOf, ColumnCall, ParamType, Satisfies, Infer, Implemented;
    ColumnArgs(name, ParamType(f), sig.params, args);
    hide InferArgs, ResultType;
    ResultIsTyped(name, sig.result, args, InferArgs(name, args, sig.params, env).tys);
    CallUnfolds(name, args, env);
  }

  /** A row conforming to the environment of that call. */
  function ColumnRow(f: Fn): Row {
    map["x" := if ParamType(f).Integer? then VInt(0) else VText("")]
  }

  lemma ColumnRowConforms(f: Fn)
    ensures Conforms(ColumnRow(f), ColumnEnvFor(f))
  {
  }

  lemma NoEvaluatorCase(lib: Library, name: string, args: seq<Expr>, row: Row, f: Fn)
    requires FnOf(name) == Some(f) && !Implemented(f)
    ensures Eval(lib, Call(name, args), row) == Err(NoFunction(name))
  {
    hide FnOf;
  }

  /** For every catalogued function without an evaluator case there is a call that inference accepts and that
      fails on every row conforming to its environment; such rows exist. */
  lemma CataloguedButFails(lib: Library, f: Fn)
    requires !Implemented(f)
    ensures InferExpr(ColumnCall(f), ColumnEnvFor(f)).Ok?
    ensures Conforms(ColumnRow(f), ColumnEnvFor(f))
    ensures forall row :: Conforms(row, ColumnEnvFor(f)) ==> Eval(lib, ColumnCall(f), row) == Err(NoFunction(NameOf(f)))
  {
    ColumnCallIsTyped(f);
    ColumnRowConforms(f);
    FoundByName(f);
    hide FnOf, NameOf, InferExpr, Conforms, ColumnEnvFor, ColumnRow, Eval;
    forall row | Conforms(row, ColumnEnvFor(f))
      ensures Eval(lib, ColumnCall(f), row) == Err(NoFunction(NameOf(f)))
    {
      NoEvaluatorCase(lib, NameOf(f), ColumnCall(f).args, row, f);
    }
  }

  /** The call is accepted by inference and all other conditions of soundness hold. */
  ghost predicate Covered(lib: Library, name: string, args: seq<Expr>, env: ColumnEnv, row: Row) {
    && InferExpr(Call(name, args), env).Ok? && Conforms(row, env)
    && forall i :: 0 <= i < |args| ==> Supported(args[i]) && NoZeroDivision(lib, args[i], row)
  }

  ghost predicate CallsAreSound(lib: Library, f: Fn) {
    forall name, args, env, row :: FnOf(name) == Some(f) && Covered(lib, name, args, env, row) ==>
      SoundResult(Eval(lib, Call(name, args), row), InferExpr(Call(name, args), env).value)
  }

  /** The list of implemented functions is the exact boundary: apart from casts and distances, calls of a catalogued
      function evaluate soundly whenever inference accepts them if and only if the evaluator implements it. */
  lemma ImplementedIsTheBoundary(lib: Library, f: Fn)
    requires !f.Cast? && !IsDistance(f)
    ensures CallsAreSound(lib, f) <==> Implemented(f)
  {
    hide Infer, InferExpr, Eval, Conforms, FnOf;
    if Implemented(f) {
      forall name, args, env, row | FnOf(name) == Some(f) && Covered(lib, name, args, env, row)
        ensures SoundResult(Eval(lib, Call(name, args), row), InferExpr(Call(name, args), env).value)
      {
        InferExprIsSound(lib, Call(name, args), env, row);
      }
    } else {
      CataloguedButFails(lib, f);
      FoundByName(f);
      assert Covered(lib, NameOf(f), ColumnCall(f).args, ColumnEnvFor(f), ColumnRow(f));
    }
  }
}
