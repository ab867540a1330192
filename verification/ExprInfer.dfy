/**
 Type inference (libs/pipeline-expression/infer.go): one type or the list of all offending sites.
 */
module ExprInfer {
  import opened Common
  import opened ExprSyntax
  import opened PipelineTypes
  import opened Catalog

  type ColumnEnv = map<string, PipelineType>

  datatype TypeError =
    | UnknownColumn(name: string)
    | UnknownFunction(name: string)
    | ArityError(name: string, expected: nat, got: nat)
    | ArgType(name: string, index: nat)
    | BinaryOpError(binaryOp: BinaryOp, left: PipelineType, right: PipelineType)
    | UnaryOpError(unaryOp: UnaryOp, ty: PipelineType)
    | InvalidCastTarget(text: string)

  /** The type found, if any, and the errors reported on the way, in order. */
  datatype Inferred = Inferred(ty: Option<PipelineType>, errors: seq<TypeError>)

  predicate IsComparison(op: BinaryOp) {
    op.Eq? || op.NotEq? || op.Lt? || op.Lte? || op.Gt? || op.Gte?
  }

  predicate IsLogical(op: BinaryOp) {
    op.And? || op.Or?
  }

  predicate Comparable(l: PipelineType, r: PipelineType) {
    (IsNumeric(l) && IsNumeric(r)) || (IsTextual(l) && IsTextual(r)) || (IsTemporal(l) && IsTemporal(r)) || Equal(l, r)
  }

  function TypeBinary(op: BinaryOp, l: PipelineType, r: PipelineType): Inferred {
    var bad := Inferred(None, [BinaryOpError(op, l, r)]);
    if IsLogical(op) then if l.Boolean? && r.Boolean? then Inferred(Some(Boolean), []) else bad
    else if IsComparison(op) then if Comparable(l, r) then Inferred(Some(Boolean), []) else bad
    else if IsNumeric(l) && IsNumeric(r) then Inferred(Promote(l, r), [])
    else if op.Add? && IsTextual(l) && IsTextual(r) then Inferred(Some(Text), [])
    else bad
  }

  function TypeUnary(op: UnaryOp, t: PipelineType): Inferred {
    match op
    case Neg => if IsNumeric(t) then Inferred(Some(t), []) else Inferred(None, [UnaryOpError(op, t)])
    case Not => if t.Boolean? then Inferred(Some(Boolean), []) else Inferred(None, [UnaryOpError(op, t)])
  }

  function LitType(lit: Literal): PipelineType {
    match lit
    case LitBool(_) => Boolean
    case LitInteger(_) => Integer
    case LitDouble(_) => DoubleType
    case LitString(_) => Text
    case LitNull => Text
  }

  predicate Satisfies(t: PipelineType, c: Constraint) {
    match c
    case Any => true
    case Exactly(want) => Equal(t, want)
    case Promotable(want) => CanPromote(t, want)
    case Numeric => IsNumeric(t)
    case Textual => IsTextual(t)
    case Temporal => IsTemporal(t)
  }

  function CheckConstraint(name: string, index: nat, t: PipelineType, c: Constraint): seq<TypeError> {
    if Satisfies(t, c) then [] else [ArgType(name, index)]
  }

  /** The types of the arguments; None where an argument has none. */
  datatype ArgTypes = ArgTypes(tys: seq<Option<PipelineType>>, errors: seq<TypeError>)

  /** The least upper bound of the listed arguments that have a type. */
  function PromoteArgs(tys: seq<Option<PipelineType>>, idx: seq<nat>): Option<Option<PipelineType>> {
    if idx == [] then Some(None) else
    var n := |idx| - 1;
    match PromoteArgs(tys, idx[..n])
    case None => None
    case Some(acc) =>
      if idx[n] >= |tys| || tys[idx[n]].None? then Some(acc)
      else if acc.None? then Some(tys[idx[n]])
      else
        match Promote(acc.value, tys[idx[n]].value)
        case None => None
        case Some(t) => Some(Some(t))
  }

  function ResultType(name: string, rule: ResultRule, args: seq<Expr>, tys: seq<Option<PipelineType>>): Inferred {
    match rule
    case Fixed(t) => Inferred(Some(t), [])
    case PromoteOf(idx) =>
      (match PromoteArgs(tys, idx)
       case None => Inferred(None, [])
       case Some(t) => Inferred(t, []))
    case TypeFromStringArg(i) =>
      if i >= |args| || !args[i].Lit? || !args[i].lit.LitString? then Inferred(None, [ArgType(name, i)])
      else match ParseTypeLiteral(args[i].lit.text)
        case None => Inferred(None, [InvalidCastTarget(args[i].lit.text)])
        case Some(t) => Inferred(Some(t), [])
  }

  /** inferInner. */
  function Infer(e: Expr, env: ColumnEnv): Inferred
    decreases e, 1
  {
    match e
    case Lit(lit) => Inferred(Some(LitType(lit)), [])
    case Column(name) => if name in env then Inferred(Some(env[name]), []) else Inferred(None, [UnknownColumn(name)])
    case Unary(op, operand) =>
      var inner := Infer(operand, env);
      if inner.ty.None? then inner else
      var r := TypeUnary(op, inner.ty.value);
      Inferred(r.ty, inner.errors + r.errors)
    case Binary(op, left, right) =>
      var l, r := Infer(left, env), Infer(right, env);
      if l.ty.None? || r.ty.None? then Inferred(None, l.errors + r.errors) else
      var t := TypeBinary(op, l.ty.value, r.ty.value);
      Inferred(t.ty, l.errors + r.errors + t.errors)
    case Call(name, args) =>
      var f := FnOf(name);
      if f.None? then Inferred(None, [UnknownFunction(name)]) else
      var sig := SignatureOf(f.value);
      if |args| != |sig.params| then Inferred(None, [ArityError(name, |sig.params|, |args|)]) else
      var a := InferArgs(name, args, sig.params, env);
      var r := ResultType(name, sig.result, args, a.tys);
      Inferred(r.ty, a.errors + r.errors)
  }

  function InferArgs(name: string, args: seq<Expr>, params: seq<Constraint>, env: ColumnEnv): (r: ArgTypes)
    requires |args| <= |params|
    ensures |r.tys| == |args|
    decreases args, 0
  {
    if args == [] then ArgTypes([], []) else
    var n := |args| - 1;
    var front := InferArgs(name, args[..n], params, env);
    var t := Infer(args[n], env);
    var checked := if t.ty.Some? then CheckConstraint(name, n, t.ty.value, params[n]) else [];
    ArgTypes(front.tys + [t.ty], front.errors + t.errors + checked)
  }

  /** InferExpr: the errors if there are any, else the type, else String. */
  function InferExpr(e: Expr, env: ColumnEnv): Result<PipelineType, seq<TypeError>> {
    var r := Infer(e, env);
    if r.errors != [] then Err(r.errors)
    else if r.ty.None? then Ok(Text)
    else Ok(r.ty.value)
  }

  // ---------------------------------------------------------------------------------------------
  // Without errors there is a type
  // ---------------------------------------------------------------------------------------------

  lemma PromoteOfNumerics(l: PipelineType, r: PipelineType)
    requires IsNumeric(l) && IsNumeric(r)
    ensures Promote(l, r).Some? && IsNumeric(Promote(l, r).value)
    ensures Promote(l, r).value == l || Promote(l, r).value == r
  {
  }

  lemma {:induction false} ArgsWithoutErrors(name: string, args: seq<Expr>, params: seq<Constraint>, env: ColumnEnv)
    requires |args| <= |params| && InferArgs(name, args, params, env).errors == []
    ensures var a := InferArgs(name, args, params, env);
      forall i :: 0 <= i < |args| ==>
        && Infer(args[i], env).errors == [] && a.tys[i] == Infer(args[i], env).ty
        && a.tys[i].Some? && Satisfies(a.tys[i].value, params[i])
    decreases args, 0
  {
    hide Infer, InferArgs, Satisfies;
    if args != [] {
      var n := |args| - 1;
      assert args[..n + 1] == args;
      ArgsGrow(name, args, n, params, env);
      ArgsWithoutErrors(name, args[..n], params, env);
      NoErrorsMeansTyped(args[n], env);
    }
  }

  /** The fallback to String in InferExpr is never taken: an expression without type errors has a type. */
  lemma {:induction false} NoErrorsMeansTyped(e: Expr, env: ColumnEnv)
    requires Infer(e, env).errors == []
    ensures Infer(e, env).ty.Some?
    decreases e, 1
  {
    hide LitType, FnOf, SignatureOf, CheckConstraint, Satisfies, ResultType, PromoteArgs;
    match e
    case Lit(_) =>
    case Column(_) =>
    case Unary(_, operand) => NoErrorsMeansTyped(operand, env);
    case Binary(op, left, right) =>
      NoErrorsMeansTyped(left, env);
      NoErrorsMeansTyped(right, env);
    case Call(name, args) =>
      var f := FnOf(name).value;
      var sig := SignatureOf(f);
      ArgsWithoutErrors(name, args, sig.params, env);
      ResultWithoutErrors(name, f, args, InferArgs(name, args, sig.params, env).tys);
  }

  /** When the result of a call is known. */
  lemma ResultWithoutErrors(name: string, f: Fn, args: seq<Expr>, tys: seq<Option<PipelineType>>)
    requires |tys| == |args| == |SignatureOf(f).params| && forall i :: 0 <= i < |tys| ==> tys[i].Some?
    requires ResultType(name, SignatureOf(f).result, args, tys).errors == []
    ensures ResultType(name, SignatureOf(f).result, args, tys).ty.Some?
  {
    hide Satisfies;
    if f.Abs? || f.Floor? || f.Ceil? || f.Round? {
      OnePromoted(tys);
    }
  }

  lemma OnePromoted(tys: seq<Option<PipelineType>>)
    requires |tys| == 1 && tys[0].Some?
    ensures PromoteArgs(tys, [0]) == Some(tys[0])
  {
    assert PromoteArgs(tys, []) == Some(None);
    assert [0][..0] == [];
  }

  // ---------------------------------------------------------------------------------------------
  // The inference pass with its shared error slice
  // ---------------------------------------------------------------------------------------------

  lemma CallUnfolds(name: string, args: seq<Expr>, env: ColumnEnv)
    ensures Infer(Call(name, args), env) ==
      var f := FnOf(name);
      if f.None? then Inferred(None, [UnknownFunction(name)]) else
      var sig := SignatureOf(f.value);
      if |args| != |sig.params| then Inferred(None, [ArityError(name, |sig.params|, |args|)]) else
      var a := InferArgs(name, args, sig.params, env);
      var r := ResultType(name, sig.result, args, a.tys);
      Inferred(r.ty, a.errors + r.errors)
  {
  }

  lemma NoArgs(name: string, args: seq<Expr>, params: seq<Constraint>, env: ColumnEnv)
    requires args == []
    ensures InferArgs(name, args, params, env) == ArgTypes([], [])
  {
  }

  lemma ArgsGrow(name: string, args: seq<Expr>, i: nat, params: seq<Constraint>, env: ColumnEnv)
    requires i < |args| <= |params|
    ensures
      var front, t := InferArgs(name, args[..i], params, env), Infer(args[i], env);
      var checked := if t.ty.Some? then CheckConstraint(name, i, t.ty.value, params[i]) else [];
      InferArgs(name, args[..i + 1], params, env) == ArgTypes(front.tys + [t.ty], front.errors + t.errors + checked)
  {
    hide CheckConstraint, Infer;
    assert args[..i + 1][..i] == args[..i] && args[..i + 1][i] == args[i];
  }

  class Inference {
    var errors: seq<TypeError>

    constructor ()
      ensures errors == []
    {
      errors := [];
    }

    method InferInner(e: Expr, env: ColumnEnv) returns (ty: Option<PipelineType>)
      modifies this
      ensures ty == Infer(e, env).ty && errors == old(errors) + Infer(e, env).errors
      decreases e, 1
    {
      hide TypeBinary, TypeUnary, LitType, FnOf, SignatureOf, ResultType, InferArgs;
      match e {
        case Lit(lit) => ty := Some(LitType(lit));
        case Column(name) =>
          if name in env {
            ty := Some(env[name]);
          } else {
            errors := errors + [UnknownColumn(name)];
            ty := None;
          }
        case Unary(op, operand) =>
          ty := InferInner(operand, env);
          if ty.Some? {
            var r := TypeUnary(op, ty.value);
            errors := errors + r.errors;
            ty := r.ty;
          }
        case Binary(op, left, right) =>
          var l := InferInner(left, env);
          var r := InferInner(right, env);
          if l.None? || r.None? {
            ty := None;
          } else {
            var t := TypeBinary(op, l.value, r.value);
            errors := errors + t.errors;
            ty := t.ty;
          }
        case Call(name, args) => ty := InferCall(name, args, env);
      }
    }

    method InferCall(name: string, args: seq<Expr>, env: ColumnEnv) returns (ty: Option<PipelineType>)
      modifies this
      ensures ty == Infer(Call(name, args), env).ty
      ensures errors == old(errors) + Infer(Call(name, args), env).errors
      decreases Call(name, args), 0
    {
      CallUnfolds(name, args, env);
      hide FnOf, SignatureOf, ResultType, CheckConstraint, Satisfies, Infer, InferArgs;
      var f := FnOf(name);
      if f.None? {
        errors := errors + [UnknownFunction(name)];
        return None;
      }
      var sig := SignatureOf(f.value);
      if |args| != |sig.params| {
        errors := errors + [ArityError(name, |sig.params|, |args|)];
        return None;
      }
      var tys: seq<Option<PipelineType>> := [];
      assert InferArgs(name, args[..0], sig.params, env) == ArgTypes([], []) by {
        NoArgs(name, args[..0], sig.params, env);
      }
      for i := 0 to |args|
        invariant tys == InferArgs(name, args[..i], sig.params, env).tys
        invariant errors == old(errors) + InferArgs(name, args[..i], sig.params, env).errors
      {
        ArgsGrow(name, args, i, sig.params, env);
        var t := InferInner(args[i], env);
        if t.Some? {
          errors := errors + CheckConstraint(name, i, t.value, sig.params[i]);
        }
        tys := tys + [t];
      }
      assert args[..|args|] == args;
      var r := ResultType(name, sig.result, args, tys);
      errors := errors + r.errors;
      return r.ty;
    }
  }

  /** InferExpr with the mutable error list. */
  method InferType(e: Expr, env: ColumnEnv) returns (r: Result<PipelineType, seq<TypeError>>)
    ensures r == InferExpr(e, env)
  {
    var pass := new Inference();
    var ty := pass.InferInner(e, env);
    assert pass.errors == Infer(e, env).errors;
    if |pass.errors| > 0 {
      return Err(pass.errors);
    }
    return Ok(if ty.None? then Text else ty.value);
  }
}
