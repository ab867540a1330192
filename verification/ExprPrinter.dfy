/** Expr.String and writeTo (libs/pipeline-expression/parser.go). */
module ExprPrinter {
  import opened ExprSyntax

  function OpText(op: BinaryOp): string {
    match op
    case Add => "+"
    case Sub => "-"
    case Mul => "*"
    case Div => "/"
    case Eq => "="
    case NotEq => "!="
    case Lt => "<"
    case Lte => "<="
    case Gt => ">"
    case Gte => ">="
    case And => "and"
    case Or => "or"
  }

  function PrintInt(n: int): string {
    if n < 0 then "-" + Digits(-n) else Digits(n)
  }

  function PrintLit(c: FloatCodec, lit: Literal): string {
    match lit
    case LitBool(b) => if b then "true" else "false"
    case LitInteger(n) => PrintInt(n)
    case LitDouble(d) => c.format(d)
    case LitString(s) => "'" + s + "'"
    case LitNull => "null"
  }

  function UnaryText(op: UnaryOp): string {
    match op
    case Neg => "-"
    case Not => "not "
  }

  function Print(c: FloatCodec, e: Expr): string {
    match e
    case Lit(lit) => PrintLit(c, lit)
    case Column(name) => name
    case Call(name, args) => name + "(" + PrintArgs(c, args) + ")"
    case Unary(op, operand) => UnaryText(op) + Print(c, operand)
    case Binary(op, left, right) => "(" + Print(c, left) + " " + OpText(op) + " " + Print(c, right) + ")"
  }

  /** The arguments separated by a comma and a space. */
  function PrintArgs(c: FloatCodec, args: seq<Expr>): string {
    if args == [] then ""
    else if |args| == 1 then Print(c, args[0])
    else Print(c, args[0]) + ", " + PrintArgs(c, args[1..])
  }

  function PrintFrom(c: FloatCodec, args: seq<Expr>, i: nat): string
    requires i <= |args|
  {
    if i == |args| then "" else (if i > 0 then ", " else "") + PrintArgs(c, args[i..])
  }

  lemma PrintFromStep(c: FloatCodec, args: seq<Expr>, i: nat)
    requires i < |args|
    ensures PrintFrom(c, args, i) == (if i > 0 then ", " else "") + Print(c, args[i]) + PrintFrom(c, args, i + 1)
  {
    assert args[i..][1..] == args[i + 1..] && args[i..][0] == args[i];
  }

  /** writeTo appends the text of the expression to the builder. */
  method WriteTo(c: FloatCodec, e: Expr, b: string) returns (b': string)
    ensures b' == b + Print(c, e)
    decreases e, 1
  {
    match e {
      case Lit(lit) => b' := b + PrintLit(c, lit);
      case Column(name) => b' := b + name;
      case Call(name, args) => b' := WriteCall(c, name, args, b);
      case Unary(op, operand) => b' := WriteTo(c, operand, b + UnaryText(op));
      case Binary(op, left, right) =>
        b' := WriteTo(c, left, b + "(");
        b' := b' + " " + OpText(op) + " ";
        b' := WriteTo(c, right, b');
        b' := b' + ")";
    }
  }

  method WriteCall(c: FloatCodec, name: string, args: seq<Expr>, b: string) returns (b': string)
    ensures b' == b + Print(c, Call(name, args))
    decreases Call(name, args), 0
  {
    b' := b + name + "(";
    ghost var start := b';
    ghost var text := PrintArgs(c, args);
    assert args[0..] == args;
    for i := 0 to |args|
      invariant start + text == b' + PrintFrom(c, args, i)
    {
      PrintFromStep(c, args, i);
      if i > 0 {
        b' := b' + ", ";
      }
      b' := WriteTo(c, args[i], b');
    }
    assert PrintFrom(c, args, |args|) == "" && b' + "" == b';
    assert b' == start + text;
    b' := b' + ")";
    assert Print(c, Call(name, args)) == name + "(" + text + ")";
    assert b' == b + (name + "(" + text + ")");
  }
}
